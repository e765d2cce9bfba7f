/** An inode as it is stored in its block. */
module InodeImage {
  import opened Bytes
  import opened Volume
  import opened FileTree

  function Words(b: Block, from: nat, n: nat): (w: seq<u32>)
    requires from + n <= WORDS
    ensures |w| == n && forall i: nat :: i < n ==> w[i] == Word(b, from + i)
  {
    seq<u32>(n, i requires 0 <= i < n => Word(b, from + i))
  }

  /** The inode stored in block ino. */
  function DinodeOf(st: Store, ino: nat): (d: Dinode)
    ensures forall r: nat :: r < ROOTS ==> RootPtr(d, r) == Word(st.Block(ino), r)
  {
    var b := st.Block(ino);
    DiskInode(Words(b, 0, BMAP0_SIZE), Words(b, ROOT1, BMAP1_SIZE), Words(b, ROOT2, BMAP2_SIZE), Word(b, 124), Word(b, 125) % 0x1_0000)
  }

  function NlinkOf(b: Block): nat { Word(b, 127) / 0x1_0000 }

  /** S_ISDIR of the mode field. */
  predicate IsDir(b: Block) { Word(b, 127) % 0x1_0000 / 0x1000 == 4 }

  type u16 = x: int | 0 <= x < 0x1_0000

  /** An inode as the fields of struct disk_inode. */
  datatype Fields = Fields(d: Dinode, atime: u32, mtime: u32, ctime: u32, uid: u16, gid: u16, rdev: u16, mode: u16, nlink: u16)

  function Half(n: u16): (b: seq<byte>)
    ensures |b| == 2
  {
    [n % 0x100, n / 0x100]
  }

  function Whole(ws: seq<u32>): (b: seq<byte>)
    ensures |b| == 4 * |ws|
  {
    if ws == [] then [] else Digits(ws[0]) + Whole(ws[1..])
  }

  /** The fields one after the other, the low byte of each first. */
  function Image(f: Fields): (b: seq<byte>)
    requires f.d.size < 0x1_0000_0000 && f.d.blocks < 0x1_0000
    ensures |b| == BLK_SIZE
  {
    Whole(f.d.bmap0 + f.d.bmap1 + f.d.bmap2 + [f.atime, f.mtime, f.ctime, f.d.size])
    + Half(f.d.blocks) + Half(f.uid) + Half(f.gid) + Half(f.rdev) + Half(f.mode) + Half(f.nlink)
  }

  lemma {:induction false} WholeAt(ws: seq<u32>, i: nat)
    requires i < |ws|
    ensures Whole(ws)[4 * i..4 * i + 4] == Digits(ws[i])
  {
    if i > 0 {
      WholeAt(ws[1..], i - 1);
      assert Whole(ws)[4 * i..4 * i + 4] == Whole(ws[1..])[4 * (i - 1)..4 * (i - 1) + 4];
    }
  }

  lemma QuarterIs(b: Block, i: nat, e: seq<byte>)
    requires i < WORDS && |e| == 4 && b[4 * i..4 * i + 4] == e
    ensures Word(b, i) == Number(e[0], e[1], e[2], e[3])
  {
    hide Number;
    assert b[4 * i] == e[0] && b[4 * i + 1] == e[1] && b[4 * i + 2] == e[2] && b[4 * i + 3] == e[3];
  }

  lemma WordOfWhole(ws: seq<u32>, b: Block, i: nat)
    requires i < |ws| && i < WORDS && Whole(ws) <= b
    ensures Word(b, i) == ws[i]
  {
    hide Digits, Number, Whole;
    WholeAt(ws, i);
    NumberOfDigits(ws[i]);
    assert b[4 * i..4 * i + 4] == Whole(ws)[4 * i..4 * i + 4];
    QuarterIs(b, i, Digits(ws[i]));
  }

  lemma WordOfHalves(b: Block, i: nat, lo: u16, hi: u16)
    requires i < WORDS && b[4 * i..4 * i + 4] == Half(lo) + Half(hi)
    ensures Word(b, i) % 0x1_0000 == lo && Word(b, i) / 0x1_0000 == hi
  {
    QuarterIs(b, i, Half(lo) + Half(hi));
    assert Word(b, i) == lo + 0x1_0000 * hi;
  }

  lemma FourBits(m: nat)
    requires m < 16
    ensures m == 4 <==> m % 2 == 0 && m / 2 % 2 == 0 && m / 4 % 2 == 1 && m / 8 % 2 == 0
  {
  }

  /** The mode has the file type of a directory: of the bits 0xF000 exactly 0x4000 is set. */
  lemma DirBits(mode: u16)
    ensures mode / 0x1000 == 4 <==> !Bit(mode, 12) && !Bit(mode, 13) && Bit(mode, 14) && !Bit(mode, 15)
  {
    hide Bit;
    assert Pow2(12) == 0x1000 && Pow2(13) == 0x2000 && Pow2(14) == 0x4000 && Pow2(15) == 0x8000;
    BitIs(mode, 12);
    BitIs(mode, 13);
    BitIs(mode, 14);
    BitIs(mode, 15);
    hide Pow2;
    FourBits(mode / 0x1000);
    assert mode / 0x2000 == mode / 0x1000 / 2 && mode / 0x4000 == mode / 0x1000 / 4 && mode / 0x8000 == mode / 0x1000 / 8;
  }

  /** What is read of an inode in its block are its fields, and whether it is a directory is what its mode says. */
  lemma ImageReads(st: Store, ino: nat, f: Fields)
    requires f.d.size < 0x1_0000_0000 && f.d.blocks < 0x1_0000 && st.Block(ino) == Image(f)
    ensures DinodeOf(st, ino) == f.d && NlinkOf(st.Block(ino)) == f.nlink
    ensures IsDir(st.Block(ino)) <==> !Bit(f.mode, 12) && !Bit(f.mode, 13) && Bit(f.mode, 14) && !Bit(f.mode, 15)
  {
    hide Digits, Number, Bit, Word, Whole;
    var b := st.Block(ino);
    var ws := f.d.bmap0 + f.d.bmap1 + f.d.bmap2 + [f.atime, f.mtime, f.ctime, f.d.size];
    assert b[..4 * 125] == Whole(ws) && |ws| == 125;
    forall i: nat | i < 125 ensures Word(b, i) == ws[i] {
      WordOfWhole(ws, b, i);
    }
    WordOfHalves(b, 125, f.d.blocks, f.uid);
    WordOfHalves(b, 127, f.mode, f.nlink);
    DirBits(f.mode);
    assert Words(b, 0, BMAP0_SIZE) == f.d.bmap0;
    assert Words(b, ROOT1, BMAP1_SIZE) == f.d.bmap1;
    assert Words(b, ROOT2, BMAP2_SIZE) == f.d.bmap2;
  }
}
