/** Directories on the disk: dir_search and dir_creat of kern/fs/dir.c over the blocks of a file. What
    Dir says of slots is true of the entries stored in those blocks. */
module DirFile {
  import opened Bytes
  import opened Errors
  import opened Cache
  import opened Volume
  import opened FileTree
  import opened Bmap
  import opened Rw
  import opened Dir

  /** Characters that are bytes. */
  predicate Narrow(s: string) { forall i :: 0 <= i < |s| ==> s[i] as int < 256 }

  function Chars(b: seq<byte>): (s: string)
    ensures |s| == |b| && Narrow(s)
  {
    seq(|b|, i requires 0 <= i < |b| => b[i] as char)
  }

  function CharBytes(s: string): (b: seq<byte>)
    requires Narrow(s)
    ensures |b| == |s| && Chars(b) == s
  {
    seq(|s|, i requires 0 <= i < |s| => s[i] as int)
  }

  /** The entry that 32 bytes hold. */
  function Parse(b: seq<byte>): Dirent
    requires |b| == DIRENT
  {
    Dirent(Number(b[0], b[1], b[2], b[3]), Chars(b[4..]))
  }

  function Packed(ino: u32, name: Field): (b: seq<byte>)
    requires Narrow(name)
    ensures |b| == DIRENT
  {
    Digits(ino) + CharBytes(name)
  }

  lemma ParsePacked(ino: u32, name: Field)
    requires Narrow(name)
    ensures Parse(Packed(ino, name)) == Dirent(ino, name)
  {
    hide Digits, Number;
    var b := Packed(ino, name);
    assert b[..4] == Digits(ino) && b[4..] == CharBytes(name);
    NumberOfDigits(ino);
  }

  /** The bytes of slot k of a directory. */
  ghost function SlotBytes(d: Dinode, st: Store, k: nat): (b: seq<byte>)
    requires k < PER_BLOCK * BMAP_LOW
    ensures |b| == DIRENT
  {
    seq<byte>(DIRENT, i requires 0 <= i < DIRENT => ByteAt(d, st, DIRENT * k + i))
  }

  /** The slots in the first n blocks of a directory. */
  ghost function SlotsOf(d: Dinode, st: Store, n: nat): (es: seq<Dirent>)
    requires n <= BMAP_LOW
    ensures |es| == PER_BLOCK * n
    ensures forall k :: 0 <= k < PER_BLOCK * n ==> es[k] == Parse(SlotBytes(d, st, k))
  {
    seq(PER_BLOCK * n, k requires 0 <= k < PER_BLOCK * n => Parse(SlotBytes(d, st, k)))
  }

  /** The file blocks with a block of the device are those below n. */
  ghost predicate Prefix(d: Dinode, st: Store, n: nat) {
    n <= BMAP_LOW && forall bn: nat :: bn < BMAP_LOW ==> (Ptr(d, st, SlotOf(bn)) != 0 <==> bn < n)
  }

  /** Growing by the first file block that has none leaves no gap. */
  lemma PrefixGrown(d: Dinode, st: Store, e: Dinode, st': Store, n: nat, b: u32)
    requires Prefix(d, st, n) && n < BMAP_LOW && b != 0 && Installed(d, st, e, st', SlotOf(n), b)
    ensures Prefix(e, st', n + 1)
  {
    forall bn: nat | bn < BMAP_LOW ensures Ptr(e, st', SlotOf(bn)) != 0 <==> bn < n + 1 {
      if SlotOf(bn) == SlotOf(n) { SlotOfInjective(bn, n); }
    }
  }

  /** A file without blocks is a directory without entries. */
  lemma PrefixOfNothing(d: Dinode, st: Store)
    requires forall r: nat :: r < ROOTS ==> RootPtr(d, r) == 0
    ensures Prefix(d, st, 0)
  {
    forall bn: nat | bn < BMAP_LOW ensures Ptr(d, st, SlotOf(bn)) == 0 {
      assert RootPtr(d, SlotOf(bn).r) == 0;
    }
  }

  /** Where the bytes are the same, so are the slots. */
  lemma SameSlots(d: Dinode, st: Store, e: Dinode, st': Store, n: nat)
    requires n <= BMAP_LOW && forall p: nat :: p < MAXFSZ ==> ByteAt(e, st', p) == ByteAt(d, st, p)
    ensures SlotsOf(e, st', n) == SlotsOf(d, st, n)
  {
    hide ByteAt;
    forall k: nat | k < PER_BLOCK * n ensures SlotBytes(e, st', k) == SlotBytes(d, st, k) {
    }
  }

  lemma HoleReadsZero(d: Dinode, st: Store, n: nat, p: nat)
    requires Prefix(d, st, n) && n <= p / BLK_SIZE < BMAP_LOW
    ensures ByteAt(d, st, p) == 0
  {
  }

  /** A file block that is not there reads as blank slots. */
  lemma BlankBlock(d: Dinode, st: Store, n: nat)
    requires Prefix(d, st, n) && n < BMAP_LOW
    ensures SlotsOf(d, st, n + 1) == SlotsOf(d, st, n) + Blank(PER_BLOCK)
  {
    hide ByteAt, Ptr, Prefix, SlotOf, Parse;
    forall k: nat | PER_BLOCK * n <= k < PER_BLOCK * (n + 1) ensures Parse(SlotBytes(d, st, k)) == Dirent(0, Zeros(NAME_MAX)) {
      forall i | 0 <= i < DIRENT ensures SlotBytes(d, st, k)[i] == 0 {
        HoleReadsZero(d, st, n, DIRENT * k + i);
      }
      ParseZeros(SlotBytes(d, st, k));
    }
  }

  lemma ZerosAre(n: nat, k: nat)
    requires k < n
    ensures Zeros(n)[k] == '\0'
  {
    if k > 0 { ZerosAre(n - 1, k - 1); }
  }

  lemma NumberOfZeros()
    ensures Number(0, 0, 0, 0) == 0
  {
  }

  lemma ParseZeros(b: seq<byte>)
    requires |b| == DIRENT && forall i :: 0 <= i < DIRENT ==> b[i] == 0
    ensures Parse(b) == Dirent(0, Zeros(NAME_MAX))
  {
    hide Zeros, Number;
    NumberOfZeros();
    forall i | 0 <= i < NAME_MAX ensures Chars(b[4..])[i] == Zeros(NAME_MAX)[i] {
      ZerosAre(NAME_MAX, i);
    }
  }

  /** One slot is written over. */
  lemma SlotWritten(d: Dinode, st: Store, e: Dinode, st': Store, n: nat, k: nat, src: seq<byte>)
    requires n <= BMAP_LOW && k < PER_BLOCK * n && |src| == DIRENT
    requires Wrote(d, st, e, st', DIRENT * k, DIRENT * (k + 1), src)
    ensures SlotsOf(e, st', n) == SlotsOf(d, st, n)[k := Parse(src)]
  {
    hide ByteAt;
    forall j: nat | j < PER_BLOCK * n
      ensures SlotBytes(e, st', j) == if j == k then src else SlotBytes(d, st, j)
    {
    }
  }

  /** A directory of n blocks in an inode: its file is sound, its blocks have no gap between them, no
      entry in use is beyond its size, and the entries stand for the bindings. */
  ghost predicate IsDirFile(d: Dinode, st: Store, used: set<nat>, at: Layout, n: nat, binds: map<string, nat>) {
    && Good(d, st, used, at) && n <= BMAP_LOW && Prefix(d, st, n)
    && InSize(SlotsOf(d, st, n), d.size) && Stands(SlotsOf(d, st, n), binds)
  }

  /** An empty file is a directory without entries, and stands for no bindings. */
  lemma EmptyDirFile(d: Dinode, st: Store, used: set<nat>, at: Layout)
    requires Good(d, st, used, at) && forall r: nat :: r < ROOTS ==> RootPtr(d, r) == 0
    ensures IsDirFile(d, st, used, at, 0, map[])
  {
    hide Good;
    PrefixOfNothing(d, st);
  }

  /** The entries in the bytes of a block. */
  function EntriesOf(data: seq<byte>): (es: seq<Dirent>)
    requires |data| == BLK_SIZE
    ensures |es| == PER_BLOCK
    ensures forall i :: 0 <= i < PER_BLOCK ==> es[i] == Parse(data[DIRENT * i..DIRENT * i + DIRENT])
  {
    seq(PER_BLOCK, i requires 0 <= i < PER_BLOCK => Parse(data[DIRENT * i..DIRENT * i + DIRENT]))
  }

  /** bmget: the bytes of file block n, if it is there. */
  method Block(f: Inode, n: nat, ghost count: nat) returns (err: Err, has: bool, data: seq<byte>)
    requires f.vol.Valid() && n <= count < BMAP_LOW && Prefix(f.d, f.St(), count)
    modifies f`d, f`dirty, f.Below()
    ensures f.vol.Valid() && f.Idle() && err in {OK, ENOMEM} && (err == OK || f.vol.Because(err))
    ensures err == OK ==> (has <==> n < count)
    ensures err == OK && has ==>
              |data| == BLK_SIZE && EntriesOf(data) == SlotsOf(f.d, f.St(), count)[PER_BLOCK * n..PER_BLOCK * (n + 1)]
  {
    hide BlkCache.Valid, Volume.Because, Cache.SlotsOf, Cache.Lent, Volume.Sound, Word, SlotOf;
    var blk;
    data := [];
    err, blk := f.Bmap3(n, false);
    has := blk != 0;
    if err != OK { return; }
    WalkFindsData(f.d, f.St(), n);
    assert blk == Ptr(f.d, f.St(), SlotOf(n));
    if blk != 0 {
      err, data := f.vol.ReadData(blk, 0, BLK_SIZE);
      if err == OK { BlockSlots(f.d, f.St(), count, n, blk, data); }
    }
  }

  lemma BlockSlots(d: Dinode, st: Store, count: nat, n: nat, blk: u32, data: seq<byte>)
    requires n < count <= BMAP_LOW && blk == Ptr(d, st, SlotOf(n)) && blk != 0 && data == st.Block(blk)[0..BLK_SIZE]
    ensures EntriesOf(data) == SlotsOf(d, st, count)[PER_BLOCK * n..PER_BLOCK * (n + 1)]
  {
    hide Ptr, SlotOf, Parse;
    var es := SlotsOf(d, st, count)[PER_BLOCK * n..PER_BLOCK * (n + 1)];
    forall i | 0 <= i < PER_BLOCK ensures EntriesOf(data)[i] == es[i] {
      var part := data[DIRENT * i..DIRENT * i + DIRENT];
      forall j | 0 <= j < DIRENT ensures part[j] == SlotBytes(d, st, PER_BLOCK * n + i)[j] {
        var p := DIRENT * (PER_BLOCK * n + i) + j;
        assert p == BLK_SIZE * n + (DIRENT * i + j) && p / BLK_SIZE == n && p % BLK_SIZE == DIRENT * i + j;
        assert SlotBytes(d, st, PER_BLOCK * n + i)[j] == ByteAt(d, st, p) == data[DIRENT * i + j];
      }
      assert part == SlotBytes(d, st, PER_BLOCK * n + i);
    }
  }

  /** The loop over the entries of one block, in dir_search and dir_creat: the place of the name, or the
      end; and the first free place before that. */
  method Match(data: seq<byte>, name: string) returns (i: nat, free: nat)
    requires |data| == BLK_SIZE && Text(name)
    ensures i <= PER_BLOCK && (i < PER_BLOCK ==> Live(EntriesOf(data), i, Clip(name)))
    ensures forall j :: 0 <= j < i ==> !Live(EntriesOf(data), j, Clip(name))
    ensures free <= PER_BLOCK && (free < PER_BLOCK ==> EntriesOf(data)[free].ino == 0)
    ensures forall j :: 0 <= j < i && j < free ==> EntriesOf(data)[j].ino != 0
  {
    hide Parse, Dir.Stored, Strncmp, Clip;
    i, free := 0, PER_BLOCK;
    while i < PER_BLOCK
      invariant i <= PER_BLOCK && forall j :: 0 <= j < i ==> !Live(EntriesOf(data), j, Clip(name))
      invariant free <= PER_BLOCK && (free < PER_BLOCK ==> free < i && EntriesOf(data)[free].ino == 0)
      invariant forall j :: 0 <= j < i && j < free ==> EntriesOf(data)[j].ino != 0
    {
      var e := Parse(data[DIRENT * i..DIRENT * i + DIRENT]);
      assert EntriesOf(data)[i] == e;
      SlotMatches(e.name, name);
      if e.ino != 0 && Strncmp(e.name, name, NAME_MAX) { return; }
      if e.ino == 0 && free == PER_BLOCK { free := i; }
      i := i + 1;
    }
  }

  /** What one block says about the whole. */
  lemma InBlock(es: seq<Dirent>, n: nat, block: seq<Dirent>, name: string)
    requires PER_BLOCK * (n + 1) <= |es| && block == es[PER_BLOCK * n..PER_BLOCK * (n + 1)]
    ensures forall i: nat :: i < PER_BLOCK ==> block[i] == es[PER_BLOCK * n + i]
    ensures forall i: nat :: i < PER_BLOCK ==> (Live(block, i, name) <==> Live(es, PER_BLOCK * n + i, name))
    ensures forall k: nat :: PER_BLOCK * n <= k < PER_BLOCK * (n + 1) ==> es[k] == block[k - PER_BLOCK * n]
    ensures forall k: nat :: PER_BLOCK * n <= k < PER_BLOCK * (n + 1) ==> (Live(es, k, name) <==> Live(block, k - PER_BLOCK * n, name))
  {
    hide Dir.Stored;
  }

  /** The name is that of an entry in use. */
  ghost predicate Has(es: seq<Dirent>, name: string) {
    exists k :: 0 <= k < |es| && Live(es, k, name)
  }

  lemma HasIff(es: seq<Dirent>, binds: map<string, nat>, name: string)
    requires Stands(es, binds)
    ensures Has(es, name) <==> name in binds
  {
    hide Dir.Stored;
    if name in binds {
      assert exists k :: 0 <= k < |es| && Live(es, k, name);
    }
  }

  lemma LiveBound(es: seq<Dirent>, binds: map<string, nat>, k: nat, name: string)
    requires Stands(es, binds) && k < |es| && Live(es, k, name)
    ensures name in binds && binds[name] == es[k].ino
  {
    hide Dir.Stored;
  }

  /** dir_search, on a directory of count blocks. */
  method Search(f: Inode, name: string, ghost count: nat, ghost binds: map<string, nat>) returns (err: Err, k: nat)
    requires f.vol.Valid() && count < BMAP_LOW && IsDirFile(f.d, f.St(), f.vol.used, f.vol.at, count, binds)
    requires Text(name)
    modifies f`d, f`dirty, f.Below()
    ensures f.vol.Valid() && f.Idle() && err in {OK, ENOENT, ENOMEM} && (err == ENOMEM ==> f.vol.Because(err))
    ensures err == OK ==>
              && k < PER_BLOCK * count && Live(SlotsOf(f.d, f.St(), count), k, Clip(name))
              && Clip(name) in binds && SlotsOf(f.d, f.St(), count)[k].ino == binds[Clip(name)]
    ensures err == ENOENT ==> Clip(name) !in binds
  {
    hide BlkCache.Valid, Volume.Because, Cache.SlotsOf, Cache.Lent, Volume.Sound, Prefix, Parse, Dir.Stored, Live, Clip, Ptr, Stands, Good;
    ghost var es := SlotsOf(f.d, f.St(), count);
    var n := 0;
    k := 0;
    while true
      invariant n <= count && f.vol.Valid() && f.Idle()
      invariant forall j :: 0 <= j < PER_BLOCK * n ==> !Live(es, j, Clip(name))
      decreases count - n
    {
      var has, data;
      err, has, data := Block(f, n, count);
      if err != OK { return; }
      HasIff(es, binds, Clip(name));
      if !has { return ENOENT, k; }
      InBlock(es, n, EntriesOf(data), Clip(name));
      var i, free := Match(data, name);
      if i < PER_BLOCK {
        LiveBound(es, binds, PER_BLOCK * n + i, Clip(name));
        return OK, PER_BLOCK * n + i;
      }
      n := n + 1;
    }
  }

  /** The scan of dir_creat. */
  method Scan(f: Inode, name: string, ghost count: nat) returns (err: Err, k: nat)
    requires f.vol.Valid() && count < BMAP_LOW && Prefix(f.d, f.St(), count) && Text(name)
    modifies f`d, f`dirty, f.Below()
    ensures f.vol.Valid() && f.Idle() && err in {OK, EEXIST, ENOMEM} && (err == ENOMEM ==> f.vol.Because(err))
    ensures err == EEXIST ==> exists j :: 0 <= j < PER_BLOCK * count && Live(SlotsOf(f.d, f.St(), count), j, Clip(name))
    ensures err == OK ==> k == FirstFree(SlotsOf(f.d, f.St(), count))
    ensures err == OK ==> forall j :: 0 <= j < PER_BLOCK * count ==> !Live(SlotsOf(f.d, f.St(), count), j, Clip(name))
  {
    hide BlkCache.Valid, Volume.Because, Cache.SlotsOf, Cache.Lent, Volume.Sound, Prefix, Parse, Dir.Stored, Live, Clip, Ptr, FirstFree;
    ghost var es := SlotsOf(f.d, f.St(), count);
    var n, found := 0, false;
    k := 0;
    while true
      invariant n <= count && f.vol.Valid() && f.Idle()
      invariant forall j :: 0 <= j < PER_BLOCK * n ==> !Live(es, j, Clip(name))
      invariant if found then k < PER_BLOCK * n && es[k].ino == 0 else k == PER_BLOCK * n
      invariant forall j :: 0 <= j < k ==> es[j].ino != 0
      decreases count - n
    {
      var has, data;
      err, has, data := Block(f, n, count);
      if err != OK { return; }
      if !has { break; }
      InBlock(es, n, EntriesOf(data), Clip(name));
      var i, free := Match(data, name);
      if i < PER_BLOCK {
        assert Live(es, PER_BLOCK * n + i, Clip(name));
        return EEXIST, k;
      }
      if !found {
        found, k := free < PER_BLOCK, PER_BLOCK * n + free;
      }
      n := n + 1;
    }
    FirstFreeIs(es, k);
  }

  /** What growth leaves of the slots: the directory has a blank block more if it grew by one. */
  lemma GrownSlots(d: Dinode, st: Store, e: Dinode, st': Store, count: nat, now: nat)
    requires Prefix(d, st, count) && count < BMAP_LOW && count <= now <= count + 1
    requires forall p: nat :: p < MAXFSZ ==> ByteAt(e, st', p) == ByteAt(d, st, p)
    ensures SlotsOf(e, st', now) == SlotsOf(d, st, count) + Blank(PER_BLOCK * (now - count))
  {
    hide ByteAt, Prefix;
    SameSlots(d, st, e, st', now);
    if now > count { BlankBlock(d, st, count); }
  }

  /** bmap_alloc of file block n of a directory: only at its end does the directory grow. */
  method Reach(f: Inode, n: nat, ghost count: nat) returns (err: Err, blk: u32, ghost now: nat)
    requires f.Sound() && Prefix(f.d, f.St(), count) && n <= count < BMAP_LOW
    modifies f`d, f`dirty, f.Below()
    ensures f.Sound() && f.Grew() && err in {OK, EROFS, ENOSPC, ENOMEM} && (err == OK || f.vol.Because(err))
    ensures now == (if err == OK && n == count then count + 1 else count) && Prefix(f.d, f.St(), now)
    ensures SlotsOf(f.d, f.St(), now) == SlotsOf(old(f.d), old(f.St()), count) + Blank(PER_BLOCK * (now - count))
    ensures err == OK ==> blk == Ptr(f.d, f.St(), SlotOf(n)) != 0
  {
    hide BlkCache.Valid, Volume.Because, Cache.SlotsOf, Cache.Lent, Volume.Sound, Grown, Good, ByteAt, Word, Ptr, SlotOf;
    err, blk := f.Bmap3(n, true);
    now := if err == OK && n == count then count + 1 else count;
    GrownSlots(old(f.d), old(f.St()), f.d, f.St(), count, now);
  }

  /** A store into an entry changes that slot only. */
  lemma EntryStored(d: Dinode, st: Store, used: set<nat>, at: Layout, count: nat, k: nat, src: seq<byte>)
    requires Good(d, st, used, at) && Prefix(d, st, count) && k < PER_BLOCK * count && |src| == DIRENT
    requires DIRENT * (k + 1) <= d.size
    ensures var b := Ptr(d, st, SlotOf(k / PER_BLOCK));
            var st' := st.Put(b, Patch(st.Block(b), DIRENT * (k % PER_BLOCK), src));
            && b != 0 && Good(d, st', used, at) && Grown(d, st, used, d, st', used) && Prefix(d, st', count)
            && SlotsOf(d, st', count) == SlotsOf(d, st, count)[k := Parse(src)]
  {
    assert Ptr(d, st, SlotOf(k / PER_BLOCK)) != 0;
    hide Good, Grown, ByteAt, Ptr, SlotOf, Parse;
    assert BLK_SIZE * (k / PER_BLOCK) + DIRENT * (k % PER_BLOCK) == DIRENT * k;
    var b := Ptr(d, st, SlotOf(k / PER_BLOCK));
    var st' := st.Put(b, Patch(st.Block(b), DIRENT * (k % PER_BLOCK), src));
    DataStep(d, st, used, at, k / PER_BLOCK, DIRENT * (k % PER_BLOCK), src);
    SlotWritten(d, st, d, st', count, k, src);
  }

  /** bmget_alloc of the block of slot k, and the two stores into its entry. */
  method StoreEntry(f: Inode, k: nat, ino: u32, name: Field, ghost count: nat) returns (err: Err, ghost now: nat)
    requires f.Sound() && Prefix(f.d, f.St(), count) && k <= PER_BLOCK * count && count < BMAP_LOW
    requires Narrow(name) && DIRENT * (k + 1) <= f.d.size
    modifies f`d, f`dirty, f.Below()
    ensures f.Sound() && err in {OK, EROFS, ENOSPC, ENOMEM} && (err == OK || f.vol.Because(err))
    ensures Grown(old(f.d), old(f.St()), old(f.vol.used), f.d, f.St(), f.vol.used)
    ensures f.d.size == old(f.d.size) && (f.dirty == 2 || (f.d == old(f.d) && f.dirty == old(f.dirty)))
    ensures count <= now <= count + 1 && Prefix(f.d, f.St(), now)
    ensures now > count ==> k == PER_BLOCK * count
    ensures err == OK ==> k < PER_BLOCK * now
    ensures SlotsOf(f.d, f.St(), now) ==
              var es := SlotsOf(old(f.d), old(f.St()), count) + Blank(PER_BLOCK * (now - count));
              if err == OK then es[k := Dirent(ino, name)] else es
    ensures old(f.vol.Exact()) ==> f.vol.Exact()
  {
    hide BlkCache.Valid, Volume.Because, Cache.SlotsOf, Cache.Lent, Volume.Sound, Grown, ByteAt, Ptr, SlotOf, Allocated, Unshared, Counted, ZeroTail, Prefix,
         Volume.Exact;
    var blk;
    err, blk, now := Reach(f, k / PER_BLOCK, count);
    if err != OK { return; }
    ghost var d1, st1, used1 := f.d, f.St(), f.vol.used;
    EntryStored(d1, st1, used1, f.vol.at, now, k, Packed(ino, name));
    InDataArea(f, k / PER_BLOCK);
    ParsePacked(ino, name);
    err := f.vol.WriteData(blk, DIRENT * (k % PER_BLOCK), Packed(ino, name));
    if err != OK { return; }
    assert f.St() == st1.Put(blk, Patch(st1.Block(blk), DIRENT * (k % PER_BLOCK), Packed(ino, name)));
    GrownTransitive(old(f.d), old(f.St()), old(f.vol.used), d1, st1, used1, f.d, f.St(), f.vol.used);
  }

  lemma StrncpyNarrow(name: string)
    requires Narrow(name)
    ensures Narrow(Strncpy(name))
  {
    forall i | 0 <= i < NAME_MAX ensures Strncpy(name)[i] as int < 256 {
      var c := Clip(name);
      if i < |c| {
        assert Strncpy(name)[i] == name[i];
      } else {
        ZerosAre(NAME_MAX - |c|, i - |c|);
      }
    }
  }

  lemma InSizeBlank(es: seq<Dirent>, size: nat, n: nat)
    requires InSize(es, size)
    ensures InSize(es + Blank(n), size)
  {
    hide Zeros;
  }

  /** The end of dir_creat, once the slot is chosen: the size, then the block and the entry. */
  method Place(f: Inode, k: nat, name: string, ino: u32, ghost count: nat) returns (err: Err, ghost now: nat)
    requires f.Sound() && Prefix(f.d, f.St(), count) && InSize(SlotsOf(f.d, f.St(), count), f.d.size)
    requires count < BMAP_LOW && k <= PER_BLOCK * count && Text(name) && Narrow(name) && 0 < |name| <= NAME_MAX
    modifies f`d, f`dirty, f.Below()
    ensures f.Sound() && Grown(old(f.d), old(f.St()), old(f.vol.used), f.d, f.St(), f.vol.used)
    ensures err in {OK, EROFS, ENOSPC, ENOMEM} && (err == OK || f.vol.Because(err))
    ensures count <= now <= count + 1 && Prefix(f.d, f.St(), now) && InSize(SlotsOf(f.d, f.St(), now), f.d.size)
    ensures f.d.size == Raised(old(f.d.size), k)
    ensures var es := SlotsOf(old(f.d), old(f.St()), count);
            if err == OK then SlotsOf(f.d, f.St(), now) == Entered(es, k, name, ino) && (now == count <==> k < |es|)
            else SlotsOf(f.d, f.St(), now) == es + Blank(PER_BLOCK * (now - count))
    ensures f.dirty == 2 || (f.d == old(f.d) && f.dirty == old(f.dirty))
    ensures old(f.vol.Exact()) ==> f.vol.Exact()
  {
    hide BlkCache.Valid, Volume.Because, Cache.SlotsOf, Cache.Lent, Volume.Sound, Grown, ByteAt, Ptr, SlotOf, Volume.Exact, Strncpy, Zeros, Allocated, Unshared,
         Counted, ZeroTail, InSize;
    ghost var es, size := SlotsOf(f.d, f.St(), count), f.d.size;
    GrownReflexive(f.d, f.St(), f.vol.used);
    StrncpyNarrow(name);
    InSizeEntered(es, size, k, name, ino);
    if DIRENT * (k + 1) > f.d.size {
      SizeStep(f.d, f.St(), f.vol.used, f.vol.at, DIRENT * (k + 1));
      PrefixSized(f.d, f.St(), count, DIRENT * (k + 1));
      f.d := f.d.(size := DIRENT * (k + 1));
      f.dirty := 2;
    }
    ghost var d1, st1, used1 := f.d, f.St(), f.vol.used;
    assert SlotsOf(d1, st1, count) == es;
    hide Prefix;
    err, now := StoreEntry(f, k, ino, Strncpy(name), count);
    GrownTransitive(old(f.d), old(f.St()), old(f.vol.used), d1, st1, used1, f.d, f.St(), f.vol.used);
    InSizeBlank(es, f.d.size, PER_BLOCK * (now - count));
    assert es + Blank(0) == es;
  }

  /** The size of a directory has nothing to do with its slots. */
  lemma PrefixSized(d: Dinode, st: Store, n: nat, size: nat)
    requires Prefix(d, st, n)
    ensures Prefix(d.(size := size), st, n) && SlotsOf(d.(size := size), st, n) == SlotsOf(d, st, n)
  {
    var e: Dinode := d.(size := size);
    forall s: Slot | InTree(s) ensures Ptr(e, st, s) == Ptr(d, st, s) {
      assert RootPtr(e, s.r) == RootPtr(d, s.r);
    }
    forall p: nat | p < MAXFSZ ensures ByteAt(e, st, p) == ByteAt(d, st, p) {
    }
    SameSlots(d, st, e, st, n);
  }

  /** The slots after dir_creat stand for the bindings with the new one. */
  lemma StandsPlaced(es: seq<Dirent>, binds: map<string, nat>, name: string, ino: nat, n: nat)
    requires Stands(es, binds) && Text(name) && ino != 0
    ensures Stands(es + Blank(n), binds)
    ensures |name| <= NAME_MAX && name !in binds ==> Stands(Entered(es, FirstFree(es), name, ino), Bind(binds, name, ino))
  {
    hide Dir.Stored, Strncpy, Stands, Entered;
    StandsGrown(es, binds, n);
    if |name| <= NAME_MAX && name !in binds {
      StandsEntered(es, binds, FirstFree(es), name, ino);
    }
  }

  /** dir_creat, on a directory of count blocks or, if isDir does not hold, on some other file. What
      Dir says of slots is what happens to the slots stored in the blocks of the file, which stay
      without a gap; the file stays sound and grows into free blocks only. */
  method Creat(f: Inode, name: string, ino: u32, isDir: bool, namlen: nat, ghost count: nat,
               ghost binds: map<string, nat>)
    returns (err: Err, ghost now: nat)
    requires f.Sound() && count < BMAP_LOW && IsDirFile(f.d, f.St(), f.vol.used, f.vol.at, count, binds)
    requires Text(name) && Narrow(name) && ino != 0 && namlen <= NAME_MAX
    modifies f`d, f`dirty, f.Below()
    ensures f.Sound() && Grown(old(f.d), old(f.St()), old(f.vol.used), f.d, f.St(), f.vol.used)
    ensures count <= now <= count + 1
    ensures var e := Refusal(name, namlen, isDir, name in binds);
            err == e || (e in {OK, EEXIST} && err == ENOMEM) || (e == OK && err in {EROFS, ENOSPC})
    ensures err in {EROFS, ENOSPC, ENOMEM} ==> f.vol.Because(err)
    ensures err == OK ==> IsDirFile(f.d, f.St(), f.vol.used, f.vol.at, now, Bind(binds, name, ino))
    ensures err != OK ==> IsDirFile(f.d, f.St(), f.vol.used, f.vol.at, now, binds)
    ensures var es := SlotsOf(old(f.d), old(f.St()), count);
            if err == OK then
              && SlotsOf(f.d, f.St(), now) == Entered(es, FirstFree(es), name, ino)
              && f.d.size == Raised(old(f.d.size), FirstFree(es))
              && (now == count <==> FirstFree(es) < |es|)
            else
              && SlotsOf(f.d, f.St(), now) == es + Blank(PER_BLOCK * (now - count))
              && f.d.size in {old(f.d.size), Raised(old(f.d.size), FirstFree(es))}
    ensures err in {ENAMETOOLONG, EINVAL, ENOTDIR, EEXIST} ==> f.Idle()
    ensures f.dirty == 2 || (f.d == old(f.d) && f.dirty == old(f.dirty))
    ensures old(f.vol.Exact()) ==> f.vol.Exact()
  {
    hide BlkCache.Valid, Volume.Because, Cache.SlotsOf, Cache.Lent, Volume.Sound, Grown, ByteAt, Ptr, SlotOf, Prefix, Volume.Exact, FirstFree, Refusal,
         Dir.Stored, Strncpy, Zeros, Good, Clip, Live, Stands, Bind, Entered;
    ghost var es := SlotsOf(f.d, f.St(), count);
    GrownReflexive(f.d, f.St(), f.vol.used);
    RefusalIs(name, namlen, isDir, name in binds);
    HasIff(es, binds, Clip(name));
    now := count;
    assert es + Blank(0) == es;
    if |name| > namlen { return ENAMETOOLONG, now; }
    if name == [] { return EINVAL, now; }
    if !isDir { return ENOTDIR, now; }
    var k;
    err, k := Scan(f, name, count);
    if err != OK { return; }
    err, now := Place(f, k, name, ino, count);
    StandsPlaced(es, binds, name, ino, PER_BLOCK * (now - count));
  }

  /** Clearing an entry, as do_unlink does it in the buffer of its block, takes its binding away. */
  lemma ClearedDirFile(d: Dinode, st: Store, used: set<nat>, at: Layout, count: nat, binds: map<string, nat>, k: nat)
    requires IsDirFile(d, st, used, at, count, binds) && k < PER_BLOCK * count && SlotsOf(d, st, count)[k].ino != 0
    ensures var b := Ptr(d, st, SlotOf(k / PER_BLOCK));
            var st' := st.Put(b, Patch(st.Block(b), DIRENT * (k % PER_BLOCK), seq(DIRENT, _ => 0)));
            && b != 0 && Grown(d, st, used, d, st', used)
            && IsDirFile(d, st', used, at, count, binds - {Dir.Stored(SlotsOf(d, st, count)[k].name)})
  {
    hide Good, Grown, Prefix, Stands, InSize, Dir.Stored, Zeros, Ptr, SlotOf, Parse, Number;
    var es := SlotsOf(d, st, count);
    InSizeAtSlot(es, d.size, k);
    ParseZeros(seq(DIRENT, _ => 0));
    EntryStored(d, st, used, at, count, k, seq(DIRENT, _ => 0));
    StandsCleared(es, binds, k);
    InSizeCleared(es, d.size, k);
  }

  lemma InSizeAtSlot(es: seq<Dirent>, size: nat, k: nat)
    requires InSize(es, size) && k < |es| && es[k].ino != 0
    ensures DIRENT * (k + 1) <= size
  {
  }

  /** What Dir keeps of directory x is what is stored in its file. */
  ghost predicate Shows(dirs: Dirs, x: nat, d: Dinode, st: Store, n: nat)
    requires n <= BMAP_LOW
    reads dirs
  {
    && x in dirs.slots && x in dirs.size && x in dirs.binds
    && dirs.slots[x] == SlotsOf(d, st, n) && dirs.size[x] == d.size
  }

  /** An entry made in the file is made in the slots by the dir_creat of Dir, and they still agree. After
      a failure they agree but for a size that may be raised in the file, and a blank block that may be
      there, and stand for the same bindings. */
  method CreatBoth(dirs: Dirs, x: nat, f: Inode, name: string, ino: u32, namlen: nat, ghost count: nat)
    returns (err: Err, ghost now: nat)
    requires dirs.Valid() && count < BMAP_LOW && Shows(dirs, x, f.d, f.St(), count)
    requires f.Sound() && IsDirFile(f.d, f.St(), f.vol.used, f.vol.at, count, dirs.binds[x])
    requires Text(name) && Narrow(name) && ino != 0 && namlen <= NAME_MAX
    modifies dirs, f`d, f`dirty, f.Below()
    ensures dirs.Valid() && f.Sound() && now <= BMAP_LOW
    ensures err in {EROFS, ENOSPC, ENOMEM} ==> f.vol.Because(err)
    ensures err == OK ==>
              && Shows(dirs, x, f.d, f.St(), now) && IsDirFile(f.d, f.St(), f.vol.used, f.vol.at, now, dirs.binds[x])
              && name !in old(dirs.binds)[x] && dirs.binds == old(dirs.binds)[x := Bind(old(dirs.binds)[x], name, ino)]
    ensures err != OK ==>
              && unchanged(dirs) && IsDirFile(f.d, f.St(), f.vol.used, f.vol.at, now, dirs.binds[x])
              && count <= now <= count + 1
              && SlotsOf(f.d, f.St(), now) == dirs.slots[x] + Blank(PER_BLOCK * (now - count))
              && f.d.size in {dirs.size[x], Raised(dirs.size[x], FirstFree(dirs.slots[x]))}
  {
    hide BlkCache.Valid, Volume.Because, Cache.SlotsOf, Cache.Lent, Volume.Sound, Grown, Prefix, FirstFree, Good, Stands, Bind, Entered, Refusal, AllStand,
         AllInSize, Raised;
    err, now := Creat(f, name, ino, true, namlen, count, dirs.binds[x]);
    if err == OK {
      var e, wrote := dirs.Creat(x, name, ino, true, namlen, true, dirs.Blocks(x) + 2);
      InSizeAt(dirs.slots, dirs.size, x);
    }
  }
}
