/** What fsck reads off a device: inodes, directory entries, and which inodes and blocks
    can be reached from the root. */
module FsckImage {
  import opened Bytes
  import opened Volume
  import opened FileTree
  import opened InodeImage

  const DIRENTS := 16  // directory entries in a block, of 32 bytes each

  /** The inode number in directory entry i. */
  function Dino(b: Block, i: nat): u32
    requires i < DIRENTS
  {
    Word(b, 8 * i)
  }

  /** The name in entry i is "." or "..". */
  predicate IsDots(b: Block, i: nat)
    requires i < DIRENTS
  {
    var dot: byte := 46;
    b[32 * i + 4] == dot && (b[32 * i + 5] == 0 || (b[32 * i + 5] == dot && b[32 * i + 6] == 0))
  }

  /** Entry i of the k-th direct block of directory ino is one that fsck goes into. */
  predicate Names(st: Store, ino: nat, k: nat, i: nat)
    requires k < BMAP0_SIZE && i < DIRENTS
  {
    && IsDir(st.Block(ino))
    && var p := RootPtr(DinodeOf(st, ino), k);
       p != 0 && Dino(st.Block(p), i) != 0 && !IsDots(st.Block(p), i)
  }

  function Named(st: Store, ino: nat, k: nat, i: nat): u32
    requires k < BMAP0_SIZE && i < DIRENTS
  {
    Dino(st.Block(RootPtr(DinodeOf(st, ino), k)), i)
  }

  /** Directory v has an entry for x. */
  ghost predicate Edge(st: Store, v: nat, x: nat) {
    exists k: nat, i: nat :: k < BMAP0_SIZE && i < DIRENTS && Names(st, v, k, i) && Named(st, v, k, i) == x
  }

  /** p leads from its first inode to its last through directory entries. */
  ghost predicate Path(st: Store, p: seq<nat>) {
    |p| > 0 && forall n :: 0 <= n < |p| - 1 ==> Edge(st, p[n], p[n + 1])
  }

  ghost predicate Reach(st: Store, root: nat, x: nat) {
    exists p: seq<nat> :: Path(st, p) && p[0] == root && p[|p| - 1] == x
  }

  lemma ReachRoot(st: Store, root: nat)
    ensures Reach(st, root, root)
  {
    assert Path(st, [root]);
  }

  lemma ReachStep(st: Store, root: nat, v: nat, x: nat)
    requires Reach(st, root, v) && Edge(st, v, x)
    ensures Reach(st, root, x)
  {
    var p: seq<nat> :| Path(st, p) && p[0] == root && p[|p| - 1] == v;
    var q := p + [x];
    assert Path(st, q) by {
      forall n | 0 <= n < |q| - 1 ensures Edge(st, q[n], q[n + 1]) {
        if n < |p| - 1 {
          assert Edge(st, p[n], p[n + 1]);
        }
      }
    }
    assert q[|q| - 1] == x;
  }

  /** A set that holds the root and everything its members name holds all that can be reached. */
  lemma ClosedHoldsReach(st: Store, root: nat, s: set<nat>, x: nat)
    requires root in s && Reach(st, root, x)
    requires forall v: nat, y: nat :: v in s && Edge(st, v, y) ==> y in s
    ensures x in s
  {
    var p: seq<nat> :| Path(st, p) && p[0] == root && p[|p| - 1] == x;
    PathStaysIn(st, p, s);
  }

  lemma {:induction false} PathStaysIn(st: Store, p: seq<nat>, s: set<nat>)
    requires Path(st, p) && p[0] in s
    requires forall v: nat, y: nat :: v in s && Edge(st, v, y) ==> y in s
    ensures p[|p| - 1] in s
  {
    if |p| > 1 {
      assert Edge(st, p[0], p[1]);
      forall n | 0 <= n < |p[1..]| - 1 ensures Edge(st, p[1..][n], p[1..][n + 1]) {
        assert Edge(st, p[n + 1], p[n + 2]);
      }
      PathStaysIn(st, p[1..], s);
    }
  }

  /** All block and inode numbers that fsck finds in inode x are in the data area. */
  ghost predicate NodeOk(st: Store, at: Layout, x: nat) {
    && at.InData(x)
    && (forall s: Slot :: InTree(s) && Ptr(DinodeOf(st, x), st, s) != 0 ==> at.InData(Ptr(DinodeOf(st, x), st, s)))
    && (IsDir(st.Block(x)) ==>
          forall k: nat, i: nat :: k < BMAP0_SIZE && i < DIRENTS && RootPtr(DinodeOf(st, x), k) != 0 && Named(st, x, k, i) != 0
            ==> at.InData(Named(st, x, k, i)))
  }

  ghost predicate ImageOk(st: Store, at: Layout, root: nat) {
    forall x: nat :: Reach(st, root, x) ==> NodeOk(st, at, x)
  }

  /** Block b is a reachable inode, or a data or map block of one. */
  ghost predicate InUse(st: Store, root: nat, b: nat) {
    exists x: nat :: Reach(st, root, x) && (b == x || Owns(DinodeOf(st, x), st, b))
  }
}
