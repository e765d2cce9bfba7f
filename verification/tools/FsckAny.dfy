/** The walk of cmd/sbin/fsck.c over any image at all: numbers out of range are passed over, blocks that
    cannot be read leave in the buffer what happened to be there. */
module FsckAny {
  import opened Bytes
  import opened Volume
  import opened FileTree
  import opened FsckImage
  import opened InodeImage

  class AnyChecker {
    const st: Store
    const at: Layout
    /** The inode of the root directory, as the superblock has it. */
    const root: nat
    /** The blocks that can be read. */
    const readable: nat -> bool
    /** What the buffer of a directory block has in it when the block cannot be read, time after time. */
    var junk: seq<Block>
    /** The links recorded and counted. */
    const lcm: array<nat>
    const rcm: array<nat>
    /** The blocks marked in the rebuilt bitmap. */
    var marked: set<nat>

    constructor (store: Store, layout: Layout, top: nat, legible: nat -> bool, rest: seq<Block>)
      ensures st == store && at == layout && root == top && readable == legible && junk == rest && marked == {} && Shaped()
      ensures fresh(lcm) && fresh(rcm) && forall x :: 0 <= x < at.nblocks ==> rcm[x] == 0
    {
      st, at, root, readable, junk := store, layout, top, legible, rest;
      lcm := new nat[layout.nblocks](_ => 0);
      rcm := new nat[layout.nblocks](_ => 0);
      marked := {};
    }

    ghost predicate Shaped() {
      lcm.Length == rcm.Length == at.nblocks && lcm != rcm
    }

    /** The block number is used: it is there and brange lets it pass. */
    predicate Good(b: u32) { b != 0 && at.InData(b) }

    /** fsck gets to entry j of the map block of root r, and past it. */
    ghost predicate Passes(d: Dinode, r: nat, j: nat)
      requires ROOT1 <= r < ROOTS && j < WORDS
    {
      var b := Ptr(d, st, Mid(r, j));
      Good(RootPtr(d, r)) && readable(RootPtr(d, r)) && Good(b) && (r >= ROOT2 ==> readable(b))
    }

    /** fsck gets to slot s of the inode, and marks the block it finds there. */
    ghost predicate Taken(d: Dinode, s: Slot)
      requires InTree(s)
    {
      match s
      case Root(r) => Good(RootPtr(d, r))
      case Mid(r, j) => Passes(d, r, j)
      case Leaf(r, j, k) => Passes(d, r, j) && Ptr(d, st, s) != 0
    }

    /** The blocks in those slots of the roots below r are marked. */
    ghost predicate MarkedBelow(d: Dinode, r: nat, marks: set<nat>) {
      forall s: Slot :: InTree(s) && s.r < r && Taken(d, s) ==> Ptr(d, st, s) as nat in marks
    }

    /** fsck finds block b in a slot of the inode that it gets to. */
    ghost predicate Finds(d: Dinode, b: nat) {
      exists s: Slot :: InTree(s) && Taken(d, s) && Ptr(d, st, s) as nat == b
    }

    lemma FindsAt(d: Dinode, s: Slot)
      requires InTree(s) && Taken(d, s)
      ensures Finds(d, Ptr(d, st, s))
    {
    }

    /** Nothing is marked besides what was and what fsck finds in the inode. */
    ghost predicate OnlyFound(d: Dinode, was: set<nat>, marks: set<nat>) {
      was <= marks && forall b :: b in marks && b !in was ==> Finds(d, b)
    }

    /** Entry k of a map block names a block to be marked. */
    predicate Marks(m: Block, k: nat, all: bool)
      requires k < WORDS
    {
      Word(m, k) != 0 && (all || at.InData(Word(m, k)))
    }

    /** The entries below n of a map block are marked. */
    ghost predicate LowMarked(m: Block, n: nat, all: bool, marks: set<nat>)
      requires n <= WORDS
    {
      forall k: nat :: k < n && Marks(m, k, all) ==> Word(m, k) as nat in marks
    }

    /** What is below the first n entries of the double-indirect root r is marked. */
    ghost predicate HighMarked(d: Dinode, r: nat, n: nat, marks: set<nat>) {
      forall s: Slot :: InTree(s) && !s.Root? && s.r == r && s.j < n && Taken(d, s) ==> Ptr(d, st, s) as nat in marks
    }

    /** The loop over the entries of a map block whose entries name data blocks. Under a double-indirect
        block entries out of range are complained about, but marked. */
    method MarkLow(m: Block, all: bool)
      modifies this`marked
      ensures old(marked) <= marked && LowMarked(m, WORDS, all, marked)
      ensures forall b :: b in marked && b !in old(marked) ==> exists k: nat :: k < WORDS && Marks(m, k, all) && Word(m, k) as nat == b
    {
      for n := 0 to WORDS
        invariant old(marked) <= marked && LowMarked(m, n, all, marked)
        invariant forall b :: b in marked && b !in old(marked) ==> exists k: nat :: k < n && Marks(m, k, all) && Word(m, k) as nat == b
      {
        var w := Word(m, n);
        if w != 0 && (all || at.InData(w)) {
          assert Marks(m, n, all);
          marked := marked + {w};
        }
      }
    }

    /** The loop over a double-indirect block. */
    method MarkHigh(d: Dinode, r: nat)
      requires ROOT2 <= r < ROOTS && Good(RootPtr(d, r)) && readable(RootPtr(d, r))
      modifies this`marked
      ensures HighMarked(d, r, WORDS, marked) && OnlyFound(d, old(marked), marked)
    {
      hide Finds;
      var m := st.Block(RootPtr(d, r));
      for n := 0 to WORDS
        invariant HighMarked(d, r, n, marked) && OnlyFound(d, old(marked), marked)
      {
        var w := Word(m, n);
        assert Ptr(d, st, Mid(r, n)) == w;
        if Good(w) && readable(w) {
          ghost var was := marked;
          MarkLow(st.Block(w), true);
          LowFound(d, r, n, was, marked);
          FindsAt(d, Mid(r, n));
          marked := marked + {w};
          assert forall k: nat :: k < WORDS && Ptr(d, st, Leaf(r, n, k)) != 0 ==> Marks(st.Block(w), k, true);
        }
      }
    }

    /** What the entries of a readable map block name is what fsck finds below it. */
    lemma LowFound(d: Dinode, r: nat, n: nat, was: set<nat>, marks: set<nat>)
      requires ROOT2 <= r < ROOTS && n < WORDS && Passes(d, r, n)
      requires forall b :: b in marks && b !in was ==>
                 exists k: nat :: k < WORDS && Marks(st.Block(Ptr(d, st, Mid(r, n))), k, true) && Word(st.Block(Ptr(d, st, Mid(r, n))), k) as nat == b
      ensures forall b :: b in marks && b !in was ==> Finds(d, b)
      ensures forall k: nat :: k < WORDS ==> Ptr(d, st, Leaf(r, n, k)) == Word(st.Block(Ptr(d, st, Mid(r, n))), k)
    {
      var m := st.Block(Ptr(d, st, Mid(r, n)));
      forall b | b in marks && b !in was ensures Finds(d, b) {
        var k: nat :| k < WORDS && Marks(m, k, true) && Word(m, k) as nat == b;
        FindsAt(d, Leaf(r, n, k));
      }
    }

    lemma MidFound(d: Dinode, r: nat, was: set<nat>, marks: set<nat>)
      requires ROOT1 <= r < ROOT2 && Good(RootPtr(d, r)) && readable(RootPtr(d, r))
      requires forall b :: b in marks && b !in was ==>
                 exists k: nat :: k < WORDS && Marks(st.Block(RootPtr(d, r)), k, false) && Word(st.Block(RootPtr(d, r)), k) as nat == b
      ensures forall b :: b in marks && b !in was ==> Finds(d, b)
      ensures forall k: nat :: k < WORDS ==> Ptr(d, st, Mid(r, k)) == Word(st.Block(RootPtr(d, r)), k)
    {
      var m := st.Block(RootPtr(d, r));
      forall b | b in marks && b !in was ensures Finds(d, b) {
        var k: nat :| k < WORDS && Marks(m, k, false) && Word(m, k) as nat == b;
        FindsAt(d, Mid(r, k));
      }
    }

    /** The three loops of cinode over the block pointers. */
    method MarkTree(d: Dinode)
      modifies this`marked
      ensures old(marked) <= marked && MarkedBelow(d, ROOTS, marked) && OnlyFound(d, old(marked), marked)
    {
      hide Finds;
      for r := 0 to ROOTS
        invariant old(marked) <= marked && MarkedBelow(d, r, marked) && OnlyFound(d, old(marked), marked)
      {
        var p := RootPtr(d, r);
        if Good(p) {
          FindsAt(d, Root(r));
          marked := marked + {p};
          if r >= ROOT1 && readable(p) {
            if r < ROOT2 {
              ghost var was := marked;
              MarkLow(st.Block(p), false);
              MidFound(d, r, was, marked);
              assert forall k: nat :: k < WORDS && Good(Ptr(d, st, Mid(r, k))) ==> Marks(st.Block(p), k, false);
            } else {
              MarkHigh(d, r);
            }
          }
        }
      }
    }

    /** Entry i of a directory block is reached: no entry up to it has a number out of range. */
    predicate Followed(b: Block, i: nat)
      requires i < DIRENTS
    {
      && Dino(b, i) != 0 && !IsDots(b, i)
      && forall n: nat :: n <= i && Dino(b, n) != 0 ==> at.InData(Dino(b, n))
    }

    /** The entries below i of a directory block lead to inodes that have been entered. */
    ghost predicate EntriesDone(b: Block, i: nat, counts: seq<nat>)
      requires i <= DIRENTS
    {
      forall n: nat :: n < i && Followed(b, n) ==> Dino(b, n) < |counts| && counts[Dino(b, n)] > 0
    }

    ghost predicate BlockDone(p: u32, counts: seq<nat>) {
      p != 0 && readable(p) ==> EntriesDone(st.Block(p), DIRENTS, counts)
    }

    /** Everything that fsck finds in inode v has been dealt with: its blocks are marked, and the inodes that
        its entries lead to have been entered. */
    ghost predicate Done(v: nat, marks: set<nat>, counts: seq<nat>) {
      && v in marks
      && (readable(v) ==>
            && MarkedBelow(DinodeOf(st, v), ROOTS, marks)
            && (IsDir(st.Block(v)) ==> forall k: nat :: k < BMAP0_SIZE ==> BlockDone(DinodeOf(st, v).bmap0[k], counts)))
    }

    /** fsck goes from directory v to inode x. */
    ghost predicate Leads(v: nat, x: nat) {
      && readable(v) && IsDir(st.Block(v))
      && exists k: nat, i: nat :: k < BMAP0_SIZE && i < DIRENTS && EntryLeads(DinodeOf(st, v).bmap0[k], i, x)
    }

    ghost predicate EntryLeads(p: u32, i: nat, x: nat)
      requires i < DIRENTS
    {
      p != 0 && readable(p) && Followed(st.Block(p), i) && Dino(st.Block(p), i) == x
    }

    ghost predicate Trail(p: seq<nat>) {
      |p| > 0 && forall n :: 0 <= n < |p| - 1 ==> Leads(p[n], p[n + 1])
    }

    /** Inode x is gone to only because entries lead there from the root, if all blocks can be read. */
    ghost predicate Led(x: nat) {
      (forall b: nat :: readable(b)) ==> exists p: seq<nat> :: Trail(p) && p[0] == root && p[|p| - 1] == x
    }

    lemma LedOn(v: nat, x: nat)
      requires Led(v) && ((forall b: nat :: readable(b)) ==> Leads(v, x))
      ensures Led(x)
    {
      hide Leads;
      if forall b: nat :: readable(b) {
        var p: seq<nat> :| Trail(p) && p[0] == root && p[|p| - 1] == v;
        var q := p + [x];
        forall n | 0 <= n < |q| - 1 ensures Leads(q[n], q[n + 1]) {
          if n < |p| - 1 { assert Leads(p[n], p[n + 1]); }
        }
        assert Trail(q) && q[|q| - 1] == x;
      }
    }

    lemma LedRoot()
      ensures Led(root)
    {
      assert Trail([root]);
    }

    /** Block b is an inode that has been entered, or fsck finds it in one. */
    ghost predicate Sourced(b: nat, c: seq<nat>) {
      exists v: nat :: v < |c| && c[v] > 0 && SourceOf(v, b)
    }

    ghost predicate SourceOf(v: nat, b: nat) {
      b == v || (readable(v) && Finds(DinodeOf(st, v), b))
    }

    /** From m and c to m' and c' counters and marks have only grown, every inode entered on the way but
        those in busy has been dealt with, none has been entered that nothing leads to, and nothing has
        been marked that no inode has. */
    ghost predicate Onward(m: set<nat>, c: seq<nat>, m': set<nat>, c': seq<nat>, busy: set<nat>) {
      && m <= m' && |c| == |c'| && (forall x :: 0 <= x < |c| ==> c'[x] >= c[x])
      && (forall x: nat :: x < |c| && c'[x] > 0 && c[x] == 0 && x !in busy ==> Done(x, m', c'))
      && (forall x: nat :: x < |c| && c'[x] > 0 && c[x] == 0 ==> Led(x))
      && (forall b: nat :: b in m' && b !in m ==> Sourced(b, c'))
    }

    lemma SourcedStill(b: nat, c: seq<nat>, c': seq<nat>)
      requires Sourced(b, c) && |c| == |c'| && forall x :: 0 <= x < |c| ==> c'[x] >= c[x]
      ensures Sourced(b, c')
    {
    }

    lemma DoneStill(v: nat, m: set<nat>, c: seq<nat>, m': set<nat>, c': seq<nat>)
      requires Done(v, m, c) && m <= m' && |c| == |c'| && forall x :: 0 <= x < |c| ==> c'[x] >= c[x]
      ensures Done(v, m', c')
    {
    }

    lemma BlockStill(p: u32, c: seq<nat>, c': seq<nat>)
      requires |c| == |c'| && forall x :: 0 <= x < |c| ==> c'[x] >= c[x]
      ensures BlockDone(p, c) ==> BlockDone(p, c')
      ensures forall b: Block, i: nat :: i <= DIRENTS && EntriesDone(b, i, c) ==> EntriesDone(b, i, c')
    {
    }

    lemma OnwardSame(m: set<nat>, c: seq<nat>)
      ensures Onward(m, c, m, c, {})
    {
    }

    lemma OnwardBoth(m: set<nat>, c: seq<nat>, m1: set<nat>, c1: seq<nat>, m2: set<nat>, c2: seq<nat>, busy: set<nat>)
      requires Onward(m, c, m1, c1, busy) && Onward(m1, c1, m2, c2, {})
      ensures Onward(m, c, m2, c2, busy)
    {
      hide Done, Led, SourceOf;
      forall b: nat | b in m2 && b !in m ensures Sourced(b, c2) {
        if b in m1 { SourcedStill(b, c1, c2); }
      }
      forall x: nat | x < |c| && c2[x] > 0 && c[x] == 0 && x !in busy ensures Done(x, m2, c2) {
        if c1[x] > 0 { DoneStill(x, m1, c1, m2, c2); }
      }
    }

    ghost function Unentered(): set<nat>
      reads rcm
    {
      set x: nat | x < |rcm[..]| && rcm[..][x] == 0
    }

    /** rdblk into the buffer of a directory block, whose failure nobody looks at. */
    method ReadDirBlock(p: u32) returns (b: Block)
      modifies this`junk
      ensures b == if readable(p) then st.Block(p) else if old(junk) == [] then ZERO_BLOCK else old(junk)[0]
      ensures junk == if readable(p) || old(junk) == [] then old(junk) else old(junk)[1..]
    {
      if readable(p) { return st.Block(p); }
      if junk == [] { return ZERO_BLOCK; }
      b := junk[0];
      junk := junk[1..];
    }

    /** What an inode that has been entered has is marked. */
    lemma OnwardMarks(m: set<nat>, m': set<nat>, c: seq<nat>, v: nat)
      requires v < |c| && c[v] > 0 && readable(v) && OnlyFound(DinodeOf(st, v), m, m')
      ensures Onward(m, c, m', c, {})
    {
      hide Finds, Done, Led;
      forall b: nat | b in m' && b !in m ensures Sourced(b, c) {
        assert SourceOf(v, b);
      }
    }

    /** An inode is marked and counted. */
    lemma OnwardEnter(m: set<nat>, c: seq<nat>, x: nat)
      requires x < |c| && Led(x)
      ensures Onward(m, c, m + {x}, c[x := c[x] + 1], if c[x] > 0 then {} else {x})
    {
      assert SourceOf(x, x);
      assert Sourced(x, c[x := c[x] + 1]);
    }

    lemma OnwardDone(m: set<nat>, c: seq<nat>, m': set<nat>, c': seq<nat>, x: nat)
      requires Onward(m, c, m', c', {x}) && Done(x, m', c')
      ensures Onward(m, c, m', c', {})
    {
      hide Done;
    }

    lemma OnwardIs(m: set<nat>, c: seq<nat>, m': set<nat>, c': seq<nat>, busy: set<nat>)
      requires Onward(m, c, m', c', busy)
      ensures m <= m' && |c| == |c'| && forall x :: 0 <= x < |c| ==> c'[x] >= c[x]
    {
    }

    /** clink */
    method Clink(x: nat)
      requires Shaped() && x < at.nblocks
      modifies rcm
      ensures rcm[..] == old(rcm[..])[x := old(rcm[x]) + 1]
    {
      rcm[x] := rcm[x] + 1;
    }

    /** One more link for an inode that has been entered. */
    lemma OnwardLink(m: set<nat>, c: seq<nat>, m': set<nat>, c': seq<nat>, busy: set<nat>, x: nat)
      requires Onward(m, c, m', c', busy) && x < |c'| && c'[x] > 0
      ensures Onward(m, c, m', c'[x := c'[x] + 1], busy)
    {
      hide Led, SourceOf;
      var c2 := c'[x := c'[x] + 1];
      forall y: nat | y < |c| && c2[y] > 0 && c[y] == 0 && y !in busy ensures Done(y, m', c2) {
        DoneStill(y, m', c', m', c2);
      }
      forall b: nat | b in m' && b !in m ensures Sourced(b, c2) {
        SourcedStill(b, c', c2);
      }
    }

    lemma Unread(x: nat, m: set<nat>, c: seq<nat>)
      requires x in m && !readable(x)
      ensures Done(x, m, c)
    {
    }

    lemma DoneNow(x: nat, was: set<nat>, m: set<nat>, c: seq<nat>)
      requires x in m && was <= m && MarkedBelow(DinodeOf(st, x), ROOTS, was)
      requires IsDir(st.Block(x)) ==> forall k: nat :: k < BMAP0_SIZE ==> BlockDone(DinodeOf(st, x).bmap0[k], c)
      ensures Done(x, m, c)
    {
    }

    /** cinode. It ends, whatever the image is: a call that goes on has entered its inode first, and no
        inode is entered twice. */
    method Cinode(dir: nat, ino: nat)
      requires Shaped() && dir < at.nblocks && ino < at.nblocks && (rcm[dir] > 0 || dir == ino) && Led(ino)
      requires Noted(-1)
      modifies this`marked, this`junk, lcm, rcm
      ensures rcm[ino] > 0 && Onward(old(marked), old(rcm[..]), marked, rcm[..], {})
      ensures Noted(-1)
      decreases Unentered(), 0
    {
      hide Done, Onward, Led;
      ghost var todo, m, c := Unentered(), marked, rcm[..];
      marked := marked + {ino};
      Clink(ino);
      OnwardEnter(m, c, ino);
      if rcm[ino] > 1 { return; }
      assert ino in todo && Unentered() == todo - {ino};
      if readable(ino) {
        Enter(dir, ino, m, c);
      } else {
        Unread(ino, marked, rcm[..]);
      }
      OnwardDone(m, c, marked, rcm[..], ino);
    }

    /** The rest of cinode, on an inode that is entered and has been read. */
    method Enter(dir: nat, ino: nat, ghost m: set<nat>, ghost c: seq<nat>)
      requires Shaped() && dir < at.nblocks && ino < at.nblocks && rcm[dir] > 0 && rcm[ino] > 0 && ino in marked
      requires Onward(m, c, marked, rcm[..], {ino}) && readable(ino) && Led(ino)
      requires Noted(ino)
      modifies this`marked, this`junk, lcm, rcm
      ensures Onward(m, c, marked, rcm[..], {ino}) && Done(ino, marked, rcm[..]) && rcm[ino] > 0
      ensures Noted(-1)
      decreases Unentered(), 4
    {
      hide Done, Onward, DinodeOf, BlockDone, MarkedBelow, Led, OnlyFound;
      ghost var m1, c1 := marked, rcm[..];
      lcm[ino] := NlinkOf(st.Block(ino));
      MarkTree(DinodeOf(st, ino));
      OnwardMarks(m1, marked, c1, ino);
      OnwardBoth(m, c, m1, c1, marked, c1, {ino});
      ghost var m2 := marked;
      if IsDir(st.Block(ino)) {
        assert rcm[..] == c1;
        Clink(dir);
        OnwardLink(m, c, m2, c1, {ino}, dir);
        Clink(ino);
        ghost var c2 := rcm[..];
        OnwardLink(m, c, m2, c1[dir := c1[dir] + 1], {ino}, ino);
        SameUnentered(c1, c2);
        Cdir(ino);
        OnwardIs(m2, c2, marked, rcm[..], {});
        OnwardBoth(m, c, m2, c2, marked, rcm[..], {ino});
      }
      DoneNow(ino, m2, marked, rcm[..]);
    }

    /** cdir, which does not look whether the blocks are in range. */
    method Cdir(ino: nat)
      requires Shaped() && ino < at.nblocks && rcm[ino] > 0 && readable(ino) && IsDir(st.Block(ino)) && Led(ino)
      requires Noted(-1)
      modifies this`marked, this`junk, lcm, rcm
      ensures Onward(old(marked), old(rcm[..]), marked, rcm[..], {}) && rcm[ino] > 0
      ensures forall k: nat :: k < BMAP0_SIZE ==> BlockDone(DinodeOf(st, ino).bmap0[k], rcm[..])
      ensures Noted(-1)
      decreases Unentered(), 3
    {
      hide Onward, EntriesDone, DinodeOf, Led;
      var di := DinodeOf(st, ino);
      ghost var m, c := marked, rcm[..];
      OnwardSame(m, c);
      for k := 0 to BMAP0_SIZE
        invariant Onward(m, c, marked, rcm[..], {}) && rcm[ino] > 0 && Noted(-1)
        invariant forall j: nat :: j < k ==> BlockDone(di.bmap0[j], rcm[..])
      {
        if di.bmap0[k] != 0 {
          ghost var m1, c1 := marked, rcm[..];
          Narrower(m, c, m1, c1);
          Cdirb(ino, k, di.bmap0[k]);
          OnwardBoth(m, c, m1, c1, marked, rcm[..], {});
          OnwardIs(m1, c1, marked, rcm[..], {});
          forall j: nat | j < k ensures BlockDone(di.bmap0[j], rcm[..]) {
            BlockStill(di.bmap0[j], c1, rcm[..]);
          }
        }
      }
    }

    /** cdirb, which leaves the rest of the block at an entry out of range. */
    method Cdirb(dir: nat, ghost k: nat, p: u32)
      requires Shaped() && dir < at.nblocks && rcm[dir] > 0 && readable(dir) && IsDir(st.Block(dir)) && Led(dir)
      requires k < BMAP0_SIZE && p == DinodeOf(st, dir).bmap0[k] != 0
      requires Noted(-1)
      modifies this`marked, this`junk, lcm, rcm
      ensures Onward(old(marked), old(rcm[..]), marked, rcm[..], {}) && rcm[dir] > 0 && BlockDone(p, rcm[..])
      ensures Noted(-1)
      decreases Unentered(), 2
    {
      hide Onward, EntriesDone, Led, DinodeOf, IsDots, Noted;
      ghost var m, c := marked, rcm[..];
      OnwardSame(m, c);
      var buf := ReadDirBlock(p);
      NoEntries(buf, c);
      for i := 0 to DIRENTS
        invariant Noted(-1) && Onward(m, c, marked, rcm[..], {}) && rcm[dir] > 0 && EntriesDone(buf, i, rcm[..])
        invariant forall n: nat :: n < i && Dino(buf, n) != 0 ==> at.InData(Dino(buf, n))
      {
        var x := Dino(buf, i);
        if x != 0 && !at.InData(x) {
          EntriesEnd(buf, i, rcm[..]);
          return;
        }
        if x != 0 && !IsDots(buf, i) {
          assert readable(p) ==> EntryLeads(p, i, x);
          LedOn(dir, x);
          Follow(dir, x, m, c);
        }
        EntriesNext(buf, i, rcm[..]);
      }
    }

    /** The call of cinode in cdirb, with what was done before it. */
    method Follow(dir: nat, x: nat, ghost m: set<nat>, ghost c: seq<nat>)
      requires Shaped() && dir < at.nblocks && rcm[dir] > 0 && x < at.nblocks && Led(x)
      requires Noted(-1) && Onward(m, c, marked, rcm[..], {})
      modifies this`marked, this`junk, lcm, rcm
      ensures Noted(-1) && Onward(m, c, marked, rcm[..], {}) && rcm[dir] > 0 && rcm[x] > 0
      ensures forall b: Block, i: nat :: i <= DIRENTS && EntriesDone(b, i, old(rcm[..])) ==> EntriesDone(b, i, rcm[..])
      decreases (set y: nat | y < |c| && c[y] == 0), 1
    {
      hide Onward, EntriesDone, Led, DinodeOf, Noted;
      ghost var m1, c1 := marked, rcm[..];
      Narrower(m, c, m1, c1);
      Cinode(dir, x);
      OnwardBoth(m, c, m1, c1, marked, rcm[..], {});
      OnwardIs(m1, c1, marked, rcm[..], {});
      BlockStill(0, c1, rcm[..]);
    }

    lemma NoEntries(b: Block, c: seq<nat>)
      ensures EntriesDone(b, 0, c)
    {
    }

    lemma EntriesNext(b: Block, i: nat, c: seq<nat>)
      requires i < DIRENTS && EntriesDone(b, i, c)
      requires Dino(b, i) != 0 && !IsDots(b, i) ==> Dino(b, i) < |c| && c[Dino(b, i)] > 0
      ensures EntriesDone(b, i + 1, c)
    {
    }

    /** What comes after an entry out of range is not followed. */
    lemma EntriesEnd(b: Block, i: nat, c: seq<nat>)
      requires i < DIRENTS && EntriesDone(b, i, c) && Dino(b, i) != 0 && !at.InData(Dino(b, i))
      ensures EntriesDone(b, DIRENTS, c)
    {
    }

    lemma SameUnentered(c: seq<nat>, c': seq<nat>)
      requires |c| == |c'| && forall x :: 0 <= x < |c| ==> (c'[x] == 0 <==> c[x] == 0)
      ensures (set x: nat | x < |c| && c'[x] == 0) == (set x: nat | x < |c| && c[x] == 0)
    {
    }

    /** The link count of every inode entered and read, but that of x, has been noted. */
    ghost predicate Noted(x: int)
      reads lcm, rcm
    {
      && Shaped()
      && forall v: nat :: v < at.nblocks && rcm[v] > 0 && v != x && readable(v) ==> lcm[v] == NlinkOf(st.Block(v))
    }

    /** Nothing is left by having been entered. */
    lemma Narrower(m: set<nat>, c: seq<nat>, m': set<nat>, c': seq<nat>)
      requires Onward(m, c, m', c', {})
      ensures (set x: nat | x < |c'| && c'[x] == 0) <= (set x: nat | x < |c| && c[x] == 0)
    {
    }

    lemma LeadsOn(v: nat, x: nat, m: set<nat>, c: seq<nat>)
      requires Done(v, m, c) && Leads(v, x)
      ensures x < |c| && c[x] > 0
    {
      var k: nat, i: nat :| k < BMAP0_SIZE && i < DIRENTS && EntryLeads(DinodeOf(st, v).bmap0[k], i, x);
      assert BlockDone(DinodeOf(st, v).bmap0[k], c);
    }

    /** What a trail leads to has been entered if its start has. */
    lemma {:induction false} TrailEntered(p: seq<nat>, m: set<nat>, c: seq<nat>)
      requires Trail(p) && p[0] < |c| && c[p[0]] > 0
      requires forall v: nat :: v < |c| && c[v] > 0 ==> Done(v, m, c)
      ensures p[|p| - 1] < |c| && c[p[|p| - 1]] > 0
    {
      hide Done, Leads;
      if |p| > 1 {
        assert Leads(p[0], p[1]);
        LeadsOn(p[0], p[1], m, c);
        forall n | 0 <= n < |p[1..]| - 1 ensures Leads(p[1..][n], p[1..][n + 1]) {
          assert Leads(p[n + 1], p[n + 2]);
        }
        TrailEntered(p[1..], m, c);
      }
    }

    /** The walk of fsck1 ends on every image. Every inode that directory entries lead to, as far as fsck
        follows them, has been entered then, and every block that it finds for such an inode is marked:
        no block of a file that it gets to is given as free. */
    method Walk() returns (ghost entered: set<nat>)
      requires Shaped() && root < at.nblocks && marked == {} && forall x :: 0 <= x < at.nblocks ==> rcm[x] == 0
      modifies this`marked, this`junk, lcm, rcm
      ensures forall b: nat :: b < at.dblock || b in entered ==> b in marked
      ensures forall p: seq<nat> :: Trail(p) && p[0] == root ==> p[|p| - 1] in entered
      ensures forall x: nat :: x in entered ==> x < at.nblocks && Led(x)
      ensures forall v: nat :: v in entered && readable(v) ==> MarkedBelow(DinodeOf(st, v), ROOTS, marked)
      ensures forall b: nat :: b in marked ==> b < at.dblock || exists v: nat :: v in entered && SourceOf(v, b)
      ensures forall v: nat :: v in entered && readable(v) ==> lcm[v] == NlinkOf(st.Block(v))
      ensures forall x: nat :: x < at.nblocks && x != root ==> (x in entered <==> rcm[x] > 0)
    {
      hide MarkedBelow, Led, SourceOf;
      for i := 0 to at.dblock
        invariant forall b: nat :: b in marked <==> b < i
        modifies this`marked
      {
        marked := marked + {i};
      }
      ghost var m, c := marked, rcm[..];
      LedRoot();
      Cinode(root, root);
      OnwardIs(m, c, marked, rcm[..], {});
      entered := set x: nat | x < at.nblocks && rcm[x] > 0;
      forall v: nat | v < at.nblocks && rcm[v] > 0 ensures Done(v, marked, rcm[..]) {
        assert rcm[..][v] > 0 && c[v] == 0;
      }
      forall p: seq<nat> | Trail(p) && p[0] == root ensures p[|p| - 1] in entered {
        TrailEntered(p, marked, rcm[..]);
      }
      forall b: nat | b in marked && b >= at.dblock ensures exists v: nat :: v in entered && SourceOf(v, b) {
        assert Sourced(b, rcm[..]);
      }
      rcm[root] := rcm[root] - 1;
    }
  }
}
