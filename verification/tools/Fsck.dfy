/** The walk of cmd/sbin/fsck.c over a file system whose pointers are all in range: it rebuilds
    the allocation bitmap and counts blocks. */
module Fsck {
  import opened Bytes
  import opened Volume
  import opened FileTree
  import opened TruncTree
  import opened FsckImage
  import opened InodeImage
  import opened FsckLinks

  class Checker {
    const st: Store
    const at: Layout
    /** The rebuilt bitmap, and the links recorded and counted. */
    const bam: array<byte>
    const lcm: array<int>
    const rcm: array<int>
    /** The inodes whose block count is complained about. */
    var badCount: set<nat>
    /** The inodes whose link count is complained about. */
    var badLinks: set<nat>
    ghost var marked: set<nat>
    /** The inodes the walk has entered, and the links counted so far with where they lead. */
    ghost var visited: set<nat>
    ghost var links: map<Why, nat>

    constructor (store: Store, layout: Layout)
      requires layout.Sane()
      ensures st == store && at == layout && Valid() && marked == {} && badCount == {} && visited == {}
      ensures links == map[]
      ensures fresh(bam) && fresh(lcm) && fresh(rcm)
      ensures forall b: nat :: b < at.nblocks ==> rcm[b] == 0 && lcm[b] == 0
    {
      st, at := store, layout;
      bam := new byte[layout.nblocks](_ => 0);
      lcm := new int[layout.nblocks](_ => 0);
      rcm := new int[layout.nblocks](_ => 0);
      badCount, badLinks, marked, visited, links := {}, {}, {}, {}, map[];
      new;
      forall b: nat | b < at.nblocks ensures !BitAt(bam[..], b) {
        ZeroBits(b % 8);
      }
    }

    static lemma {:induction false} ZeroBits(k: nat)
      ensures !Bit(0, k)
    {
      if k > 0 { ZeroBits(k - 1); }
    }

    /** bam has exactly the bits of marked. */
    ghost predicate Valid()
      reads this, bam
    {
      && at.Sane()
      && bam.Length == lcm.Length == rcm.Length == at.nblocks
      && lcm != rcm
      && (forall b: nat :: b < at.nblocks ==> (BitAt(bam[..], b) <==> b in marked))
    }

    /** bused */
    method Bused(b: nat)
      requires Valid() && b < at.nblocks
      modifies this`marked, bam
      ensures Valid() && marked == old(marked) + {b}
    {
      ghost var m := bam[..];
      bam[b / 8] := PutBitByte(bam[..], b, true);
      marked := marked + {b};
      assert bam[..] == m[b / 8 := PutBitByte(m, b, true)];
      forall c: nat | c < at.nblocks ensures BitAt(bam[..], c) <==> c in marked {
        BitAtPut(m, b, true, c);
      }
    }

    /** The blocks named by the slots in s. */
    ghost function Blocks(d: Dinode, s: set<Slot>): set<nat>
      requires forall t :: t in s ==> InTree(t)
    {
      set t | t in s :: Ptr(d, st, t) as nat
    }

    /** The slots of d in use whose block has been marked, at some point of the walk over its tree. */
    ghost predicate Seen(d: Dinode, s: set<Slot>, before: set<nat>, bc: nat)
      reads this`marked
    {
      && (forall t :: t in s ==> InTree(t) && Ptr(d, st, t) != 0)
      && marked == before + Blocks(d, s)
      && bc == |s|
    }

    /** Marks one block of the tree and counts it. */
    method Note(ghost d: Dinode, ghost t: Slot, b: u32, ghost s: set<Slot>, ghost before: set<nat>, bc: nat)
      returns (bc': nat)
      requires Valid() && Seen(d, s, before, bc)
      requires InTree(t) && Ptr(d, st, t) == b != 0 && t !in s && b < at.nblocks
      modifies this`marked, bam
      ensures Valid() && Seen(d, s + {t}, before, bc')
    {
      Bused(b);
      assert Blocks(d, s + {t}) == Blocks(d, s) + {b as nat};
      bc' := bc + 1;
    }

    /** Every block number in the tree is in range. */
    ghost predicate Ranged(d: Dinode) {
      forall t: Slot :: InTree(t) && Ptr(d, st, t) != 0 ==> at.InData(Ptr(d, st, t))
    }

    /** The first n entries in use of the map block that slot t names. */
    ghost function Kids(d: Dinode, t: Slot, n: nat): set<Slot>
      requires InTree(t) && IsMap(t) && n <= WORDS
    {
      set j: nat | j < n && Ptr(d, st, Child(t, j)) != 0 :: Child(t, j)
    }

    lemma KidsNext(d: Dinode, t: Slot, n: nat)
      requires InTree(t) && IsMap(t) && n < WORDS
      ensures Kids(d, t, 0) == {}
      ensures Kids(d, t, n + 1) == if Ptr(d, st, Child(t, n)) == 0 then Kids(d, t, n) else Kids(d, t, n) + {Child(t, n)}
      ensures Child(t, n) !in Kids(d, t, n)
    {}

    /** The loop over a map block whose entries name data blocks. */
    method MarkLow(ghost d: Dinode, ghost t: Slot, m: u32, ghost s: set<Slot>, ghost before: set<nat>, bc: nat)
      returns (bc': nat)
      requires Valid() && Seen(d, s, before, bc) && Ranged(d)
      requires InTree(t) && IsMap(t) && Ptr(d, st, t) == m != 0
      requires forall j: nat :: j < WORDS ==> Child(t, j) !in s
      modifies this`marked, bam
      ensures Valid() && Seen(d, s + Kids(d, t, WORDS), before, bc')
    {
      hide Ptr, Kids, Blocks;
      var map_ := st.Block(m);
      bc' := bc;
      KidsNext(d, t, 0);
      assert s + Kids(d, t, 0) == s;
      for n := 0 to WORDS
        invariant Valid() && Seen(d, s + Kids(d, t, n), before, bc')
      {
        ChildPtr(d, st, t, n);
        KidsNext(d, t, n);
        var w := Word(map_, n);
        if w != 0 {
          bc' := Note(d, Child(t, n), w, s + Kids(d, t, n), before, bc');
          assert s + Kids(d, t, n) + {Child(t, n)} == s + Kids(d, t, n + 1);
        }
      }
    }

    /** The slots in use below the first n entries of double-indirect root r, map blocks included. */
    ghost function High(d: Dinode, r: nat, n: nat): set<Slot>
      requires ROOT2 <= r < ROOTS && n <= WORDS
    {
      set t | t in AllSlots() && t.r == r && !t.Root? && t.j < n && (AllSlotsAre(t); Ptr(d, st, t) != 0)
    }

    lemma HighNext(d: Dinode, r: nat, n: nat)
      requires ROOT2 <= r < ROOTS && n < WORDS
      ensures High(d, r, 0) == {}
      ensures High(d, r, n + 1) ==
              if Ptr(d, st, Mid(r, n)) == 0 then High(d, r, n) else High(d, r, n) + Kids(d, Mid(r, n), WORDS) + {Mid(r, n)}
      ensures Mid(r, n) !in High(d, r, n) && forall k: nat :: k < WORDS ==> Child(Mid(r, n), k) !in High(d, r, n)
    {
      forall t: Slot
        ensures t in High(d, r, n + 1) <==>
                t in High(d, r, n) || (Ptr(d, st, Mid(r, n)) != 0 && (t in Kids(d, Mid(r, n), WORDS) || t == Mid(r, n)))
      {
        AllSlotsAre(t);
        if t.Leaf? && t.r == r && t.j == n && InTree(t) {
          assert t == Child(Mid(r, n), t.k);
        }
      }
    }

    /** The slots in use of the roots below r. */
    ghost function Before(d: Dinode, r: nat): set<Slot>
      requires r <= ROOTS
    {
      set t | t in AllSlots() && t.r < r && (AllSlotsAre(t); Ptr(d, st, t) != 0)
    }

    /** The slots in use of root r. */
    ghost function OfRoot(d: Dinode, r: nat): set<Slot>
      requires r < ROOTS
    {
      if RootPtr(d, r) == 0 then {}
      else if r < ROOT1 then {Root(r)}
      else if r < ROOT2 then {Root(r)} + Kids(d, Root(r), WORDS)
      else {Root(r)} + High(d, r, WORDS)
    }

    lemma BeforeNext(d: Dinode, r: nat)
      requires r < ROOTS
      ensures Before(d, 0) == {}
      ensures Before(d, r + 1) == Before(d, r) + OfRoot(d, r)
      ensures forall t :: t in Before(d, r) ==> t.r < r
      ensures Before(d, ROOTS) == Mapped(d, st)
    {
      forall t: Slot ensures t in Before(d, r + 1) <==> t in Before(d, r) || t in OfRoot(d, r) {
        AllSlotsAre(t);
        if t.Mid? && t.r == r && r < ROOT2 && InTree(t) {
          assert t == Child(Root(r), t.j);
        }
      }
    }

    /** The slots of a double-indirect root seen before entry n of its map block. */
    ghost function SeenHigh(d: Dinode, r: nat, n: nat): set<Slot>
      requires ROOT2 <= r < ROOTS && n <= WORDS
    {
      Before(d, r) + {Root(r)} + High(d, r, n)
    }

    lemma SeenHighNext(d: Dinode, r: nat, n: nat)
      requires ROOT2 <= r < ROOTS && n < WORDS
      ensures SeenHigh(d, r, 0) == Before(d, r) + {Root(r)}
      ensures Ptr(d, st, Mid(r, n)) == 0 ==> SeenHigh(d, r, n + 1) == SeenHigh(d, r, n)
      ensures Ptr(d, st, Mid(r, n)) != 0 ==>
        SeenHigh(d, r, n + 1) == SeenHigh(d, r, n) + Kids(d, Mid(r, n), WORDS) + {Mid(r, n)}
      ensures Mid(r, n) !in SeenHigh(d, r, n) + Kids(d, Mid(r, n), WORDS)
      ensures forall k: nat :: k < WORDS ==> Child(Mid(r, n), k) !in SeenHigh(d, r, n)
    {
      HighNext(d, r, n);
      BeforeNext(d, r);
      KidsAreLeaves(d, r, n);
    }

    lemma HighWord(d: Dinode, r: nat, n: nat)
      requires Ranged(d) && ROOT2 <= r < ROOTS && RootPtr(d, r) != 0 && n < WORDS
      ensures var w := Word(st.Block(RootPtr(d, r)), n); Ptr(d, st, Mid(r, n)) == w && (w != 0 ==> w < at.nblocks)
    {}

    /** The inner loop over a double-indirect map block. */
    method MarkHigh(d: Dinode, r: nat, ghost before: set<nat>, bc: nat) returns (bc': nat)
      requires Valid() && Ranged(d) && ROOT2 <= r < ROOTS && RootPtr(d, r) != 0
      requires Seen(d, SeenHigh(d, r, 0), before, bc)
      modifies this`marked, bam
      ensures Valid() && Seen(d, SeenHigh(d, r, WORDS), before, bc')
    {
      hide Kids, Blocks, SeenHigh, Seen, Ptr, Word, BitAt, Ranged;
      var map_ := st.Block(RootPtr(d, r));
      bc' := bc;
      for n := 0 to WORDS
        invariant Valid() && Seen(d, SeenHigh(d, r, n), before, bc')
      {
        SeenHighNext(d, r, n);
        HighWord(d, r, n);
        var w := Word(map_, n);
        if w != 0 {
          bc' := MarkLow(d, Mid(r, n), w, SeenHigh(d, r, n), before, bc');
          bc' := Note(d, Mid(r, n), w, SeenHigh(d, r, n) + Kids(d, Mid(r, n), WORDS), before, bc');
        }
      }
    }

    lemma KidsAreLeaves(d: Dinode, r: nat, n: nat)
      requires ROOT2 <= r < ROOTS && n < WORDS
      ensures Mid(r, n) !in Kids(d, Mid(r, n), WORDS)
    {}

    /** The loop bodies of cinode over the three pointer arrays, for root slot r. */
    method MarkRoot(d: Dinode, r: nat, ghost before: set<nat>, bc: nat) returns (bc': nat)
      requires Valid() && Ranged(d) && r < ROOTS && Seen(d, Before(d, r), before, bc)
      modifies this`marked, bam
      ensures Valid() && Seen(d, Before(d, r + 1), before, bc')
    {
      hide Kids, Blocks, High, Before;
      bc' := bc;
      BeforeNext(d, r);
      var p := RootPtr(d, r);
      if p != 0 {
        assert Ptr(d, st, Root(r)) == p;
        bc' := Note(d, Root(r), p, Before(d, r), before, bc);
        if r >= ROOT2 {
          SeenHighNext(d, r, 0);
          bc' := MarkHigh(d, r, before, bc');
          assert SeenHigh(d, r, WORDS) == Before(d, r + 1);
        } else if r >= ROOT1 {
          bc' := MarkLow(d, Root(r), p, Before(d, r) + {Root(r)}, before, bc');
          assert Before(d, r) + {Root(r)} + Kids(d, Root(r), WORDS) == Before(d, r + 1);
        }
      } else {
        assert Before(d, r + 1) == Before(d, r);
      }
    }

    /** The block loops of cinode: they mark the whole tree of an inode, and count its blocks. */
    method MarkTree(d: Dinode) returns (bc: nat)
      requires Valid() && Ranged(d)
      modifies this`marked, bam
      ensures Valid() && bc == |Mapped(d, st)|
      ensures forall b: nat :: b in marked <==> b in old(marked) || Owns(d, st, b)
    {
      hide Before, Blocks, OfRoot;
      bc := 0;
      ghost var before := marked;
      NoBlocks(d);
      BeforeNext(d, 0);
      for r := 0 to ROOTS
        invariant Valid() && Seen(d, Before(d, r), before, bc)
      {
        bc := MarkRoot(d, r, before, bc);
      }
      BlocksAreOwned(d);
    }

    lemma NoBlocks(d: Dinode)
      ensures Blocks(d, {}) == {}
    {}

    lemma BlocksAreOwned(d: Dinode)
      ensures (forall t :: t in Mapped(d, st) ==> InTree(t)) && Before(d, ROOTS) == Mapped(d, st)
      ensures forall b: nat :: b in Blocks(d, Mapped(d, st)) <==> Owns(d, st, b)
    {
      BeforeNext(d, 0);
      forall t: Slot ensures t in AllSlots() <==> InTree(t) { AllSlotsAre(t); }
    }

    /** b is one of the inodes in vs, or belongs to one of them. */
    ghost predicate Covered(vs: set<nat>, b: nat) {
      exists v :: v in vs && (b == v || Owns(DinodeOf(st, v), st, b))
    }

    /** rcm counts the links. */
    ghost predicate Counts()
      reads this`links, rcm
      requires rcm.Length == at.nblocks
    {
      forall x: nat :: x < at.nblocks ==> rcm[x] == |Reasons(links, x)|
    }

    /** clink. */
    method Clink(x: nat, ghost why: Why)
      requires rcm.Length == at.nblocks && x < at.nblocks && why !in links && Counts()
      modifies this`links, rcm
      ensures Counts() && links == old(links)[why := x]
      ensures forall y: nat :: y < at.nblocks ==> rcm[y] == old(rcm[y]) + if y == x then 1 else 0
    {
      hide Reasons;
      ReasonsMore(links, why, x);
      links := links[why := x];
      rcm[x] := rcm[x] + 1;
    }

    /** The counters and complaints of the inodes entered so far. */
    ghost predicate Tallied()
      reads this, lcm, rcm
      requires lcm.Length == rcm.Length == at.nblocks
    {
      && (forall v :: v in visited ==> v < at.nblocks)
      && (forall x: nat :: x < at.nblocks ==> rcm[x] >= 0 && (x in visited <==> rcm[x] > 0))
      && (forall x: nat :: x < at.nblocks ==> lcm[x] == if x in visited then NlinkOf(st.Block(x)) else 0)
      && (forall v :: v in badCount <==> v in visited && DinodeOf(st, v).blocks != |Mapped(DinodeOf(st, v), st)|)
    }

    /** Where the walk stands while the directories in busy are being read: what it has entered can
        be reached, everything named by a directory read to the end has been entered, and exactly
        the reserved blocks and those of the entered inodes are marked. */
    ghost predicate Walked(root: nat, busy: set<nat>)
      reads this, bam, lcm, rcm
    {
      && Valid() && Tallied()
      && (forall v :: v in visited ==> Reach(st, root, v))
      && (forall v: nat, y: nat :: v in visited && v !in busy && Edge(st, v, y) ==> y in visited)
      && (forall b: nat :: b in marked <==> b < at.dblock || Covered(visited, b))
    }

    ghost function Unvisited(): set<nat>
      reads this`visited
    {
      set b: nat | b < at.nblocks && b !in visited
    }

    /** The block loops of cinode and its complaint about the block count. */
    method CheckBlocks(ino: nat)
      requires Valid() && NodeOk(st, at, ino)
      modifies this`marked, this`badCount, bam
      ensures Valid()
      ensures forall b: nat :: b in marked <==> b in old(marked) || Owns(DinodeOf(st, ino), st, b)
      ensures badCount == if DinodeOf(st, ino).blocks == |Mapped(DinodeOf(st, ino), st)| then old(badCount) else old(badCount) + {ino}
    {
      var di := DinodeOf(st, ino);
      var bc := MarkTree(di);
      if di.blocks != bc {
        badCount := badCount + {ino};
      }
    }

    /** The first part of cinode on an inode not entered before: its blocks and its counters. */
    method Record(ino: nat, root: nat, ghost busy: set<nat>, ghost why: Why)
      requires NodeOk(st, at, ino) && Walked(root, busy) && Counts() && Reach(st, root, ino) && ino !in visited
      requires why !in links
      modifies this`marked, this`visited, this`badCount, this`links, bam, lcm, rcm
      ensures Walked(root, busy + {ino}) && Counts() && visited == old(visited) + {ino}
      ensures links == old(links)[why := ino]
    {
      hide Reach, Edge, DinodeOf, Owns, Mapped, Covered, BitAt, Counts, NlinkOf, NodeOk, IsDir;
      RootInRange(ino);
      CoveredMore(visited, ino);
      Bused(ino);
      Tally(ino, why);
      CheckBlocks(ino);
    }

    /** The two counters of an inode entered. */
    method Tally(ino: nat, ghost why: Why)
      requires lcm.Length == rcm.Length == at.nblocks && lcm != rcm && ino < at.nblocks && Tallied() && Counts()
      requires ino !in visited && why !in links
      modifies this`visited, this`links, lcm, rcm
      ensures Counts() && visited == old(visited) + {ino} && links == old(links)[why := ino]
      ensures forall x: nat :: x < at.nblocks ==> rcm[x] >= 0 && (x in visited <==> rcm[x] > 0)
      ensures forall x: nat :: x < at.nblocks ==> lcm[x] == if x in visited then NlinkOf(st.Block(x)) else 0
    {
      hide Reach, Edge, DinodeOf, Owns, Mapped, BitAt, Counts, NlinkOf;
      Clink(ino, why);
      visited := visited + {ino};
      lcm[ino] := NlinkOf(st.Block(ino));
    }

    /** The two links counted for a directory besides its name. */
    method CountDots(dir: nat, ino: nat, root: nat, ghost busy: set<nat>)
      requires Walked(root, busy) && Counts() && ino in visited && dir in visited && Up(ino) !in links
      requires Self(ino) !in links
      modifies this`links, rcm
      ensures Walked(root, busy) && Counts() && links == old(links)[Up(ino) := dir][Self(ino) := ino]
    {
      hide Reach, Edge, DinodeOf, Owns, Mapped, Covered, BitAt, Counts;
      Clink(dir, Up(ino));
      Clink(ino, Self(ino));
    }

    /** cinode on an inode not entered before, up to where it goes on into a directory. */
    method Enter(dir: nat, ino: nat, root: nat, ghost busy: set<nat>, ghost why: Why)
      requires NodeOk(st, at, ino) && Walked(root, busy) && Counts() && Reach(st, root, ino) && ino !in visited
      requires Linked(st, root, links, visited, busy) && Fresh(st, root, links, visited, dir, ino, why)
      modifies this`marked, this`visited, this`badCount, this`links, bam, lcm, rcm
      ensures Walked(root, busy + {ino}) && Counts() && visited == old(visited) + {ino}
      ensures Linked(st, root, links, visited, busy + {ino}) && Only(busy, old(links), links, why)
      ensures forall k, i :: Entry(ino, k, i) !in links
    {
      hide Walked, Counts, Linked, Only, NodeOk, Reach;
      EnterLinks(st, root, links, visited, busy, dir, ino, why);
      Record(ino, root, busy, why);
      if IsDir(st.Block(ino)) {
        CountDots(dir, ino, root, busy + {ino});
      }
    }

    lemma CoveredMore(vs: set<nat>, ino: nat)
      ensures forall b: nat :: Covered(vs + {ino}, b) <==> Covered(vs, b) || b == ino || Owns(DinodeOf(st, ino), st, b)
    {}

    /** cinode on an inode entered before. */
    method Again(dir: nat, x: nat, root: nat, ghost busy: set<nat>, ghost why: Why)
      requires Walked(root, busy) && Counts() && x in visited
      requires Linked(st, root, links, visited, busy) && Fresh(st, root, links, visited, dir, x, why)
      modifies this`marked, this`links, bam, rcm
      ensures Walked(root, busy) && Counts()
      ensures Linked(st, root, links, visited, busy) && Only(busy, old(links), links, why)
    {
      hide Reach, Edge, DinodeOf, Owns, Mapped, Covered, BitAt, Linked, Only, Reasons;
      AgainLinks(st, root, links, visited, busy, dir, x, why);
      InOwnCover(x);
      Bused(x);
      Clink(x, why);
    }

    lemma InOwnCover(x: nat)
      ensures x in visited ==> Covered(visited, x)
    {}

    /** All entries of directory ino before entry i of its block k name inodes that have been entered. */
    ghost predicate ReadUpTo(ino: nat, k: nat, i: nat)
      reads this`visited
    {
      forall k', i' :: 0 <= k' < BMAP0_SIZE && 0 <= i' < DIRENTS && (k' < k || (k' == k && i' < i)) && Names(st, ino, k', i')
        ==> Named(st, ino, k', i') in visited
    }

    /** Where the walk stands, counters included. */
    ghost predicate Going(root: nat, busy: set<nat>)
      reads this, bam, lcm, rcm
    {
      Walked(root, busy) && Counts() && Linked(st, root, links, visited, busy) && busy <= visited
    }

    /** cinode: enters an inode named in directory dir, unless it has been entered before. */
    method Cinode(dir: nat, ino: nat, root: nat, ghost busy: set<nat>, ghost why: Why)
      requires ImageOk(st, at, root) && Going(root, busy) && Reach(st, root, ino)
      requires Fresh(st, root, links, visited, dir, ino, why) && (dir in visited || dir == ino)
      modifies this`marked, this`visited, this`badCount, this`links, bam, lcm, rcm
      ensures Going(root, busy) && old(visited) + {ino} <= visited && Only(busy, old(links), links, why)
      decreases Unvisited(), 0
    {
      hide Reach, Edge, Covered, DinodeOf, Mapped, Owns, BitAt, Linked, Only, Counts;
      assert NodeOk(st, at, ino);
      if rcm[ino] > 0 {
        Again(dir, ino, root, busy, why);
        return;
      }
      ghost var todo, was := Unvisited(), links;
      Enter(dir, ino, root, busy, why);
      assert ino in todo && Unvisited() == todo - {ino};
      ghost var mid := links;
      if IsDir(st.Block(ino)) {
        Cdir(ino, root, busy + {ino});
        OnlyJoin(busy, ino, was, mid, links, why);
      }
      AllRead(ino, root, busy);
      LinkedDone(st, root, links, visited, busy, ino);
    }

    /** A directory whose entries have all been followed need not count as busy any more. */
    lemma AllRead(ino: nat, root: nat, busy: set<nat>)
      requires Walked(root, busy + {ino})
      requires IsDir(st.Block(ino)) ==> ReadUpTo(ino, BMAP0_SIZE, 0)
      ensures Walked(root, busy)
    {
      hide Covered, Tallied, Valid;
    }

    /** cdir: the direct blocks of a directory. */
    method Cdir(ino: nat, root: nat, ghost busy: set<nat>)
      requires ImageOk(st, at, root) && Going(root, busy) && ino in busy && IsDir(st.Block(ino))
      requires forall k, i :: Entry(ino, k, i) !in links
      modifies this`marked, this`visited, this`badCount, this`links, bam, lcm, rcm
      ensures Going(root, busy) && old(visited) <= visited && ReadUpTo(ino, BMAP0_SIZE, 0)
      ensures UpTo(st, links, ino, BMAP0_SIZE, 0) && Only(busy - {ino}, old(links), links, Start)
      decreases Unvisited(), 2
    {
      hide Reach, Edge, Covered, NodeOk, Valid, Tallied, DinodeOf, Names, Named, Linked, Counts;
      var di := DinodeOf(st, ino);
      for k := 0 to BMAP0_SIZE
        invariant Going(root, busy) && old(visited) <= visited && ReadUpTo(ino, k, 0)
        invariant UpTo(st, links, ino, k, 0) && Only(busy - {ino}, old(links), links, Start)
      {
        NoEntries(ino, k);
        UpToBlock(st, links, ino, k);
        if di.bmap0[k] != 0 {
          ghost var was := links;
          Cdirb(ino, k, root, busy);
        }
      }
    }

    lemma NoEntries(ino: nat, k: nat)
      requires k < BMAP0_SIZE && ReadUpTo(ino, k, 0)
      ensures DinodeOf(st, ino).bmap0[k] == 0 ==> ReadUpTo(ino, k + 1, 0)
      ensures RootPtr(DinodeOf(st, ino), k) == DinodeOf(st, ino).bmap0[k]
    {}

    /** cdirb: the entries of one directory block. */
    method Cdirb(ino: nat, k: nat, root: nat, ghost busy: set<nat>)
      requires ImageOk(st, at, root) && Going(root, busy) && ino in busy && IsDir(st.Block(ino))
      requires k < BMAP0_SIZE && DinodeOf(st, ino).bmap0[k] != 0 && ReadUpTo(ino, k, 0) && UpTo(st, links, ino, k, 0)
      modifies this`marked, this`visited, this`badCount, this`links, bam, lcm, rcm
      ensures Going(root, busy) && old(visited) <= visited && ReadUpTo(ino, k + 1, 0)
      ensures UpTo(st, links, ino, k + 1, 0) && Only(busy - {ino}, old(links), links, Start)
      decreases Unvisited(), 1
    {
      hide Reach, Covered, NodeOk, Valid, Tallied, DinodeOf, Linked, Counts, Only, UpTo;
      var buf := st.Block(DinodeOf(st, ino).bmap0[k]);
      OnlySame(links);
      for i := 0 to DIRENTS
        invariant Going(root, busy) && old(visited) <= visited && ReadUpTo(ino, k, i)
        invariant UpTo(st, links, ino, k, i) && Only(busy - {ino}, old(links), links, Start)
      {
        EntryAt(ino, k, i);
        var x := Dino(buf, i);
        if x != 0 && !IsDots(buf, i) {
          ReachStep(st, root, ino, x);
          NotCounted(ino, k, i);
          ghost var was := links;
          Cinode(ino, x, root, busy, Entry(ino, k, i));
          UpToNext(st, was, links, busy, ino, k, i);
          OnlySteps(busy, ino, old(links), was, links, k, i);
        } else {
          UpToSkip(st, links, ino, k, i);
        }
      }
      UpToBlock(st, links, ino, k);
    }

    lemma OnlySame(links: map<Why, nat>)
      ensures forall busy :: Only(busy, links, links, Start)
    {}

    lemma NotCounted(ino: nat, k: nat, i: nat)
      requires k < BMAP0_SIZE && i < DIRENTS && UpTo(st, links, ino, k, i)
      ensures Entry(ino, k, i) !in links
    {}

    lemma EntryAt(ino: nat, k: nat, i: nat)
      requires k < BMAP0_SIZE && i < DIRENTS && IsDir(st.Block(ino)) && DinodeOf(st, ino).bmap0[k] != 0
      ensures var b := st.Block(DinodeOf(st, ino).bmap0[k]);
              && (Names(st, ino, k, i) <==> Dino(b, i) != 0 && !IsDots(b, i))
              && Named(st, ino, k, i) == Dino(b, i)
    {}

    /** The walk of fsck1 and the comparison of the link counts: exactly the reserved blocks and the
        blocks in use end up marked; an inode is complained about exactly if its block count is wrong,
        or the number of its links. */
    method Walk(root: nat)
      requires ImageOk(st, at, root) && Valid() && marked == {} && visited == {} && badCount == {} && links == map[]
      requires forall b: nat :: b < at.nblocks ==> rcm[b] == 0 && lcm[b] == 0
      modifies this`marked, this`visited, this`badCount, this`links, this`badLinks, bam, lcm, rcm
      ensures Valid()
      ensures forall b: nat :: b < at.nblocks ==> (BitAt(bam[..], b) <==> b < at.dblock || InUse(st, root, b))
      ensures forall x: nat :: x in visited <==> Reach(st, root, x)
      ensures forall x: nat :: x in badCount <==> Reach(st, root, x) && DinodeOf(st, x).blocks != |Mapped(DinodeOf(st, x), st)|
      ensures TrueLinks(st, root, links)
      ensures forall x: nat :: x < at.nblocks ==> rcm[x] == |Reasons(links, x)|
      ensures forall x: nat :: x in badLinks <==> Reach(st, root, x) && NlinkOf(st.Block(x)) != |Reasons(links, x)|
    {
      hide DinodeOf, Owns, Mapped, Edge, Reasons, Linked, TrueLinks, Fresh, Reach, InUse, Covered, BitAt, NlinkOf, NodeOk;
      ReachRoot(st, root);
      assert NodeOk(st, at, root);
      RootInRange(root);
      MarkReserved(root);
      AtStart(root);
      Cinode(root, root, root, {}, Start);
      WalkIsComplete(root);
      AllLinks(st, root, links, visited);
      Uncount(root);
      Cnlink();
    }

    lemma RootInRange(x: nat)
      requires NodeOk(st, at, x)
      ensures at.InData(x)
    {}

    lemma AtStart(root: nat)
      requires visited == {} && links == map[]
      ensures Linked(st, root, links, visited, {}) && Fresh(st, root, links, visited, root, root, Start)
    {}

    /** The start of the walk is not a link. */
    method Uncount(root: nat)
      requires rcm.Length == at.nblocks && root < at.nblocks && Counts() && Linked(st, root, links, visited, {})
      requires root in visited
      modifies this`links, rcm
      ensures Counts() && links == old(links) - {Start}
      ensures forall y: nat :: y < at.nblocks ==> rcm[y] == old(rcm[y]) - if y == root then 1 else 0
    {
      hide Reasons;
      assert Genuine(st, root, visited, Start, links[Start]);
      StartUncounted(links, root);
      links := links - {Start};
      rcm[root] := rcm[root] - 1;
    }

    /** cnlink */
    method Cnlink()
      requires lcm.Length == rcm.Length == at.nblocks
      modifies this`badLinks
      ensures forall x: nat :: x in badLinks <==> x < at.nblocks && lcm[x] != rcm[x]
    {
      badLinks := {};
      for i := 0 to at.nblocks
        invariant forall x: nat :: x in badLinks <==> x < i && lcm[x] != rcm[x]
      {
        if lcm[i] != rcm[i] {
          badLinks := badLinks + {i};
        }
      }
    }

    /** The first loop of fsck1. */
    method MarkReserved(root: nat)
      requires Valid() && marked == {} && visited == {} && badCount == {} && links == map[] && at.dblock <= at.nblocks
      requires forall b: nat :: b < at.nblocks ==> rcm[b] == 0 && lcm[b] == 0
      modifies this`marked, bam
      ensures Walked(root, {}) && Counts()
    {
      var i := 0;
      while i < at.dblock
        invariant i <= at.dblock && Valid()
        invariant forall b: nat :: b in marked <==> b < i
      {
        Bused(i);
        i := i + 1;
      }
      NoReasons();
    }

    lemma NoReasons()
      ensures forall x: nat :: |Reasons(map[], x)| == 0
    {
      forall x: nat ensures |Reasons(map[], x)| == 0 {
        assert Reasons(map[], x) == {};
      }
    }

    lemma WalkIsComplete(root: nat)
      requires Walked(root, {}) && root in visited
      ensures forall x: nat :: x in visited <==> Reach(st, root, x)
      ensures forall b: nat :: Covered(visited, b) <==> InUse(st, root, b)
    {
      forall x: nat ensures x in visited <==> Reach(st, root, x) {
        if Reach(st, root, x) {
          ClosedHoldsReach(st, root, visited, x);
        }
      }
    }
  }
}
