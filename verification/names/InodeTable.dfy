/** The table of inodes in use, kern/fs/inode.c, and the allocation of inodes, kern/fs/alloc.c. */
module InodeTable {
  import opened Dir
  import opened Errors

  const MAXINODES := 200

  /** The fields of an inode that count here; the blocks of directories are kept in Dirs. */
  datatype Dnode = Dnode(isDir: bool, nlink: nat)

  datatype Slot = Slot(refcnt: nat, ino: nat, dirty: nat, d: Dnode)

  /** An inode block as alloc_blk leaves it. */
  const ZERO := Dnode(false, 0)

  ghost predicate Holds(table: seq<Slot>, i: nat, x: nat)
    requires i < |table|
  {
    table[i].refcnt > 0 && table[i].ino == x
  }

  /** A slot in use has what its inode is, and so has the disk unless the slot is dirty. */
  ghost predicate Exact(s: Slot, disk: map<nat, Dnode>, nodes: map<nat, Dnode>, refs: map<nat, nat>) {
    if s.refcnt == 0 then s.dirty == 0 else
      && s.ino in nodes && s.ino in refs && nodes[s.ino] == s.d && refs[s.ino] == s.refcnt
      && (s.dirty == 0 ==> s.ino in disk && disk[s.ino] == s.d)
  }

  ghost predicate AllExact(table: seq<Slot>, disk: map<nat, Dnode>, nodes: map<nat, Dnode>, refs: map<nat, nat>) {
    forall i :: 0 <= i < |table| ==> Exact(table[i], disk, nodes, refs)
  }

  ghost predicate OnceEach(table: seq<Slot>) {
    forall i, j :: 0 <= i < j < |table| && table[i].refcnt > 0 && table[j].refcnt > 0 ==> table[i].ino != table[j].ino
  }

  /** What the table does not have is on the disk. */
  ghost predicate RestOnDisk(disk: map<nat, Dnode>, nodes: map<nat, Dnode>, refs: map<nat, nat>) {
    nodes.Keys == refs.Keys && nodes.Keys <= disk.Keys && forall x :: x in nodes && refs[x] == 0 ==> disk[x] == nodes[x]
  }

  ghost predicate AllHeld(table: seq<Slot>, refs: map<nat, nat>) {
    forall x :: x in refs && refs[x] > 0 ==> exists i :: 0 <= i < |table| && Holds(table, i, x)
  }

  /** The table and the disk together hold the inodes: each at most once in the table, with its
      references, and on the disk whenever the table does not have a newer one. */
  ghost predicate Coherent(table: seq<Slot>, disk: map<nat, Dnode>, nodes: map<nat, Dnode>, refs: map<nat, nat>) {
    AllExact(table, disk, nodes, refs) && OnceEach(table) && RestOnDisk(disk, nodes, refs) && AllHeld(table, refs)
  }

  /** The inodes with references. */
  function Active(refs: map<nat, nat>): set<nat> {
    set x | x in refs && refs[x] > 0
  }

  /** There is no room in the table for as many more inodes. */
  ghost predicate Crowded(refs: map<nat, nat>, more: nat) {
    |Active(refs)| + more >= MAXINODES
  }

  ghost predicate AllTaken(table: seq<Slot>) {
    forall i :: 0 <= i < |table| ==> table[i].refcnt > 0
  }

  /** A table without a free entry holds that many inodes. */
  lemma TakenIsCrowded(table: seq<Slot>, disk: map<nat, Dnode>, nodes: map<nat, Dnode>, refs: map<nat, nat>)
    requires Coherent(table, disk, nodes, refs) && AllTaken(table) && |table| == MAXINODES
    ensures Crowded(refs, 0)
  {
    assert forall i :: 0 <= i < |table| ==> Exact(table[i], disk, nodes, refs);
    InosBelow(table, |table|, Active(refs));
  }

  lemma {:induction false} InosBelow(table: seq<Slot>, n: nat, s: set<nat>)
    requires n <= |table| && OnceEach(table) && AllTaken(table)
    requires forall i :: 0 <= i < n ==> table[i].ino in s
    ensures |s| >= n
  {
    if n > 0 {
      InosBelow(table, n - 1, s - {table[n - 1].ino});
    }
  }

  /** One reference more takes at most one entry more. */
  lemma CrowdedMore(refs: map<nat, nat>, x: nat, more: nat)
    requires x in refs && Crowded(More(refs, x), more)
    ensures Crowded(refs, more + 1)
  {
    assert Active(More(refs, x)) == Active(refs) + {x};
  }

  lemma CrowdedFresh(refs: map<nat, nat>, x: nat)
    requires x !in refs && Crowded(refs[x := 0], 0)
    ensures Crowded(refs, 0)
  {
    assert Active(refs[x := 0]) == Active(refs);
  }

  function More(refs: map<nat, nat>, x: nat): (m: map<nat, nat>)
    requires x in refs
    ensures m.Keys == refs.Keys
  {
    refs[x := refs[x] + 1]
  }

  /** The inodes, and the references to them, after a reference to x has been given up. */
  function PutNodes<N>(nodes: map<nat, N>, nlink: nat, refs: map<nat, nat>, x: nat): map<nat, N>
    requires x in refs
  {
    if refs[x] <= 1 && nlink == 0 then nodes - {x} else nodes
  }

  function PutRefs(nlink: nat, refs: map<nat, nat>, x: nat): map<nat, nat>
    requires x in refs && refs[x] > 0
  {
    if refs[x] == 1 && nlink == 0 then refs - {x} else refs[x := refs[x] - 1]
  }

  ghost predicate SameElse(was: seq<Slot>, now: seq<Slot>, i: nat) {
    |now| == |was| && forall j :: 0 <= j < |was| && j != i ==> now[j] == was[j]
  }

  lemma SameKeys(table: seq<Slot>, disk: map<nat, Dnode>, nodes: map<nat, Dnode>, refs: map<nat, nat>)
    requires Coherent(table, disk, nodes, refs)
    ensures nodes.Keys == refs.Keys
  {
  }

  lemma BindsKeys(dirs: Dirs)
    requires dirs.Valid()
    ensures dirs.binds.Keys == dirs.slots.Keys == dirs.size.Keys
  {
  }

  lemma NotHeld(table: seq<Slot>, disk: map<nat, Dnode>, nodes: map<nat, Dnode>, refs: map<nat, nat>, x: nat)
    requires Coherent(table, disk, nodes, refs) && x in nodes
    requires forall i :: 0 <= i < |table| ==> !Holds(table, i, x)
    ensures refs[x] == 0 && x in disk && disk[x] == nodes[x]
  {
  }

  lemma OnDisk(table: seq<Slot>, disk: map<nat, Dnode>, nodes: map<nat, Dnode>, refs: map<nat, nat>)
    requires Coherent(table, disk, nodes, refs)
    ensures nodes.Keys <= disk.Keys
  {
  }

  lemma HeldStill(table: seq<Slot>, table': seq<Slot>, refs: map<nat, nat>, refs': map<nat, nat>, i: nat, x: nat)
    requires AllHeld(table, refs) && i < |table| && SameElse(table, table', i) && table'[i].ino == x
    requires table[i].refcnt > 0 ==> table[i].ino == x
    requires forall y :: y in refs' && refs'[y] > 0 ==> (y == x && table'[i].refcnt > 0) || (y != x && y in refs && refs[y] > 0)
    ensures AllHeld(table', refs')
  {
    forall y | y in refs' && refs'[y] > 0 ensures exists j :: 0 <= j < |table'| && Holds(table', j, y) {
      if y == x {
        assert Holds(table', i, x);
      } else {
        var j :| 0 <= j < |table| && Holds(table, j, y);
        assert Holds(table', j, y);
      }
    }
  }

  lemma CoherentMore(table: seq<Slot>, disk: map<nat, Dnode>, nodes: map<nat, Dnode>, refs: map<nat, nat>, i: nat,
                     x: nat)
    requires Coherent(table, disk, nodes, refs) && i < |table| && Holds(table, i, x)
    ensures x in refs && Coherent(table[i := table[i].(refcnt := table[i].refcnt + 1)], disk, nodes, More(refs, x))
  {
    hide AllHeld;
    assert Exact(table[i], disk, nodes, refs);
    HeldStill(table, table[i := table[i].(refcnt := table[i].refcnt + 1)], refs, More(refs, x), i, x);
  }

  lemma CoherentFilled(table: seq<Slot>, disk: map<nat, Dnode>, nodes: map<nat, Dnode>, refs: map<nat, nat>, i: nat,
                       x: nat)
    requires Coherent(table, disk, nodes, refs) && i < |table| && table[i].refcnt == 0 && x in nodes && refs[x] == 0
    ensures x in disk && Coherent(table[i := Slot(1, x, 0, disk[x])], disk, nodes, More(refs, x))
  {
    hide AllHeld;
    HeldStill(table, table[i := Slot(1, x, 0, disk[x])], refs, More(refs, x), i, x);
  }

  /** Whoever holds an entry of the table still does. */
  ghost predicate StillHeld(was: seq<Slot>, now: seq<Slot>) {
    |now| == |was| && forall i, x :: 0 <= i < |was| && Holds(was, i, x) ==> Holds(now, i, x)
  }

  ghost predicate HeldBut(was: seq<Slot>, now: seq<Slot>, i: nat)
    requires i < |was|
  {
    |now| == |was| && forall j, x ::
      0 <= j < |was| && Holds(was, j, x) && (j != i || was[i].refcnt > 1) ==> Holds(now, j, x) && now[j].dirty == was[j].dirty
  }

  /** No entry in use has become dirty, or clean. */
  ghost predicate SameDirt(was: seq<Slot>, now: seq<Slot>) {
    |now| == |was| && forall i :: 0 <= i < |was| && was[i].refcnt > 0 ==> now[i].dirty == was[i].dirty
  }

  lemma HeldSelf(table: seq<Slot>)
    ensures StillHeld(table, table) && SameDirt(table, table)
  {
  }

  lemma HeldThrough(was: seq<Slot>, mid: seq<Slot>, now: seq<Slot>)
    requires StillHeld(was, mid)
    ensures StillHeld(mid, mid) && (StillHeld(mid, now) ==> StillHeld(was, now))
  {
  }

  lemma StillAt(was: seq<Slot>, now: seq<Slot>, i: nat, x: nat)
    requires i < |was| && Holds(was, i, x) && StillHeld(was, now)
    ensures |now| == |was| && Holds(now, i, x)
  {
  }

  lemma OthersHeld(was: seq<Slot>, now: seq<Slot>, i: nat)
    requires i < |was| && was[i].refcnt <= 1 && SameElse(was, now, i)
    ensures HeldBut(was, now, i)
  {
  }

  /** An inode that changes in the table is dirty from then on. */
  lemma CoherentSet(table: seq<Slot>, disk: map<nat, Dnode>, nodes: map<nat, Dnode>, refs: map<nat, nat>, i: nat,
                    d: Dnode, dirty: nat)
    requires Coherent(table, disk, nodes, refs) && i < |table| && table[i].refcnt > 0 && dirty > 0
    ensures Coherent(table[i := table[i].(d := d, dirty := dirty)], disk, nodes[table[i].ino := d], refs)
  {
    hide AllHeld;
    assert Exact(table[i], disk, nodes, refs);
    HeldStill(table, table[i := table[i].(d := d, dirty := dirty)], refs, refs, i, table[i].ino);
  }

  /** An entry in use can be flagged at any time, and a free one can have any contents. */
  lemma CoherentDirty(table: seq<Slot>, disk: map<nat, Dnode>, nodes: map<nat, Dnode>, refs: map<nat, nat>, i: nat,
                      dirty: nat)
    requires Coherent(table, disk, nodes, refs) && i < |table| && table[i].refcnt > 0 && dirty > 0
    ensures Coherent(table[i := table[i].(dirty := dirty)], disk, nodes, refs)
  {
    hide AllHeld;
    assert Exact(table[i], disk, nodes, refs);
    HeldStill(table, table[i := table[i].(dirty := dirty)], refs, refs, i, table[i].ino);
  }

  lemma CoherentIdle(table: seq<Slot>, disk: map<nat, Dnode>, nodes: map<nat, Dnode>, refs: map<nat, nat>, i: nat,
                     x: nat)
    requires Coherent(table, disk, nodes, refs) && i < |table| && table[i].refcnt == 0 && x in refs && refs[x] == 0
    ensures Coherent(table[i := Slot(0, x, 0, table[i].d)], disk, nodes, refs)
  {
    hide AllHeld;
    HeldStill(table, table[i := Slot(0, x, 0, table[i].d)], refs, refs, i, x);
  }

  /** The last reference goes and the entry cannot be written: the inode is as on the disk again. */
  lemma CoherentLost(table: seq<Slot>, disk: map<nat, Dnode>, nodes: map<nat, Dnode>, refs: map<nat, nat>, i: nat)
    requires Coherent(table, disk, nodes, refs) && i < |table| && table[i].refcnt == 1
    ensures var x := table[i].ino;
            x in disk && Coherent(table[i := Slot(0, x, 0, table[i].d)], disk, nodes[x := disk[x]], refs[x := 0])
  {
    hide AllHeld;
    var s := table[i];
    var table' := table[i := Slot(0, s.ino, 0, s.d)];
    assert Exact(s, disk, nodes, refs);
    assert forall j :: 0 <= j < |table'| ==> Exact(table[j], disk, nodes, refs) && (j != i ==> table'[j] == table[j]);
    HeldStill(table, table', refs, refs[s.ino := 0], i, s.ino);
  }

  lemma HeldMore(table: seq<Slot>, refs: map<nat, nat>, x: nat)
    requires AllHeld(table, refs) && x !in refs
    ensures AllHeld(table, refs[x := 0])
  {
  }

  /** A new inode in a free block that has been cleared. */
  lemma CoherentAlloc(table: seq<Slot>, disk: map<nat, Dnode>, nodes: map<nat, Dnode>, refs: map<nat, nat>, x: nat)
    requires Coherent(table, disk, nodes, refs) && x !in nodes
    ensures Coherent(table, disk[x := ZERO], nodes[x := ZERO], refs[x := 0])
  {
    hide AllHeld;
    HeldMore(table, refs, x);
    assert forall i :: 0 <= i < |table| ==> Exact(table[i], disk, nodes, refs);
  }

  lemma CoherentGone(table: seq<Slot>, disk: map<nat, Dnode>, nodes: map<nat, Dnode>, refs: map<nat, nat>, x: nat)
    requires Coherent(table, disk, nodes, refs) && x in nodes && refs[x] == 0
    ensures Coherent(table, disk, nodes - {x}, refs - {x})
  {
    assert forall i :: 0 <= i < |table| ==> Exact(table[i], disk, nodes, refs);
  }

  /** The last reference to an inode without links. It is written once more, to a block now free. */
  lemma CoherentFree(table: seq<Slot>, disk: map<nat, Dnode>, nodes: map<nat, Dnode>, refs: map<nat, nat>, i: nat,
                     d: Dnode)
    requires Coherent(table, disk, nodes, refs) && i < |table| && table[i].refcnt == 1
    ensures var x := table[i].ino;
            Coherent(table[i := Slot(0, x, 0, table[i].d)], disk[x := d], nodes - {x}, refs - {x})
  {
    hide AllHeld;
    var s := table[i];
    var table' := table[i := Slot(0, s.ino, 0, s.d)];
    assert Exact(s, disk, nodes, refs);
    assert forall j :: 0 <= j < |table'| ==> Exact(table[j], disk, nodes, refs) && (j != i ==> table'[j] == table[j]);
    HeldStill(table, table', refs, refs - {s.ino}, i, s.ino);
  }

  lemma Undone<V>(m: map<nat, V>, x: nat, v: V)
    requires x !in m
    ensures m[x := v] - {x} == m
  {
  }

  lemma HeldNode(table: seq<Slot>, disk: map<nat, Dnode>, nodes: map<nat, Dnode>, refs: map<nat, nat>, i: nat)
    requires Coherent(table, disk, nodes, refs) && i < |table| && table[i].refcnt > 0
    ensures var s := table[i]; s.ino in nodes && s.ino in refs && nodes[s.ino] == s.d && refs[s.ino] == s.refcnt
  {
    assert Exact(table[i], disk, nodes, refs);
  }

  /** Writing an inode of the table to the disk. */
  lemma CoherentWrite(table: seq<Slot>, disk: map<nat, Dnode>, nodes: map<nat, Dnode>, refs: map<nat, nat>, i: nat)
    requires Coherent(table, disk, nodes, refs) && i < |table| && table[i].refcnt > 0
    ensures Coherent(table[i := table[i].(dirty := 0)], disk[table[i].ino := table[i].d], nodes, refs)
  {
    hide AllHeld;
    assert Exact(table[i], disk, nodes, refs);
    HeldStill(table, table[i := table[i].(dirty := 0)], refs, refs, i, table[i].ino);
  }

  lemma CleanOnDisk(table: seq<Slot>, disk: map<nat, Dnode>, nodes: map<nat, Dnode>, refs: map<nat, nat>)
    requires Coherent(table, disk, nodes, refs) && forall i :: 0 <= i < |table| ==> table[i].dirty == 0
    ensures forall x :: x in nodes ==> x in disk && disk[x] == nodes[x]
  {
    forall x | x in nodes ensures x in disk && disk[x] == nodes[x] {
      if refs[x] > 0 {
        var i :| 0 <= i < |table| && Holds(table, i, x);
        assert Exact(table[i], disk, nodes, refs);
      }
    }
  }

  lemma CleanWhenFree(table: seq<Slot>, disk: map<nat, Dnode>, nodes: map<nat, Dnode>, refs: map<nat, nat>, i: nat)
    requires Coherent(table, disk, nodes, refs) && i < |table|
    ensures table[i].refcnt == 0 ==> table[i].dirty == 0
  {
    assert Exact(table[i], disk, nodes, refs);
  }

  lemma OneSlot(table: seq<Slot>, disk: map<nat, Dnode>, nodes: map<nat, Dnode>, refs: map<nat, nat>, i: nat, j: nat)
    requires Coherent(table, disk, nodes, refs) && i < |table| && j < |table|
    requires table[i].refcnt > 0 && table[j].refcnt > 0
    ensures table[i].ino == table[j].ino <==> i == j
  {
  }

  /** The last reference goes: what is in the entry goes to the disk if it is newer. */
  lemma CoherentPut(table: seq<Slot>, disk: map<nat, Dnode>, nodes: map<nat, Dnode>, refs: map<nat, nat>, i: nat)
    requires Coherent(table, disk, nodes, refs) && i < |table| && table[i].refcnt > 0
    ensures var s := table[i];
            && s.ino in refs && s.ino in nodes && nodes[s.ino] == s.d && refs[s.ino] == s.refcnt
            && Coherent(table[i := s.(refcnt := s.refcnt - 1, dirty := if s.refcnt == 1 then 0 else s.dirty)],
                        if s.refcnt == 1 && s.dirty > 0 then disk[s.ino := s.d] else disk, nodes, refs[s.ino := s.refcnt - 1])
  {
    hide AllHeld;
    var s := table[i];
    assert Exact(s, disk, nodes, refs);
    HeldStill(table, table[i := s.(refcnt := s.refcnt - 1, dirty := if s.refcnt == 1 then 0 else s.dirty)], refs,
              refs[s.ino := s.refcnt - 1], i, s.ino);
  }

  function NoRefs(image: map<nat, Dnode>): map<nat, nat> {
    map x | x in image :: 0
  }

  /** The part of the state that has to do with the buffer cache; Icore has the fields. */
  datatype Luck = Luck(answers: seq<nat>, misses: nat, lost: bool)

  /** Each request to come gets a buffer at least. */
  ghost predicate Ample(answers: seq<nat>) {
    forall k :: 0 <= k < |answers| ==> answers[k] > 0
  }

  /** From a to b numbers have been used up, a buffer was missed no more often than that, and a change
      was lost only if a buffer was missed, and not if each request was to get one at least. */
  ghost predicate Follows(a: Luck, b: Luck) {
    && |b.answers| <= |a.answers| && a.misses <= b.misses && b.misses + |b.answers| <= a.misses + |a.answers|
    && (a.lost ==> b.lost) && (b.lost && !a.lost ==> b.misses > a.misses)
    && (Ample(a.answers) ==> Ample(b.answers) && b.lost == a.lost)
  }

  lemma FollowsSame(a: Luck)
    ensures Follows(a, a)
  {
  }

  lemma FollowsBoth(a: Luck, b: Luck, c: Luck)
    requires Follows(a, b) && Follows(b, c)
    ensures Follows(a, c) && a.misses <= b.misses <= c.misses && (b.lost ==> c.lost)
  {
  }

  lemma FollowsAmple(a: Luck, b: Luck)
    requires Follows(a, b) && Ample(a.answers)
    ensures b.lost == a.lost
  {
  }

  /** With numbers that leave out no buffer, nothing is missed and nothing is lost. */
  lemma FollowsNone(a: Luck, b: Luck)
    requires Follows(a, b) && a.answers == []
    ensures b == a
  {
    assert Ample(a.answers);
  }

  class Icore {
    const table: array<Slot>
    const dirs: Dirs
    var disk: map<nat, Dnode>
    /** The inode blocks that the bitmap has as taken. */
    var used: set<nat>
    /** What the buffer cache will answer: for each scan, read or write to come, how many buffers it
        can have before one cannot be had. When the numbers run out there are enough. */
    var answers: seq<nat>
    /** Whether the last reference to an inode went while its block could not be written. */
    var lost: bool
    /** What the inodes are, how many references there are to each, and how many requests were to get
        fewer buffers than they can need. */
    ghost var nodes: map<nat, Dnode>
    ghost var refs: map<nat, nat>
    ghost var misses: nat

    /** An empty table over the inodes of a disk. */
    constructor (image: map<nat, Dnode>, contents: Dirs)
      requires contents.Valid() && contents.slots.Keys == image.Keys && 0 !in image
      ensures Valid() && table.Length == MAXINODES && fresh(table) && dirs == contents && nodes == image
      ensures used == image.Keys && disk == image
      ensures refs == NoRefs(image) && answers == [] && !lost
      ensures forall i :: 0 <= i < MAXINODES ==> table[i].refcnt == 0
    {
      table := new Slot[MAXINODES](i => Slot(0, 0, 0, ZERO));
      dirs, disk, used, nodes := contents, image, image.Keys, image;
      refs := NoRefs(image);
      answers, lost, misses := [], false, 0;
    }

    ghost predicate Valid()
      reads this, table, dirs
    {
      && table.Length == MAXINODES && dirs.Valid() && nodes.Keys == used == dirs.slots.Keys && 0 !in used
      && Coherent(table[..], disk, nodes, refs)
    }

    method Supply(numbers: seq<nat>)
      requires Valid()
      modifies this`answers
      ensures Valid() && answers == numbers
    {
      answers := numbers;
    }

    ghost function Buffers(): Luck
      reads this`answers, this`misses, this`lost
    {
      Luck(answers, misses, lost)
    }

    /** The next request will get fewer buffers than that. */
    ghost predicate Scarce(need: nat)
      reads this`answers
    {
      answers != [] && answers[0] < need
    }

    /** The last reference to the inode in entry i would go with a change that cannot be written. */
    ghost predicate WouldLose(i: nat)
      requires i < table.Length
      reads this`answers, table
    {
      table[i].refcnt == 1 && table[i].d.nlink > 0 && table[i].dirty > 0 && Scarce(1)
    }

    /** How many buffers the next request can have, of the number it can need. */
    method Ask(need: nat) returns (good: nat)
      modifies this`answers, this`misses
      ensures good == if old(answers) == [] then need else old(answers)[0]
      ensures Follows(old(Buffers()), Buffers()) && (misses > old(misses) <==> good < need)
      ensures good < need <==> old(Scarce(need))
    {
      if answers == [] { return need; }
      good := answers[0];
      answers := answers[1..];
      if good < need { misses := misses + 1; }
    }

    /** The loop of inode_get. */
    method Lookup(x: nat) returns (hit: bool, i: nat)
      requires table.Length == MAXINODES
      ensures i <= MAXINODES && (hit ==> i < MAXINODES && Holds(table[..], i, x))
      ensures !hit ==> forall j :: 0 <= j < MAXINODES ==> !Holds(table[..], j, x)
      ensures !hit ==> if i < MAXINODES then table[i].refcnt == 0 else forall j :: 0 <= j < MAXINODES ==> table[j].refcnt > 0
    {
      i := MAXINODES;
      var j: nat := 0;
      while j < MAXINODES
        invariant j <= MAXINODES && i <= MAXINODES
        invariant forall k :: 0 <= k < j ==> !Holds(table[..], k, x)
        invariant if i < MAXINODES then table[i].refcnt == 0 else forall k :: 0 <= k < j ==> table[k].refcnt > 0
      {
        if table[j].refcnt > 0 && table[j].ino == x { return true, j; }
        if table[j].refcnt == 0 { i := j; }
        j := j + 1;
      }
      hit := false;
    }

    /** One more reference to an inode that is held. */
    method Ref(i: nat)
      requires Valid() && i < MAXINODES && table[i].refcnt > 0
      modifies this`refs, table
      ensures Valid() && old(table[i]).ino in old(refs) && refs == More(old(refs), old(table[i]).ino)
      ensures StillHeld(old(table[..]), table[..]) && SameDirt(old(table[..]), table[..])
    {
      hide Coherent, Dirs.Valid;
      CoherentMore(table[..], disk, nodes, refs, i, table[i].ino);
      refs := More(refs, table[i].ino);
      table[i] := table[i].(refcnt := table[i].refcnt + 1);
      assert table[..] == old(table[..])[i := table[i]];
    }

    /** inode_get: the entry that has the inode, or else the last entry that is free. */
    method Get(x: nat) returns (err: Err, i: nat)
      requires Valid() && x in used
      modifies this`refs, this`answers, this`misses, table
      ensures Valid() && Follows(old(Buffers()), Buffers())
      ensures err == OK || (err == ENOMEM && refs == old(refs))
      ensures x in old(refs) && (err == ENOMEM <==> old(refs)[x] == 0 && (AllTaken(old(table[..])) || old(Scarce(1))))
      ensures err == ENOMEM ==> Crowded(refs, 0) || misses > old(misses)
      ensures err == OK ==> i < MAXINODES && Holds(table[..], i, x) && refs == More(old(refs), x)
      ensures err == OK && old(refs)[x] == 0 ==> table[i].dirty == 0
      ensures StillHeld(old(table[..]), table[..]) && SameDirt(old(table[..]), table[..])
    {
      hide Coherent, More, Dirs.Valid, Follows, StillHeld, SameDirt;
      FollowsSame(Buffers());
      HeldSelf(table[..]);
      SameKeys(table[..], disk, nodes, refs);
      var hit;
      hit, i := Lookup(x);
      if hit {
        HeldNode(table[..], disk, nodes, refs, i);
        assert Holds(old(table[..]), i, x);
        Ref(i);
        StillAt(old(table[..]), table[..], i, x);
        return OK, i;
      }
      NotHeld(table[..], disk, nodes, refs, x);
      if i == MAXINODES {
        assert AllTaken(table[..]);
        TakenIsCrowded(table[..], disk, nodes, refs);
        return ENOMEM, 0;
      }
      assert table[..][i].refcnt == 0;
      err := Load(i, x);
    }

    /** Reading an inode that is not held into a free entry. */
    method Load(i: nat, x: nat) returns (err: Err)
      requires Valid() && i < MAXINODES && table[i].refcnt == 0 && x in nodes && x in refs && refs[x] == 0
      modifies this`refs, this`answers, this`misses, table
      ensures Valid() && Follows(old(Buffers()), Buffers())
      ensures err == if old(Scarce(1)) then ENOMEM else OK
      ensures err == ENOMEM ==> misses > old(misses) && refs == old(refs) && table[i] == Slot(0, x, 0, old(table[i]).d)
      ensures err == OK ==> Holds(table[..], i, x) && refs == More(old(refs), x) && table[i].dirty == 0
      ensures StillHeld(old(table[..]), table[..]) && SameDirt(old(table[..]), table[..])
    {
      hide Coherent, More, Dirs.Valid, Follows;
      var good := Ask(1);
      if good == 0 {
        CoherentIdle(table[..], disk, nodes, refs, i, x);
        table[i] := Slot(0, x, 0, table[i].d);
        err := ENOMEM;
      } else {
        CoherentFilled(table[..], disk, nodes, refs, i, x);
        table[i] := Slot(1, x, 0, disk[x]);
        refs := More(refs, x);
        err := OK;
      }
      assert table[..] == old(table[..])[i := table[i]];
    }

    lemma InUse()
      requires Valid()
      ensures nodes.Keys == refs.Keys == dirs.binds.Keys == used
    {
      SameKeys(table[..], disk, nodes, refs);
      BindsKeys(dirs);
    }

    lemma Entry(i: nat)
      requires Valid() && i < MAXINODES && table[i].refcnt > 0
      ensures table.Length == MAXINODES
      ensures var s := table[i]; s.ino in nodes && s.ino in refs && nodes[s.ino] == s.d && refs[s.ino] == s.refcnt
    {
      HeldNode(table[..], disk, nodes, refs, i);
    }

    /** An entry that is not flagged is as on the disk. */
    lemma Unflagged(i: nat)
      requires Valid() && i < MAXINODES && table[i].refcnt > 0
      ensures var s := table[i]; s.ino in disk && s.ino in nodes && (s.dirty == 0 || disk[s.ino] == nodes[s.ino] ==> disk[s.ino] == s.d)
    {
      HeldNode(table[..], disk, nodes, refs, i);
      OnDisk(table[..], disk, nodes, refs);
      assert Exact(table[..][i], disk, nodes, refs);
    }

    lemma HeldIff(x: nat)
      requires Valid() && x in used
      ensures table.Length == MAXINODES && x in refs && (refs[x] > 0 <==> exists i :: 0 <= i < MAXINODES && Holds(table[..], i, x))
    {
      SameKeys(table[..], disk, nodes, refs);
      if i :| 0 <= i < MAXINODES && Holds(table[..], i, x) {
        HeldNode(table[..], disk, nodes, refs, i);
      } else {
        NotHeld(table[..], disk, nodes, refs, x);
      }
    }

    /** dir_search on a directory. */
    method Search(d: nat, name: string) returns (err: Err, k: nat)
      requires Valid() && d in used && Text(name)
      modifies this`answers, this`misses
      ensures Valid() && Follows(old(Buffers()), Buffers()) && d in dirs.slots && d in dirs.binds
      ensures err in {OK, ENOENT, ENOMEM} && (err == ENOMEM ==> misses > old(misses))
      ensures err == ENOMEM ==>
                && old(Scarce(dirs.Blocks(d) + 1))
                && forall j :: 0 <= j < PER_BLOCK * old(answers)[0] ==> !Live(dirs.slots[d], j, Clip(name))
      ensures err == ENOENT ==> Clip(name) !in dirs.binds[d]
      ensures err == OK ==>
                && Clip(name) in dirs.binds[d] && k < |dirs.slots[d]| && Live(dirs.slots[d], k, Clip(name))
                && dirs.slots[d][k].ino == dirs.binds[d][Clip(name)]
    {
      hide Coherent, Dirs.Valid, Live, Clip, Follows;
      BindsKeys(dirs);
      var good := Ask(dirs.Blocks(d) + 1);
      err, k := dirs.Search(d, name, good);
    }

    /** dir_search and inode_get: the inode that the entry names. */
    method GetNamed(d: nat, name: string) returns (err: Err, i: nat, k: nat)
      requires Valid() && d in used && Text(name) && d in dirs.binds
      requires Clip(name) in dirs.binds[d] ==> dirs.binds[d][Clip(name)] in used
      modifies this`refs, this`answers, this`misses, table
      ensures Valid() && Follows(old(Buffers()), Buffers()) && d in dirs.slots
      ensures err in {OK, ENOENT, ENOMEM} && (err == ENOMEM ==> Crowded(old(refs), 0) || misses > old(misses))
      ensures err == ENOENT ==> Clip(name) !in dirs.binds[d]
      ensures err != OK ==> refs == old(refs)
      ensures err == OK ==>
                && Clip(name) in dirs.binds[d] && k < |dirs.slots[d]| && Live(dirs.slots[d], k, Clip(name))
                && var y := dirs.binds[d][Clip(name)];
                   && y in old(refs) && i < MAXINODES && Holds(table[..], i, y) && refs == More(old(refs), y)
                   && (old(refs)[y] == 0 ==> table[i].dirty == 0)
      ensures StillHeld(old(table[..]), table[..]) && SameDirt(old(table[..]), table[..])
    {
      hide Coherent, Dirs.Valid, Live, Clip, More, Crowded, Follows, SameDirt, StillHeld;
      HeldSelf(table[..]);
      i := 0;
      err, k := Search(d, name);
      if err == OK {
        ghost var between := Buffers();
        err, i := Get(dirs.slots[d][k].ino);
        FollowsBoth(old(Buffers()), between, Buffers());
      }
    }

    /** dir_isempty on a directory. */
    method IsEmpty(d: nat) returns (err: Err)
      requires Valid() && d in used
      modifies this`answers, this`misses
      ensures Valid() && Follows(old(Buffers()), Buffers()) && d in dirs.slots && d in dirs.binds
      ensures err in {OK, ENOTEMPTY, ENOMEM} && (err == ENOMEM ==> misses > old(misses))
      ensures err == ENOMEM ==>
                && old(Scarce(dirs.Blocks(d) + 1))
                && forall j :: 0 <= j < PER_BLOCK * old(answers)[0] && dirs.slots[d][j].ino != 0 ==>
                     Stored(dirs.slots[d][j].name) in {".", ".."}
      ensures err == OK ==> OnlyDots(dirs.binds[d])
      ensures err == ENOTEMPTY ==> !OnlyDots(dirs.binds[d])
    {
      hide Coherent, Dirs.Valid, OnlyDots, Follows;
      BindsKeys(dirs);
      var good := Ask(dirs.Blocks(d) + 1);
      err := dirs.IsEmpty(d, good);
    }

    /** An entry is cleared. */
    method Clear(d: nat, k: nat, ghost n: string)
      requires Valid() && d in dirs.slots && k < |dirs.slots[d]| && Live(dirs.slots[d], k, n)
      modifies dirs
      ensures Valid() && d in old(dirs.binds) && dirs.binds == old(dirs.binds)[d := old(dirs.binds)[d] - {n}]
    {
      hide Coherent, Dirs.Valid, Stored, Zeros;
      BindsKeys(dirs);
      dirs.Clear(d, k);
    }

    /** An entry gets another inode, and its name once more. */
    method Replace(d: nat, k: nat, name: string, ino: nat)
      requires Valid() && d in dirs.slots && k < |dirs.slots[d]| && Live(dirs.slots[d], k, Clip(name)) && Text(name)
      requires ino in used
      modifies dirs
      ensures Valid() && d in old(dirs.binds)
      ensures dirs.slots == old(dirs.slots)[d := old(dirs.slots)[d][k := Dirent(ino, Strncpy(name))]]
      ensures dirs.binds == old(dirs.binds)[d := Bind(old(dirs.binds)[d], Clip(name), ino)]
    {
      hide Coherent, Dirs.Valid, Stored, Strncpy, Clip, Bind;
      BindsKeys(dirs);
      dirs.Replace(d, k, name, ino);
    }

    /** dir_reparent on a directory. */
    method Reparent(d: nat, ino: nat) returns (err: Err)
      requires Valid() && d in used && ino in used
      modifies this`answers, this`misses, dirs
      ensures Valid() && Follows(old(Buffers()), Buffers()) && d in old(dirs.binds) && d in old(dirs.slots)
      ensures err in {OK, EINVAL, ENOMEM} && (err == ENOMEM <==> old(Scarce(1)))
      ensures err == ENOMEM <==> misses > old(misses)
      ensures dirs.binds == if err == OK then old(dirs.binds)[d := Bind(old(dirs.binds)[d], "..", ino)] else old(dirs.binds)
      ensures OnlyAt(old(dirs.slots), dirs.slots, d) && dirs.slots.Keys == old(dirs.slots.Keys)
      ensures err == EINVAL ==>
                forall k :: 0 <= k < |old(dirs.slots)[d]| && k < PER_BLOCK ==> !Live(old(dirs.slots)[d], k, "..")
    {
      hide Coherent, Dirs.Valid, Bind, Follows, OnlyAt, Live;
      BindsKeys(dirs);
      var good := Ask(1);
      err := dirs.Reparent(d, ino, good > 0);
    }

    /** dir_creat, on the inode in entry c. */
    method Creat(c: nat, name: string, ino: nat, namlen: nat, room: bool) returns (err: Err)
      requires Valid() && c < MAXINODES && table[c].refcnt > 0 && Text(name) && ino in used && namlen <= NAME_MAX
      modifies this`answers, this`misses, table, dirs
      ensures Valid() && Follows(old(Buffers()), Buffers()) && StillHeld(old(table[..]), table[..])
      ensures (err == ENOMEM ==> misses > old(misses)) && LivesOn(old(dirs.slots), dirs.slots)
      ensures var s := old(table[c]);
              && s.ino in old(dirs.binds) && s.ino in old(dirs.slots)
              && dirs.binds == (if err == OK then old(dirs.binds)[s.ino := Bind(old(dirs.binds)[s.ino], name, ino)] else old(dirs.binds))
              && var e := Refusal(name, namlen, s.d.isDir, s.d.isDir && name in old(dirs.binds)[s.ino]);
                 || err == e
                 || (e in {OK, EEXIST} && err == ENOMEM && old(Scarce(dirs.Room(s.ino))))
                 || (e == OK && err == ENOSPC && !room && FirstFree(old(dirs.slots)[s.ino]) == |old(dirs.slots)[s.ino]|)
      ensures OnlyAt(old(dirs.slots), dirs.slots, old(table[c]).ino)
      ensures err == ENOSPC ==> Packed(old(dirs.slots), old(table[c]).ino)
      // a directory that has grown in size or blocks is flagged
      ensures var x := old(table[c]).ino;
              && x in dirs.slots && x in dirs.size && x in old(dirs.slots) && x in old(dirs.size)
              && table[..] == if dirs.size != old(dirs.size) || (old(table[c]).d.isDir && |dirs.slots[x]| != |old(dirs.slots)[x]|)
                              then old(table[..])[c := old(table[c]).(dirty := 2)] else old(table[..])
    {
      hide Coherent, Dirs.Valid, Bind, FirstFree, Follows, StillHeld, LivesOn, OnlyAt;
      HeldSelf(table[..]);
      HeldNode(table[..], disk, nodes, refs, c);
      var s := table[c];
      var wrote;
      err, wrote := Insert(s.ino, name, ino, s.d.isDir, namlen, room);
      if wrote { Flag(c); }
    }

    /** What it does to the directory; wrote says whether the inode has changed. */
    method Insert(d: nat, name: string, ino: nat, isDir: bool, namlen: nat, room: bool)
      returns (err: Err, wrote: bool)
      requires Valid() && d in used && Text(name) && ino in used && namlen <= NAME_MAX
      modifies this`answers, this`misses, dirs
      ensures Valid() && Follows(old(Buffers()), Buffers()) && d in old(dirs.binds) && d in old(dirs.slots)
      ensures (err == ENOMEM ==> misses > old(misses)) && LivesOn(old(dirs.slots), dirs.slots)
      ensures dirs.binds == if err == OK then old(dirs.binds)[d := Bind(old(dirs.binds)[d], name, ino)] else old(dirs.binds)
      ensures var e := Refusal(name, namlen, isDir, isDir && name in old(dirs.binds)[d]);
              || err == e
              || (e in {OK, EEXIST} && err == ENOMEM && old(Scarce(dirs.Room(d))))
              || (e == OK && err == ENOSPC && !room && FirstFree(old(dirs.slots)[d]) == |old(dirs.slots)[d]|)
      ensures err == OK ==> !old(Scarce(dirs.Room(d))) && (room || FirstFree(old(dirs.slots)[d]) < |old(dirs.slots)[d]|)
      ensures OnlyAt(old(dirs.slots), dirs.slots, d)
      ensures d in dirs.slots && d in dirs.size && d in old(dirs.size)
      ensures wrote <==> dirs.size != old(dirs.size) || (isDir && |dirs.slots[d]| != |old(dirs.slots)[d]|)
    {
      hide Coherent, Dirs.Valid, Bind, Refusal, FirstFree, Follows, Entered, Raised, OnlyAt, LivesOn;
      BindsKeys(dirs);
      RefusalIs(name, namlen, isDir, isDir && name in dirs.binds[d]);
      var good := Ask(dirs.Room(d));
      err, wrote := dirs.Creat(d, name, ino, isDir, namlen, room, good);
      BindsKeys(dirs);
    }

    /** An inode held in the table is flagged. */
    method Flag(c: nat)
      requires Valid() && c < MAXINODES && table[c].refcnt > 0
      modifies table
      ensures Valid() && StillHeld(old(table[..]), table[..])
      ensures table[..] == old(table[..])[c := old(table[c]).(dirty := 2)]
    {
      hide Coherent, Dirs.Valid;
      CoherentDirty(table[..], disk, nodes, refs, c, 2);
      table[c] := table[c].(dirty := 2);
      assert table[..] == old(table[..])[c := table[c]];
    }

    /** A change of the fields of an inode held in the table. */
    method Set(i: nat, d: Dnode, dirty: nat)
      requires Valid() && i < MAXINODES && table[i].refcnt > 0 && dirty > 0
      modifies this`nodes, table
      ensures Valid() && nodes == old(nodes)[old(table[i]).ino := d]
      ensures StillHeld(old(table[..]), table[..])
    {
      hide Coherent, Dirs.Valid;
      HeldNode(table[..], disk, nodes, refs, i);
      CoherentSet(table[..], disk, nodes, refs, i, d, dirty);
      nodes := nodes[table[i].ino := d];
      table[i] := table[i].(d := d, dirty := dirty);
      assert table[..] == old(table[..])[i := table[i]];
    }

    /** inode_sync: with level 1 the disk has every inode as it is, unless a block cannot be written;
        what cannot be written stays flagged. */
    method Sync(level: nat)
      requires Valid() && level > 0
      modifies this`disk, this`answers, this`misses, table
      ensures Valid() && StillHeld(old(table[..]), table[..]) && Follows(old(Buffers()), Buffers())
      ensures Ample(old(answers)) ==> misses == old(misses)
      ensures forall i :: 0 <= i < MAXINODES ==> table[i].dirty < level || (misses > old(misses) && table[i] == old(table[i]))
      ensures level == 1 && misses == old(misses) ==> forall x :: x in nodes ==> x in disk && disk[x] == nodes[x]
    {
      hide Coherent, Dirs.Valid;
      for i := 0 to MAXINODES
        invariant Valid() && StillHeld(old(table[..]), table[..]) && Follows(old(Buffers()), Buffers())
        invariant Ample(old(answers)) ==> misses == old(misses)
        invariant forall j :: 0 <= j < i ==> table[j].dirty < level || (misses > old(misses) && table[j] == old(table[j]))
        invariant forall j :: i <= j < MAXINODES ==> table[j] == old(table[j])
      {
        if table[i].dirty >= level { SyncOne(i); }
      }
      if level == 1 && misses == old(misses) { CleanOnDisk(table[..], disk, nodes, refs); }
    }

    /** The body of the loop of inode_sync: without a buffer the inode stays as it is. */
    method SyncOne(i: nat)
      requires Valid() && i < MAXINODES && table[i].dirty > 0
      modifies this`disk, this`answers, this`misses, table
      ensures Valid() && StillHeld(old(table[..]), table[..]) && Follows(old(Buffers()), Buffers())
      ensures misses > old(misses) <==> old(Scarce(1))
      ensures old(Scarce(1)) ==> disk == old(disk) && table[..] == old(table[..])
      ensures !old(Scarce(1)) ==>
                && disk == old(disk)[old(table[i]).ino := old(table[i]).d]
                && table[..] == old(table[..])[i := old(table[i]).(dirty := 0)]
    {
      hide Coherent, Dirs.Valid;
      HeldSelf(table[..]);
      var good := Ask(1);
      if good > 0 { Write(i); }
    }

    /** inode_write. */
    method Write(i: nat)
      requires Valid() && i < MAXINODES && table[i].dirty > 0
      modifies this`disk, table
      ensures Valid() && StillHeld(old(table[..]), table[..])
      ensures disk == old(disk)[old(table[i]).ino := old(table[i]).d]
      ensures table[..] == old(table[..])[i := old(table[i]).(dirty := 0)]
    {
      hide Coherent, Dirs.Valid;
      CleanWhenFree(table[..], disk, nodes, refs, i);
      CoherentWrite(table[..], disk, nodes, refs, i);
      disk := disk[table[i].ino := table[i].d];
      table[i] := table[i].(dirty := 0);
      assert table[..] == old(table[..])[i := table[i]];
    }

    /** inode_put. With the last reference an inode that has no links goes, and the blocks it has; any
        other inode is written if it has changed, and is as on the disk again if it cannot be. */
    method Put(i: nat) returns (err: Err)
      requires Valid() && i < MAXINODES && table[i].refcnt > 0
      modifies this, table, dirs
      ensures Valid() && Follows(old(Buffers()), Buffers())
      ensures err == if old(table[i]).refcnt == 1 && (old(table[i]).d.nlink == 0 || old(table[i]).dirty > 0) && old(Scarce(1)) then ENOMEM else OK
      ensures misses > old(misses) <==> err == ENOMEM
      ensures lost <==> old(lost) || old(WouldLose(i))
      ensures var s := old(table[i]);
              disk == if err == OK && s.refcnt == 1 && (s.d.nlink == 0 || s.dirty > 0) then old(disk)[s.ino := s.d] else old(disk)
      ensures var s := old(table[i]);
              && s.ino in old(refs) && old(refs)[s.ino] > 0 && s.ino in old(disk)
              && nodes == (if old(WouldLose(i)) then old(nodes)[s.ino := old(disk)[s.ino]]
                           else PutNodes(old(nodes), s.d.nlink, old(refs), s.ino))
              && refs == PutRefs(s.d.nlink, old(refs), s.ino)
              && dirs.binds == PutNodes(old(dirs.binds), s.d.nlink, old(refs), s.ino)
      ensures Fewer(old(dirs.slots), dirs.slots)
      ensures HeldBut(old(table[..]), table[..], i)
    {
      hide Coherent, Dirs.Valid, HeldBut, Follows;
      FollowsSame(Buffers());
      HeldNode(table[..], disk, nodes, refs, i);
      OnDisk(table[..], disk, nodes, refs);
      if table[i].refcnt > 1 {
        Lower(i);
        err := OK;
      } else {
        err := PutLast(i);
      }
    }

    /** Not the last reference. */
    method Lower(i: nat)
      requires Valid() && i < MAXINODES && table[i].refcnt > 1
      modifies this`refs, table
      ensures var s := old(table[i]);
              s.ino in old(refs) && old(refs)[s.ino] == s.refcnt && refs == old(refs)[s.ino := s.refcnt - 1]
      ensures Valid() && HeldBut(old(table[..]), table[..], i)
    {
      hide Coherent, Dirs.Valid;
      CoherentPut(table[..], disk, nodes, refs, i);
      var s := table[i];
      table[i] := s.(refcnt := s.refcnt - 1);
      refs := refs[s.ino := s.refcnt - 1];
      assert table[..] == old(table[..])[i := table[i]];
    }

    /** The last reference. The inode that goes is written too, to a block that is free by then. */
    method PutLast(i: nat) returns (err: Err)
      requires Valid() && i < MAXINODES && table[i].refcnt == 1
      modifies this, table, dirs
      ensures Valid() && Follows(old(Buffers()), Buffers())
      ensures err == if (old(table[i]).d.nlink == 0 || old(table[i]).dirty > 0) && old(Scarce(1)) then ENOMEM else OK
      ensures misses > old(misses) <==> err == ENOMEM
      ensures lost <==> old(lost) || old(WouldLose(i))
      ensures var s := old(table[i]);
              disk == if err == OK && s.refcnt == 1 && (s.d.nlink == 0 || s.dirty > 0) then old(disk)[s.ino := s.d] else old(disk)
      ensures var s := old(table[i]);
              && s.ino in old(refs) && old(refs)[s.ino] == 1 && s.ino in old(disk)
              && nodes == (if old(WouldLose(i)) then old(nodes)[s.ino := old(disk)[s.ino]]
                           else PutNodes(old(nodes), s.d.nlink, old(refs), s.ino))
              && refs == PutRefs(s.d.nlink, old(refs), s.ino)
              && dirs.binds == PutNodes(old(dirs.binds), s.d.nlink, old(refs), s.ino)
      ensures Fewer(old(dirs.slots), dirs.slots)
      ensures HeldBut(old(table[..]), table[..], i)
    {
      hide Coherent, HeldBut, Dirs.Valid, Bind;
      var s := table[i];
      OnDisk(table[..], disk, nodes, refs);
      HeldNode(table[..], disk, nodes, refs, i);
      var good := 1;
      if s.d.nlink == 0 || s.dirty > 0 {
        good := Ask(1);
      }
      if s.d.nlink == 0 {
        Free(i, good > 0);
      } else {
        Leave(i, good > 0);
      }
      err := if good == 0 then ENOMEM else OK;
    }

    /** The last reference to an inode without links: free_inode, and the write after it. */
    method Free(i: nat, have: bool)
      requires Valid() && i < MAXINODES && table[i].refcnt == 1
      modifies this`used, this`disk, this`nodes, this`refs, table, dirs
      ensures Valid()
      ensures var x := old(table[i]).ino;
              && x in old(refs) && x in old(nodes) && nodes == old(nodes) - {x} && refs == old(refs) - {x}
              && dirs.binds == old(dirs.binds) - {x}
      ensures Fewer(old(dirs.slots), dirs.slots)
      ensures disk == if have then old(disk)[old(table[i]).ino := old(table[i]).d] else old(disk)
      ensures HeldBut(old(table[..]), table[..], i)
    {
      hide Coherent, HeldBut, Dirs.Valid, Bind;
      var s := table[i];
      var x := s.ino;
      HeldNode(table[..], disk, nodes, refs, i);
      OnDisk(table[..], disk, nodes, refs);
      CoherentFree(table[..], disk, nodes, refs, i, if have then s.d else disk[x]);
      assert disk[x := disk[x]] == disk;
      used := used - {x};
      dirs.Drop(x);
      if have { disk := disk[x := s.d]; }
      nodes, refs := nodes - {x}, refs - {x};
      table[i] := Slot(0, x, 0, s.d);
      assert table[..] == old(table[..])[i := table[i]];
      OthersHeld(old(table[..]), table[..], i);
    }

    /** The last reference to any other inode: inode_write if it has changed. */
    method Leave(i: nat, have: bool)
      requires Valid() && i < MAXINODES && table[i].refcnt == 1
      modifies this`disk, this`nodes, this`refs, this`lost, table
      ensures Valid() && (lost <==> old(lost) || !have)
      ensures var x := old(table[i]).ino;
              && x in old(refs) && refs == old(refs)[x := 0] && x in old(disk)
              && nodes == if have then old(nodes) else old(nodes)[x := old(disk)[x]]
      ensures var s := old(table[i]); disk == if have && s.dirty > 0 then old(disk)[s.ino := s.d] else old(disk)
      ensures HeldBut(old(table[..]), table[..], i)
    {
      hide Coherent, HeldBut, Dirs.Valid, Bind;
      var s := table[i];
      var x := s.ino;
      HeldNode(table[..], disk, nodes, refs, i);
      OnDisk(table[..], disk, nodes, refs);
      if have {
        CoherentPut(table[..], disk, nodes, refs, i);
        if s.dirty > 0 { disk := disk[x := s.d]; }
        refs := refs[x := 0];
      } else {
        CoherentLost(table[..], disk, nodes, refs, i);
        nodes, refs, lost := nodes[x := disk[x]], refs[x := 0], true;
      }
      table[i] := Slot(0, x, 0, s.d);
      assert table[..] == old(table[..])[i := table[i]];
      OthersHeld(old(table[..]), table[..], i);
    }

    /** alloc_inode, given the block that alloc_blk has found and marked, or 0. */
    method Alloc(x: nat) returns (err: Err, i: nat)
      requires Valid() && x !in used
      modifies this, table, dirs
      ensures Valid() && Follows(old(Buffers()), Buffers()) && lost == old(lost)
      ensures (err == ENOSPC <==> x == 0) && (x != 0 && old(Scarce(1)) ==> err == ENOMEM)
      ensures err in {OK, ENOSPC, ENOMEM} && (err == ENOMEM ==> Crowded(old(refs), 0) || misses > old(misses))
      ensures err == OK ==> i < MAXINODES && Holds(table[..], i, x)
      ensures err == OK ==>
                && nodes == old(nodes)[x := ZERO] && refs == old(refs)[x := 1] && dirs.binds == old(dirs.binds)[x := map[]]
      ensures err != OK ==> nodes == old(nodes) && refs == old(refs) && dirs.binds == old(dirs.binds)
      ensures StillHeld(old(table[..]), table[..]) && OnlyAt(old(dirs.slots), dirs.slots, x)
    {
      hide Coherent, Dirs.Valid, Holds, Follows, StillHeld, SameDirt;
      i := 0;
      HeldSelf(table[..]);
      FollowsSame(Buffers());
      if x == 0 { return ENOSPC, i; }
      var good := Ask(1);
      if good == 0 {
        return ENOMEM, i;
      }
      ghost var between := Buffers();
      err, i := Create(x);
      FollowsBoth(old(Buffers()), between, Buffers());
    }

    /** What follows once the block is clear: inode_get, and free_blk if it fails. */
    method Create(x: nat) returns (err: Err, i: nat)
      requires Valid() && x !in used && x != 0
      modifies this`used, this`disk, this`nodes, this`refs, this`answers, this`misses, table, dirs
      ensures Valid() && Follows(old(Buffers()), Buffers())
      ensures err in {OK, ENOMEM} && (err == ENOMEM ==> Crowded(old(refs), 0) || misses > old(misses))
      ensures err == OK ==> i < MAXINODES && Holds(table[..], i, x)
      ensures err == OK ==>
                && nodes == old(nodes)[x := ZERO] && refs == old(refs)[x := 1] && dirs.binds == old(dirs.binds)[x := map[]]
      ensures err != OK ==> nodes == old(nodes) && refs == old(refs) && dirs.binds == old(dirs.binds)
      ensures StillHeld(old(table[..]), table[..]) && OnlyAt(old(dirs.slots), dirs.slots, x)
    {
      hide Coherent, Dirs.Valid, Holds, Follows, StillHeld, SameDirt, AllTaken, Crowded, OnlyAt;
      SameKeys(table[..], disk, nodes, refs);
      BindsKeys(dirs);
      Mark(x);
      ghost var slots := dirs.slots;
      err, i := Get(x);
      if err != OK {
        if Crowded(refs, 0) { CrowdedFresh(old(refs), x); }
        Unmark(x);
        OnlyAtBoth(old(dirs.slots), slots, dirs.slots, x);
        Undone(old(nodes), x, ZERO);
        Undone(old(refs), x, 0);
        Undone(old(dirs.binds), x, map[]);
      }
    }

    /** What alloc_blk has done when it returns: the block is taken and clear, and so is no inode yet. */
    method Mark(x: nat)
      requires Valid() && x !in used && x != 0
      modifies this`used, this`disk, this`nodes, this`refs, dirs
      ensures Valid() && x in used
      ensures OnlyAt(old(dirs.slots), dirs.slots, x)
      ensures nodes == old(nodes)[x := ZERO] && refs == old(refs)[x := 0] && dirs.binds == old(dirs.binds)[x := map[]]
    {
      hide Coherent, Dirs.Valid;
      CoherentAlloc(table[..], disk, nodes, refs, x);
      used, disk := used + {x}, disk[x := ZERO];
      nodes, refs := nodes[x := ZERO], refs[x := 0];
      dirs.Make(x);
    }

    /** free_blk when there is no room in the table. */
    method Unmark(x: nat)
      requires Valid() && x in used && x in refs && refs[x] == 0
      modifies this`used, this`nodes, this`refs, dirs
      ensures Valid() && OnlyAt(old(dirs.slots), dirs.slots, x)
      ensures nodes == old(nodes) - {x} && refs == old(refs) - {x} && dirs.binds == old(dirs.binds) - {x}
    {
      hide Coherent, Dirs.Valid;
      CoherentGone(table[..], disk, nodes, refs, x);
      used := used - {x};
      nodes, refs := nodes - {x}, refs - {x};
      dirs.Drop(x);
    }
  }

  /** What mountroot does with the root inode: inode_get, which must not fail, and two references
      more. The answers of the buffer cache are for what comes after. */
  method HoldRoot(image: map<nat, Dnode>, contents: Dirs, top: nat, supply: seq<nat>) returns (core: Icore, i: nat)
    requires contents.Valid() && contents.slots.Keys == image.Keys && 0 !in image && top in image
    ensures core.Valid() && fresh(core) && fresh(core.table) && core.dirs == contents && core.nodes == image
    ensures !core.lost && core.answers == supply && core.disk == image
    ensures i < MAXINODES && core.table.Length == MAXINODES && Holds(core.table[..], i, top)
    ensures top in NoRefs(image) && core.refs == More(More(More(NoRefs(image), top), top), top)
  {
    hide Icore.Valid, Dirs.Valid, More, Crowded, NoRefs;
    core := new Icore(image, contents);
    assert core.table[..][0].refcnt == 0;
    var err;
    err, i := core.Get(top);
    core.Ref(i);
    core.Ref(i);
    core.Supply(supply);
  }
}
