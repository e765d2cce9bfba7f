/** The system calls that make, open and remove names, kern/fs/mknod.c and kern/fs/open.c, and the walk
    along a path, kern/fs/dir.c, over the table of inodes and the directories. */
module Mknod {
  import opened Dir
  import opened Errors
  import opened InodeTable
  import opened Links
  import opened Paths

  const NLINK_MAX := 32767

  class Names {
    const ic: Icore
    /** The entry of curr->root, and the inode it has. */
    const rootSlot: nat
    ghost const rootDir: nat
    const namlen: nat
    /** The root directory of the file system. */
    ghost const root: nat

    /** The end of mountroot, on a file system in order whose inodes all have links: the root is held
        for the system, as root and as current directory. */
    constructor (image: map<nat, Dnode>, contents: Dirs, top: nat, len: nat, supply: seq<nat>)
      requires contents.Valid() && contents.slots.Keys == image.Keys == contents.binds.Keys && 0 !in image
      requires top in image
      requires Sound(TreeOf(image, contents.binds), top) && NoBlanks(TreeOf(image, contents.binds))
      requires (forall x :: x in image ==> image[x].nlink > 0) && 14 <= len <= NAME_MAX
      ensures Valid() && Graph() == TreeOf(image, contents.binds) && fresh(ic) && fresh(ic.table) && ic.dirs == contents
      ensures rootDir == root == top && namlen == len && ic.refs == NoRefs(image)[top := 3] && ic.answers == supply
      ensures ic.disk == image
    {
      hide Icore.Valid, Dirs.Valid, Sound, TreeOf, Kept, NoBlanks, More, NoRefs;
      MountKept(image, contents.binds, top);
      var core, i := HoldRoot(image, contents, top, supply);
      ic, rootSlot, rootDir, namlen, root := core, i, top, len, top;
    }

    /** The table and the directories are in order, whatever the graph is. */
    ghost predicate Ready()
      reads this, ic, ic.table, ic.dirs
    {
      && 14 <= namlen <= NAME_MAX && ic.Valid() && ic.table.Length == MAXINODES
      && rootSlot < MAXINODES && Holds(ic.table[..], rootSlot, rootDir)
    }

    /** The invariant of the calls, which lasts until a changed inode cannot be written when its last
        reference goes. */
    ghost predicate Valid()
      reads this, ic, ic.table, ic.dirs
    {
      Ready() && !ic.lost && Orderly(Graph(), ic.refs, root)
    }

    ghost function Graph(): Tree
      reads ic, ic.dirs
    {
      TreeOf(ic.nodes, ic.dirs.binds)
    }

    /** dir_search_i, within one file system. */
    method SearchI(c: nat, name: string) returns (err: Err, n: nat)
      requires Valid() && c < MAXINODES && ic.table[c].refcnt > 0 && Text(name) && |name| <= NAME_MAX
      modifies ic`refs, ic`answers, ic`misses, ic.table
      ensures Valid() && Follows(old(ic.Buffers()), ic.Buffers())
      ensures StillHeld(old(ic.table[..]), ic.table[..]) && SameDirt(old(ic.table[..]), ic.table[..])
      ensures var y := Step(Graph(), rootDir, old(ic.table[c]).ino, name);
              && (err == OK ==>
                    && y >= 0 && n < MAXINODES && Holds(ic.table[..], n, y) && y in old(ic.refs)
                    && ic.refs == More(old(ic.refs), y) && Clean(ic.table[..], n, y, old(ic.refs)))
              && (err == ENOENT || err == ENOTDIR ==>
                    y == -1 && (err == ENOENT <==> IsDir(Graph(), old(ic.table[c]).ino)))
      ensures err in {OK, ENOENT, ENOTDIR, ENOMEM}
      ensures err == ENOMEM ==> NoRoom(old(ic.refs), 0, ic.misses > old(ic.misses))
      ensures err != OK ==> ic.refs == old(ic.refs)
    {
      hide Follows, Orderly, Icore.Valid, More, TreeOf, Step, Clip, StillHeld, SameDirt, HeldCounted, Crowded, Live, Sound;
      Inside(c);
      FollowsSame(ic.Buffers());
      ghost var was := ic.table[..];
      var x := ic.table[c].ino;
      if name == "" || (name == ".." && c == rootSlot) {
        StepStays(Graph(), rootDir, x, name);
        MoreKept(Graph(), ic.refs, root, x);
        ic.Ref(c);
        StillAt(was, ic.table[..], c, x);
        StillAt(was, ic.table[..], rootSlot, rootDir);
        return OK, c;
      }
      HeldSelf(was);
      GraphAt(ic.nodes, ic.dirs.binds, x);
      StepIs(ic.nodes, ic.dirs.binds, root, rootDir, x, name);
      if !ic.table[c].d.isDir { return ENOTDIR, 0; }
      NamedMore(ic.nodes, ic.dirs.binds, ic.refs, root, x, Clip(name));
      var k;
      err, n, k := ic.GetNamed(x, name);
      StillAt(was, ic.table[..], rootSlot, rootDir);
    }

    /** What holds of an inode that is held. */
    lemma Inside(c: nat)
      requires Ready() && c < MAXINODES && ic.table[c].refcnt > 0
      ensures var x := ic.table[c].ino;
              && x in ic.nodes && x in ic.refs && ic.nodes[x] == ic.table[c].d && ic.refs[x] == ic.table[c].refcnt
              && x in Graph() && ic.nodes.Keys == ic.refs.Keys == ic.dirs.binds.Keys
              && ic.nodes.Keys == ic.used && ic.table.Length == MAXINODES && ic.table[rootSlot].refcnt > 0
              && ic.dirs.slots.Keys == ic.used && (c == rootSlot <==> x == rootDir)
              && HeldCounted(ic.table[..], ic.refs)
      ensures Valid() ==> Sound(Graph(), root)
    {
      HeldNode(ic.table[..], ic.disk, ic.nodes, ic.refs, c);
      OneSlot(ic.table[..], ic.disk, ic.nodes, ic.refs, c, rootSlot);
      AllCounted(ic.table[..], ic.disk, ic.nodes, ic.refs);
    }

    /** Two entries for one inode are one entry. */
    lemma OneEntry(i: nat, j: nat)
      requires Ready() && i < MAXINODES && j < MAXINODES && ic.table[i].refcnt > 0 && ic.table[j].refcnt > 0
      ensures ic.table[i].ino == ic.table[j].ino <==> i == j
    {
      OneSlot(ic.table[..], ic.disk, ic.nodes, ic.refs, i, j);
    }

    /** inode_put between calls: an inode goes with its last reference if it has no links. The graph
        stays in order if and only if the reference is not the last one, or the inode has no links or
        is not flagged, or its block can be had, or is as it is to be already. */
    method Put(i: nat, ghost x: nat) returns (err: Err)
      requires Ready() && i < MAXINODES && Holds(ic.table[..], i, x) && (i == rootSlot ==> ic.table[i].refcnt > 1)
      modifies ic, ic.table, ic.dirs
      ensures Ready() && HeldBut(old(ic.table[..]), ic.table[..], i) && Follows(old(ic.Buffers()), ic.Buffers())
      ensures x in old(Graph()) && x in old(ic.refs) && old(ic.refs)[x] > 0 && x in old(ic.nodes) && x in old(ic.disk)
      ensures ic.refs == PutRefs(old(Graph())[x].nlink, old(ic.refs), x)
      ensures ic.lost <==> old(ic.lost) || old(ic.WouldLose(i))
      ensures var s := old(ic.table[i]);
              err == if s.refcnt == 1 && (s.d.nlink == 0 || s.dirty > 0) && old(ic.Scarce(1)) then ENOMEM else OK
      ensures Graph() == if old(ic.WouldLose(i)) then AsOnDisk(old(Graph()), x, old(ic.disk)[x], old(ic.dirs.binds))
                         else PutNodes(old(Graph()), old(Graph())[x].nlink, old(ic.refs), x)
      ensures Fewer(old(ic.dirs.slots), ic.dirs.slots)
      ensures old(Valid()) && !ic.lost ==> Valid()
      ensures old(Valid()) ==> (Sound(Graph(), root) <==> !old(ic.WouldLose(i)) || old(ic.disk)[x] == old(ic.nodes)[x])
    {
      hide Follows, Orderly, Sound, Icore.Valid, PutNodes, PutRefs, TreeOf, AsOnDisk, Fewer;
      Inside(i);
      GraphAt(ic.nodes, ic.dirs.binds, x);
      if Valid() { PutOrderly(Graph(), ic.refs, root, x); }
      TreePut(ic.nodes, ic.dirs.binds, ic.refs, x);
      ghost var nodes, binds, disk := ic.nodes, ic.dirs.binds, ic.disk;
      err := ic.Put(i);
      if old(ic.WouldLose(i)) {
        StaysPut(binds, nodes[x].nlink, old(ic.refs), x);
        TreeBack(nodes, binds, x, disk[x]);
      }
      if old(Valid()) {
        if ic.lost {
          BackSoundIff(nodes, binds, root, x, disk[x]);
        } else {
          OrderlySound(Graph(), ic.refs, root);
        }
      }
    }

    /** The first half of a turn of the loop of dir_traverse: y is held, and x, which is let go of next, still. */
    method LookOn(c: nat, name: string, ghost x: nat, ghost held: seq<Slot>, ghost refs: map<nat, nat>)
      returns (err: Err, n: nat, ghost y: nat)
      requires Valid() && c < MAXINODES && Holds(ic.table[..], c, x) && Text(name) && |name| <= NAME_MAX
      requires x in refs && ic.refs == More(refs, x) && StillHeld(held, ic.table[..]) && Clean(ic.table[..], c, x, refs)
      requires c < |held| && (Holds(held, c, x) ==> refs[x] > 0) && (c == rootSlot ==> refs[x] > 0)
      requires x in Graph() && (Graph()[x].nlink > 0 || refs[x] > 0)
      modifies ic`refs, ic`answers, ic`misses, ic.table
      ensures Valid() && Graph() == old(Graph()) && StillHeld(held, ic.table[..]) && Follows(old(ic.Buffers()), ic.Buffers())
      ensures Holds(ic.table[..], c, x) && Clean(ic.table[..], c, x, refs)
      ensures (err == OK ==> y in refs) && GivesUp(Graph(), ic.refs, x, if err == OK then More(refs, y) else refs)
      ensures if ic.table[c].refcnt == 1 then ic.table[c].dirty == 0 && c != rootSlot && !Holds(held, c, x) && (err == OK ==> n != c)
              else ic.table[c].refcnt > 1
      ensures err in {OK, ENOENT, ENOTDIR, ENOMEM}
      ensures err == ENOMEM ==> NoRoom(refs, 1, ic.misses > old(ic.misses))
      ensures err == OK ==>
                && y == Step(Graph(), rootDir, x, name) && y in refs && n < MAXINODES && Holds(ic.table[..], n, y)
                && y in Graph() && (y == x || Graph()[y].nlink > 0) && Clean(ic.table[..], n, y, More(refs, x)) && (x == y <==> n == c)
      ensures err == ENOENT || err == ENOTDIR ==>
                Step(Graph(), rootDir, x, name) == -1 && (err == ENOENT <==> IsDir(Graph(), x))
    {
      hide Follows, Orderly, Icore.Valid, TreeOf, Step, More, PutRefs, PutNodes, Crowded, Sound, StillHeld, SameDirt, Clean,
           IsDir, HeldCounted;
      Inside(c);
      ghost var was := ic.table[..];
      err, n := SearchI(c, name);
      StillAt(was, ic.table[..], c, x);
      HeldThrough(held, was, ic.table[..]);
      y := x;
      if err == OK {
        y := Step(Graph(), rootDir, x, name);
        StepLinked(Graph(), root, rootDir, x, name);
        StepRefs(Graph(), refs, x, y, Graph()[x].nlink);
        OneEntry(c, n);
      } else {
        StepBack(Graph(), refs, x, Graph()[x].nlink);
        if err == ENOMEM { NoRoomMore(refs, x, 0, ic.misses > old(ic.misses)); }
      }
      Inside(c);
      CleanStill(was, ic.table[..], c, x, refs);
    }

    /** One turn of the loop of dir_traverse, from x to y if there is one. */
    method GoTo(c: nat, name: string, ghost x: nat, ghost held: seq<Slot>, ghost refs: map<nat, nat>)
      returns (err: Err, n: nat, ghost y: nat)
      requires Valid() && c < MAXINODES && Holds(ic.table[..], c, x) && Text(name) && |name| <= NAME_MAX
      requires x in refs && ic.refs == More(refs, x) && StillHeld(held, ic.table[..]) && Clean(ic.table[..], c, x, refs)
      requires c < |held| && (Holds(held, c, x) ==> refs[x] > 0) && (c == rootSlot ==> refs[x] > 0)
      requires x in Graph() && (Graph()[x].nlink > 0 || refs[x] > 0)
      modifies ic, ic.table, ic.dirs
      ensures Valid() && Graph() == old(Graph()) && StillHeld(held, ic.table[..]) && Follows(old(ic.Buffers()), ic.Buffers())
      ensures err in {OK, ENOENT, ENOTDIR, ENOMEM}
      ensures err == ENOMEM ==> NoRoom(refs, 1, ic.misses > old(ic.misses))
      ensures err == OK ==>
                && y == Step(Graph(), rootDir, x, name) && y in refs && n < MAXINODES && Holds(ic.table[..], n, y)
                && ic.refs == More(refs, y) && y in Graph() && (y == x || Graph()[y].nlink > 0)
                && Clean(ic.table[..], n, y, refs)
      ensures err == ENOENT || err == ENOTDIR ==>
                Step(Graph(), rootDir, x, name) == -1 && (err == ENOENT <==> IsDir(Graph(), x))
      ensures err != OK ==> ic.refs == refs
      ensures Fewer(old(ic.dirs.slots), ic.dirs.slots)
    {
      hide Follows, Orderly, Icore.Valid, TreeOf, Step, More, PutRefs, PutNodes, Crowded, Sound, HeldBut, StillHeld, Clean, IsDir,
           Fewer, AsOnDisk;
      err, n, y := LookOn(c, name, x, held, refs);
      ghost var mid, b := ic.table[..], ic.Buffers();
      var e := Put(c, x);
      FollowsBoth(old(ic.Buffers()), b, ic.Buffers());
      HeldOn(held, mid, ic.table[..], c, x);
      if err == OK {
        CleanOn(mid, ic.table[..], c, n, x, y, refs);
      }
    }

    lemma HoldingIs(c: nat, d: nat, held: seq<Slot>, refs: map<nat, nat>)
      requires Holding(c, d, held, refs)
      ensures Valid() && StillHeld(held, ic.table[..]) && c < MAXINODES && d in refs && ic.refs == More(refs, d)
    {
    }

    /** The same in terms of what is held before and after. */
    method Advance(c: nat, name: string, ghost x: nat, ghost held: seq<Slot>, ghost refs: map<nat, nat>)
      returns (err: Err, n: nat, ghost y: nat)
      requires Holding(c, x, held, refs) && Clean(ic.table[..], c, x, refs) && Text(name) && |name| <= NAME_MAX
      modifies ic, ic.table, ic.dirs
      ensures Valid() && Graph() == old(Graph()) && StillHeld(held, ic.table[..]) && Follows(old(ic.Buffers()), ic.Buffers())
      ensures err in {OK, ENOENT, ENOTDIR, ENOMEM}
      ensures err == ENOMEM ==> NoRoom(refs, 1, ic.misses > old(ic.misses))
      ensures err == OK ==>
                && y == Step(Graph(), rootDir, x, name) && n < MAXINODES
                && Holding(n, y, held, refs) && Clean(ic.table[..], n, y, refs)
      ensures err == ENOENT || err == ENOTDIR ==>
                Step(Graph(), rootDir, x, name) == -1 && (err == ENOENT <==> IsDir(Graph(), x))
      ensures err != OK ==> ic.refs == refs
      ensures Fewer(old(ic.dirs.slots), ic.dirs.slots)
    {
      hide Follows, Orderly, Icore.Valid, TreeOf, Step, More, Crowded, Sound, SameDirt, Clean, IsDir, Fewer;
      err, n, y := GoTo(c, name, x, held, refs);
    }

    /** The loop of dir_traverse. */
    method Follow(start: nat, path: seq<string>, ghost s: nat, ghost held: seq<Slot>, ghost refs: map<nat, nat>)
      returns (err: Err, c: nat, ghost x: nat)
      requires Holding(start, s, held, refs) && Clean(ic.table[..], start, s, refs)
      requires forall i :: 0 <= i < |path| ==> Text(path[i])
      modifies ic, ic.table, ic.dirs
      ensures Valid() && Graph() == old(Graph()) && StillHeld(held, ic.table[..]) && Follows(old(ic.Buffers()), ic.Buffers())
      ensures err == OK ==>
                && Walk(Graph(), rootDir, s, path) == x && Short(path) && Holding(c, x, held, refs)
                && Clean(ic.table[..], c, x, refs)
      ensures err in {OK, ENOENT, ENOTDIR, ENOMEM, ENAMETOOLONG}
      ensures err != OK ==> PathError(err, Graph(), refs, 1, ic.misses > old(ic.misses), rootDir, s, path)
      ensures err in {ENOENT, ENOTDIR, ENOMEM} ==> ic.refs == refs
      ensures err == ENAMETOOLONG ==>
                Leaked(Graph(), rootDir, s, path, refs, ic.refs) && x in refs && ic.refs == More(refs, x)
      ensures Fewer(old(ic.dirs.slots), ic.dirs.slots)
    {
      hide Follows, Orderly, Icore.Valid, TreeOf, Step, More, Walk, Short, Reached, Fewer, PathError, Crowded, Leaked,
           Holding, Clean, StillHeld;
      HoldingIs(start, s, held, refs);
      FollowsSame(ic.Buffers());
      FewerSame(ic.dirs.slots);
      c, x := start, s;
      ReachedEnd(Graph(), rootDir, s, path, s);
      var k := 0;
      while k < |path|
        invariant k <= |path| && c < MAXINODES && Valid() && Holding(c, x, held, refs)
        invariant Graph() == old(Graph()) && Follows(old(ic.Buffers()), ic.Buffers())
        invariant Reached(Graph(), rootDir, s, path, k, x) && Clean(ic.table[..], c, x, refs)
        invariant Fewer(old(ic.dirs.slots), ic.dirs.slots)
      {
        HoldingIs(c, x, held, refs);
        if |path[k]| > NAME_MAX {
          WalkSticks(Graph(), refs, rootDir, s, path, k, x, ic.misses > old(ic.misses));
          return ENAMETOOLONG, c, x;
        }
        var n;
        ghost var y, b, slots := x, ic.Buffers(), ic.dirs.slots;
        err, n, y := Advance(c, path[k], x, held, refs);
        FewerBoth(old(ic.dirs.slots), slots, ic.dirs.slots);
        FollowsBoth(old(ic.Buffers()), b, ic.Buffers());
        if err != OK {
          WalkFails(Graph(), refs, rootDir, s, path, k, x, ic.misses > old(ic.misses), err);
          return;
        }
        ReachedNext(Graph(), rootDir, s, path, k, x);
        c, x := n, y;
        k := k + 1;
      }
      HoldingIs(c, x, held, refs);
      ReachedEnd(Graph(), rootDir, s, path, x);
      err := OK;
    }

    /** dir_traverse: all of the path, or with the last component left off, from curr->root or the
        current directory. A component that is too long leaves a reference behind. */
    method Traverse(start: nat, path: seq<string>) returns (err: Err, c: nat, ghost x: nat)
      requires Valid() && start < MAXINODES && ic.table[start].refcnt > 0 && forall i :: 0 <= i < |path| ==> Text(path[i])
      modifies ic, ic.table, ic.dirs
      ensures Valid() && Graph() == old(Graph()) && StillHeld(old(ic.table[..]), ic.table[..])
      ensures Follows(old(ic.Buffers()), ic.Buffers())
      ensures err == OK ==>
                && Walk(Graph(), rootDir, old(ic.table[start]).ino, path) == x && Short(path)
                && Holding(c, x, old(ic.table[..]), old(ic.refs)) && Clean(ic.table[..], c, x, old(ic.refs))
      ensures err in {OK, ENOENT, ENOTDIR, ENOMEM, ENAMETOOLONG}
      ensures err != OK ==>
                PathError(err, Graph(), old(ic.refs), 1, ic.misses > old(ic.misses), rootDir, old(ic.table[start]).ino, path)
      ensures err in {ENOENT, ENOTDIR, ENOMEM} ==> ic.refs == old(ic.refs)
      ensures err == ENAMETOOLONG ==>
                && Leaked(Graph(), rootDir, old(ic.table[start]).ino, path, old(ic.refs), ic.refs)
                && x in old(ic.refs) && ic.refs == More(old(ic.refs), x)
      ensures err != OK ==> Keeps(old(ic.refs), ic.refs)
      ensures Fewer(old(ic.dirs.slots), ic.dirs.slots)
    {
      hide Follows, Orderly, Icore.Valid, TreeOf, More, Walk, Short, PathError, Crowded, Leaked, Keeps, Fewer;
      Inside(start);
      ghost var s, held, refs := ic.table[start].ino, ic.table[..], ic.refs;
      MoreKept(Graph(), ic.refs, root, s);
      assert Holds(held, start, s);
      ic.Ref(start);
      err, c, x := Follow(start, path, s, held, refs);
      if err != OK { LeakedKeeps(Graph(), rootDir, s, path, refs, ic.refs); }
    }

    /** The entry k of d, which names y, is cleared, and y has a link less. */
    method CutFile(c: nat, i: nat, k: nat, ghost d: nat, ghost n: string, ghost y: nat)
      requires Valid() && c < MAXINODES && i < MAXINODES && Holds(ic.table[..], c, d) && Holds(ic.table[..], i, y)
      requires IsDir(Graph(), d) && n in Graph()[d].dir && Graph()[d].dir[n] == y && !IsDir(Graph(), y)
      requires d in ic.dirs.slots && k < |ic.dirs.slots[d]| && Live(ic.dirs.slots[d], k, n)
      modifies ic`nodes, ic.table, ic.dirs
      ensures Valid() && StillHeld(old(ic.table[..]), ic.table[..])
      ensures y in old(Graph()) && old(Graph())[y].nlink > 0 && Graph() == Unlink(old(Graph()), d, n)
    {
      hide Orderly, Icore.Valid, IsDir, TreeOf, Unlink, Live;
      Inside(c);
      Inside(i);
      GraphAt(ic.nodes, ic.dirs.binds, d);
      GraphAt(ic.nodes, ic.dirs.binds, y);
      UnlinkOrderly(Graph(), ic.refs, root, d, n);
      TreeCut(ic.nodes, ic.dirs.binds, d, n, y);
      ghost var nodes, binds := ic.nodes, ic.dirs.binds;
      var s := ic.table[i];
      assert s.ino == y && s.d == nodes[y] && !s.d.isDir;
      ic.Set(i, Dnode(s.d.isDir, s.d.nlink - 1), 2);
      ic.Clear(ic.table[c].ino, k, n);
      assert ic.nodes == nodes[y := Dnode(false, nodes[y].nlink - 1)];
      assert ic.dirs.binds == binds[d := binds[d] - {n}];
    }

    /** The first of two calls of inode_put; the inode stays. */
    method PutFirst(c: nat, ghost d: nat, ghost y: nat, ghost held: seq<Slot>, ghost refs: map<nat, nat>)
      requires Valid() && c < MAXINODES && Holds(ic.table[..], c, d)
      requires d in refs && y in refs && ic.refs == More(More(refs, d), y)
      requires StillHeld(held, ic.table[..]) && HeldCounted(held, refs) && RootHeld(held)
      requires d in Graph() && (Graph()[d].nlink > 0 || refs[d] > 0)
      modifies ic, ic.table, ic.dirs
      ensures Ready() && StillHeld(held, ic.table[..]) && ic.refs == More(refs, y) && Follows(old(ic.Buffers()), ic.Buffers())
      ensures !ic.lost ==> Valid() && Graph() == old(Graph())
      ensures forall i :: 0 <= i < MAXINODES && Holds(old(ic.table[..]), i, y) ==> Holds(ic.table[..], i, y)
    {
      hide Follows, Orderly, Icore.Valid, TreeOf, More, PutRefs, PutNodes, Sound;
      Inside(c);
      StepRefs(Graph(), refs, d, y, Graph()[d].nlink);
      ghost var mid := ic.table[..];
      var e := Put(c, d);
      HeldOn(held, mid, ic.table[..], c, d);
    }

    /** The two calls of inode_put at the end of a call, for an inode d that stays and an inode y. */
    method Release(c: nat, i: nat, ghost d: nat, ghost y: nat, ghost held: seq<Slot>, ghost refs: map<nat, nat>)
      requires Valid() && c < MAXINODES && i < MAXINODES && Holds(ic.table[..], c, d) && Holds(ic.table[..], i, y)
      requires d in refs && y in refs && ic.refs == More(More(refs, d), y)
      requires StillHeld(held, ic.table[..]) && HeldCounted(held, refs) && RootHeld(held)
      requires d in Graph() && y in Graph() && (Graph()[d].nlink > 0 || refs[d] > 0)
      modifies ic, ic.table, ic.dirs
      ensures Ready() && StillHeld(held, ic.table[..]) && Follows(old(ic.Buffers()), ic.Buffers())
      ensures !ic.lost ==> Valid() && Graph() == Settled(old(Graph()), refs, y) && ic.refs == SettledRefs(old(Graph()), refs, y)
    {
      hide Follows, Orderly, Icore.Valid, TreeOf, More, PutRefs, PutNodes, Settled, SettledRefs, Sound;
      PutFirst(c, d, y, held, refs);
      ghost var b := ic.Buffers();
      PutLater(i, y, held, refs);
      FollowsBoth(old(ic.Buffers()), b, ic.Buffers());
    }

    /** The second of two. */
    method PutLater(i: nat, ghost y: nat, ghost held: seq<Slot>, ghost refs: map<nat, nat>)
      requires Ready() && i < MAXINODES && Holds(ic.table[..], i, y) && y in refs && ic.refs == More(refs, y)
      requires StillHeld(held, ic.table[..]) && HeldCounted(held, refs) && RootHeld(held)
      requires !ic.lost ==> Valid()
      modifies ic, ic.table, ic.dirs
      ensures Ready() && StillHeld(held, ic.table[..]) && Follows(old(ic.Buffers()), ic.Buffers()) && y in old(Graph())
      ensures old(ic.lost) ==> ic.lost
      ensures !ic.lost ==>
                Valid() && Graph() == Settled(old(Graph()), refs, y) && ic.refs == SettledRefs(old(Graph()), refs, y)
    {
      hide Follows, Orderly, Icore.Valid, TreeOf, More, PutRefs, PutNodes, Settled, SettledRefs, Sound;
      Inside(i);
      PutSettles(Graph(), refs, y);
      ghost var mid := ic.table[..];
      var e := Put(i, y);
      HeldOn(held, mid, ic.table[..], i, y);
    }

    /** The changes of the two inodes when a directory goes. */
    method Retire(c: nat, i: nat, ghost d: nat, ghost y: nat)
      requires ic.Valid() && ic.table.Length == MAXINODES && c < MAXINODES && i < MAXINODES
      requires Holds(ic.table[..], c, d) && Holds(ic.table[..], i, y) && d != y
      requires d in ic.nodes && y in ic.nodes && ic.nodes[d] == ic.table[c].d && ic.nodes[y] == ic.table[i].d
      requires ic.nodes[d].nlink > 0 && ic.nodes[y].nlink > 1
      modifies ic`nodes, ic.table
      ensures ic.Valid() && StillHeld(old(ic.table[..]), ic.table[..])
      ensures ic.nodes == old(ic.nodes)[y := Dnode(false, old(ic.nodes)[y].nlink - 2)]
                                       [d := Dnode(old(ic.nodes)[d].isDir, old(ic.nodes)[d].nlink - 1)]
    {
      hide Icore.Valid;
      var s, t := ic.table[i].d, ic.table[c].d;
      ic.Set(i, Dnode(false, s.nlink - 1), 2);
      ic.Set(c, Dnode(t.isDir, t.nlink - 1), 2);
      ic.Set(i, Dnode(false, s.nlink - 2), 2);
    }

    /** An empty directory y loses its mode, its own dot and the entry k of d; d loses the "..". */
    method CutDir(c: nat, i: nat, k: nat, ghost d: nat, ghost n: string, ghost y: nat)
      requires Valid() && c < MAXINODES && i < MAXINODES && Holds(ic.table[..], c, d) && Holds(ic.table[..], i, y)
      requires Under(Graph(), d, n, y) && Empty(Graph(), y)
      requires d in ic.dirs.slots && k < |ic.dirs.slots[d]| && Live(ic.dirs.slots[d], k, n)
      modifies ic`nodes, ic.table, ic.dirs
      ensures Valid() && StillHeld(old(ic.table[..]), ic.table[..])
      ensures d in old(Graph()) && n in old(Graph())[d].dir && old(Graph())[d].dir[n] == y && y in old(Graph())
      ensures y != d && old(Graph())[d].nlink > 0 && old(Graph())[y].nlink == 2 && Graph() == Rmdir(old(Graph()), d, n)
    {
      hide Orderly, Icore.Valid, TreeOf, Rmdir, Live, Empty;
      Inside(c);
      Inside(i);
      GraphAt(ic.nodes, ic.dirs.binds, d);
      EmptyIsDir(Graph(), y);
      GraphAt(ic.nodes, ic.dirs.binds, y);
      RmdirOrderly(Graph(), ic.refs, root, d, n, y);
      TreeCutDir(ic.nodes, ic.dirs.binds, d, n, y);
      ghost var nodes, binds := ic.nodes, ic.dirs.binds;
      var s, t := ic.table[i].d, ic.table[c].d;
      assert s == nodes[y] && t == nodes[d] && s.nlink == 2 && t.nlink > 0 && t.isDir && y != d;
      Retire(c, i, d, y);
      ic.Clear(ic.table[c].ino, k, n);
      assert ic.nodes == nodes[y := Dnode(false, nodes[y].nlink - 2)][d := Dnode(true, nodes[d].nlink - 1)];
      assert ic.dirs.binds == binds[d := binds[d] - {n}];
    }

    lemma EmptyIsDir(t: Tree, y: nat)
      requires Empty(t, y)
      ensures IsDir(t, y)
    {
    }

    /** The middle of do_unlink: what kind of inode the entry names decides what happens. */
    method Cut(c: nat, i: nat, k: nat, spec: nat, ghost d: nat, ghost n: string, ghost y: nat) returns (err: Err)
      requires Valid() && c < MAXINODES && i < MAXINODES && Holds(ic.table[..], c, d) && Holds(ic.table[..], i, y)
      requires IsDir(Graph(), d) && n in Graph()[d].dir && Graph()[d].dir[n] == y && y in Graph() && spec < 2
      requires d in ic.dirs.slots && k < |ic.dirs.slots[d]| && Live(ic.dirs.slots[d], k, n)
      requires spec == 1 ==> Removable(Graph(), d, n)
      modifies ic`nodes, ic.table, ic.dirs
      ensures Valid() && StillHeld(old(ic.table[..]), ic.table[..])
      ensures err == OK ==> IsCut(old(Graph()), Graph(), d, n, y) && (spec == 0 ==> !IsDir(old(Graph()), y))
      ensures err != OK ==> err == EISDIR && spec == 0 && IsDir(Graph(), y) && Graph() == old(Graph())
    {
      hide Orderly, Icore.Valid, TreeOf, Live, Rmdir, Unlink, Empty;
      Inside(i);
      GraphAt(ic.nodes, ic.dirs.binds, y);
      if ic.table[i].d.isDir {
        if spec == 0 { return EISDIR; }
        CutDir(c, i, k, d, n, y);
      } else {
        CutFile(c, i, k, d, n, y);
      }
      err := OK;
    }

    /** Holding entry c, of inode d, since a walk that found the references as given. */
    ghost predicate Holding(c: nat, d: nat, held: seq<Slot>, refs: map<nat, nat>)
      reads this, ic, ic.table, ic.dirs
    {
      && Valid() && c < MAXINODES && Holds(ic.table[..], c, d) && d in refs && ic.refs == More(refs, d)
      && d in Graph() && (Graph()[d].nlink > 0 || refs[d] > 0)
      && StillHeld(held, ic.table[..]) && HeldCounted(held, refs) && RootHeld(held)
    }

    ghost predicate RootHeld(held: seq<Slot>) {
      rootSlot < |held| && Holds(held, rootSlot, rootDir)
    }

    /** One call of inode_put that undoes the walk. */
    method PutBack(c: nat, ghost d: nat, ghost held: seq<Slot>, ghost refs: map<nat, nat>)
      requires Holding(c, d, held, refs)
      modifies ic, ic.table, ic.dirs
      ensures Ready() && StillHeld(held, ic.table[..]) && ic.refs == refs && Follows(old(ic.Buffers()), ic.Buffers())
      ensures !ic.lost ==> Valid() && Graph() == old(Graph())
      ensures old(Clean(ic.table[..], c, d, refs)) ==> !ic.lost
    {
      hide Follows, Orderly, Icore.Valid, TreeOf, More, PutNodes, PutRefs, Sound;
      Inside(c);
      StepBack(Graph(), refs, d, Graph()[d].nlink);
      ghost var mid := ic.table[..];
      var e := Put(c, d);
      HeldOn(held, mid, ic.table[..], c, d);
    }

    /** The start of do_unlink once the directory is found: the entry, and the inode it names. */
    method Find(c: nat, name: string, ghost d: nat, ghost held: seq<Slot>, ghost refs: map<nat, nat>)
      returns (err: Err, i: nat, k: nat, ghost y: nat)
      requires Holding(c, d, held, refs) && Text(name)
      modifies ic, ic.table, ic.dirs
      ensures Ready() && StillHeld(held, ic.table[..]) && Follows(old(ic.Buffers()), ic.Buffers())
      ensures err == OK || !ic.lost ==> Valid() && Graph() == old(Graph())
      ensures err in {OK, ENOTDIR, ENOENT, ENOMEM} && (err == ENOMEM ==> NoRoom(refs, 1, ic.misses > old(ic.misses)))
      ensures err == ENOTDIR <==> !IsDir(old(Graph()), d)
      ensures err == ENOENT ==> IsDir(old(Graph()), d) && Clip(name) !in old(Graph())[d].dir
      ensures err != OK ==> ic.refs == refs
      ensures err == OK ==>
                && Clip(name) in Graph()[d].dir && Graph()[d].dir[Clip(name)] == y && y in refs && y in Graph()
                && i < MAXINODES && Holds(ic.table[..], i, y) && Holds(ic.table[..], c, d) && ic.refs == More(More(refs, d), y)
                && d in ic.dirs.slots && k < |ic.dirs.slots[d]| && Live(ic.dirs.slots[d], k, Clip(name))
    {
      hide Follows, Orderly, Icore.Valid, TreeOf, Live, More, Clip, Sound, Crowded, SameDirt, IsDir, HeldCounted,
           Names.RootHeld;
      Inside(c);
      i, k, y := 0, 0, 0;
      FollowsSame(ic.Buffers());
      GraphAt(ic.nodes, ic.dirs.binds, d);
      err := ENOTDIR;
      var s := ic.table[c];
      if s.d.isDir {
        NamedMore(ic.nodes, ic.dirs.binds, ic.refs, root, d, Clip(name));
        err, i, k := ic.GetNamed(s.ino, name);
        if err == ENOMEM { NoRoomMore(refs, d, 0, ic.misses > old(ic.misses)); }
      }
      if err == OK {
        y := ic.dirs.binds[d][Clip(name)];
      } else {
        ghost var b := ic.Buffers();
        PutBack(c, d, held, refs);
        FollowsBoth(old(ic.Buffers()), b, ic.Buffers());
      }
    }

    /** do_unlink once the directory is found; spec 1 is for the end of rmdir. */
    method UnlinkIn(c: nat, name: string, spec: nat, ghost d: nat, ghost held: seq<Slot>, ghost refs: map<nat, nat>)
      returns (err: Err, ghost y: nat, ghost g: Tree)
      requires Holding(c, d, held, refs) && Text(name) && spec < 2
      requires spec == 1 ==> Removable(Graph(), d, Clip(name))
      modifies ic, ic.table, ic.dirs
      ensures Ready() && StillHeld(held, ic.table[..]) && Follows(old(ic.Buffers()), ic.Buffers()) && (!ic.lost ==> Valid())
      ensures err in {OK, ENOTDIR, ENOENT, ENOMEM, EISDIR}
      ensures err != OK ==> EntryError(err, old(Graph()), refs, ic.misses > old(ic.misses), d, name)
      ensures err == ENOTDIR <==> !IsDir(old(Graph()), d)
      ensures err == EISDIR ==> spec == 0
      ensures err != OK && !ic.lost ==> Graph() == old(Graph()) && ic.refs == refs
      ensures err == OK ==> IsCut(old(Graph()), g, d, Clip(name), y) && y in refs && (spec == 0 ==> !IsDir(old(Graph()), y))
      ensures err == OK && !ic.lost ==> Graph() == Settled(g, refs, y) && ic.refs == SettledRefs(g, refs, y)
    {
      hide Follows, Orderly, Icore.Valid, TreeOf, Live, More, Clip, Settled, SettledRefs, Empty, IsCut, Sound, EntryError,
           Crowded;
      var i, k;
      g := Graph();
      err, i, k, y := Find(c, name, d, held, refs);
      if err == OK {
        ghost var b, was := ic.Buffers(), g;
        err, g := CutAway(c, i, k, spec, d, Clip(name), y, held, refs);
        FollowsBoth(old(ic.Buffers()), b, ic.Buffers());
        assert Named(was, d, Clip(name)) == y;
      }
      if err != OK { EntryFails(err, old(Graph()), refs, ic.misses > old(ic.misses), d, name); }
    }

    /** What do_unlink does once it has both inodes. */
    method CutAway(c: nat, i: nat, k: nat, spec: nat, ghost d: nat, ghost n: string, ghost y: nat,
                   ghost held: seq<Slot>, ghost refs: map<nat, nat>)
      returns (err: Err, ghost g: Tree)
      requires Valid() && c < MAXINODES && i < MAXINODES && Holds(ic.table[..], c, d) && Holds(ic.table[..], i, y)
      requires IsDir(Graph(), d) && n in Graph()[d].dir && Graph()[d].dir[n] == y && y in Graph() && spec < 2
      requires d in ic.dirs.slots && k < |ic.dirs.slots[d]| && Live(ic.dirs.slots[d], k, n)
      requires spec == 1 ==> Removable(Graph(), d, n)
      requires d in refs && y in refs && ic.refs == More(More(refs, d), y)
      requires StillHeld(held, ic.table[..]) && HeldCounted(held, refs) && RootHeld(held)
      modifies ic, ic.table, ic.dirs
      ensures Ready() && StillHeld(held, ic.table[..]) && Follows(old(ic.Buffers()), ic.Buffers()) && (!ic.lost ==> Valid())
      ensures err == OK ==> IsCut(old(Graph()), g, d, n, y) && (spec == 0 ==> !IsDir(old(Graph()), y))
      ensures err != OK ==> err == EISDIR && spec == 0 && IsDir(old(Graph()), y)
      ensures err != OK && !ic.lost ==> Graph() == old(Graph()) && ic.refs == refs
      ensures err == OK && !ic.lost ==> Graph() == Settled(g, refs, y) && ic.refs == SettledRefs(g, refs, y)
    {
      hide Follows, Orderly, Icore.Valid, TreeOf, Live, More, Settled, SettledRefs, Empty, IsCut, Sound, StillHeld;
      ghost var was, mid := Graph(), ic.table[..];
      err := Cut(c, i, k, spec, d, n, y);
      StillAt(mid, ic.table[..], c, d);
      StillAt(mid, ic.table[..], i, y);
      HeldThrough(held, mid, ic.table[..]);
      Inside(c);
      g := Graph();
      if err == OK { CutKeepsDir(was, g, d, n, y); } else { DirSettled(g, root, refs, y); }
      DirLinked(g, root, d);
      Release(c, i, d, y, held, refs);
    }

    /** sys_unlink: the entry goes, and with it the inode if that was its last link and nobody uses it. */
    method SysUnlink(start: nat, path: seq<string>, name: string)
      returns (err: Err, ghost d: nat, ghost y: nat, ghost g: Tree)
      requires Valid() && start < MAXINODES && ic.table[start].refcnt > 0
      requires Text(name) && forall i :: 0 <= i < |path| ==> Text(path[i])
      modifies ic, ic.table, ic.dirs
      ensures Ready() && StillHeld(old(ic.table[..]), ic.table[..]) && Follows(old(ic.Buffers()), ic.Buffers()) && (!ic.lost ==> Valid())
      ensures err != OK && !ic.lost ==> Graph() == old(Graph())
      ensures var s, missed := old(ic.table[start]).ino, ic.misses > old(ic.misses);
              && (err != OK ==>
                    || PathError(err, old(Graph()), old(ic.refs), 1, missed, rootDir, s, path)
                    || EntryError(err, old(Graph()), old(ic.refs), missed, Walk(old(Graph()), rootDir, s, path), name))
              && (err != OK && !ic.lost ==>
                    || ic.refs == old(ic.refs)
                    || (err == ENAMETOOLONG && Leaked(Graph(), rootDir, s, path, old(ic.refs), ic.refs)))
              && (err == OK ==>
                    && Walk(old(Graph()), rootDir, s, path) == d && IsCut(old(Graph()), g, d, Clip(name), y)
                    && y in old(ic.refs) && !IsDir(old(Graph()), y))
      ensures err == OK && !ic.lost ==> Graph() == Settled(g, old(ic.refs), y) && ic.refs == SettledRefs(g, old(ic.refs), y)
      ensures !ic.lost ==> Keeps(old(ic.refs), ic.refs)
    {
      hide Follows, Orderly, Icore.Valid, TreeOf, More, Clip, Settled, SettledRefs, IsCut, Sound, IsDir, Holding, Walk, Leaked,
           Crowded, Keeps;
      var c;
      ghost var held, refs := ic.table[..], ic.refs;
      y, g := 0, Graph();
      err, c, d := Traverse(start, path);
      if err != OK { return; }
      ghost var m, b, was := ic.misses, ic.Buffers(), Graph();
      err, y, g := UnlinkIn(c, name, 0, d, held, refs);
      FollowsBoth(old(ic.Buffers()), b, ic.Buffers());
      EntryErrorMore(err, was, refs, ic.misses > m, ic.misses > old(ic.misses), d, name);
      if err == OK {
        CutKeepsDir(was, g, d, Clip(name), y);
        SettledKeeps(g, refs, y);
      } else {
        KeepsSame(refs);
      }
    }

    /** The changes of the two inodes when they may be one, and of the directory. */
    method RetireUp(c: nat, i: nat, k: nat, ghost d: nat, ghost y: nat)
      requires ic.Valid() && ic.table.Length == MAXINODES && c < MAXINODES && i < MAXINODES
      requires Holds(ic.table[..], c, d) && Holds(ic.table[..], i, y) && (c == i <==> d == y)
      requires d in ic.nodes && y in ic.nodes && ic.nodes[d] == ic.table[c].d && ic.nodes[y] == ic.table[i].d
      requires d in ic.dirs.slots && k < |ic.dirs.slots[d]| && Live(ic.dirs.slots[d], k, "..")
      modifies ic`nodes, ic.table, ic.dirs
      ensures ic.Valid() && StillHeld(old(ic.table[..]), ic.table[..]) && d in old(ic.dirs.binds)
      ensures ic.dirs.binds == old(ic.dirs.binds)[d := old(ic.dirs.binds)[d] - {".."}]
      ensures var was := old(ic.nodes);
              ic.nodes == if d == y then was[d := Dnode(false, Dec(Dec(Dec(was[d].nlink))))]
                          else was[y := Dnode(false, Dec(Dec(was[y].nlink)))][d := Dnode(was[d].isDir, Dec(was[d].nlink))]
    {
      hide Icore.Valid, Dec, Live;
      ghost var was := ic.nodes;
      var s := ic.table[i].d;
      ic.Set(i, Dnode(false, Dec(s.nlink)), 2);
      ic.Entry(c);
      var t := ic.table[c].d;
      ic.Set(c, Dnode(t.isDir, Dec(t.nlink)), 2);
      ic.Entry(i);
      s := ic.table[i].d;
      ic.Set(i, Dnode(false, Dec(s.nlink)), 2);
      ic.Clear(ic.table[c].ino, k, "..");
    }

    /** do_unlink on the entry "..", in slot k, of an empty root directory d: what the entry names becomes
        a file, and d loses the entry. */
    method CutUp(c: nat, i: nat, k: nat, ghost d: nat, ghost y: nat)
      requires Valid() && c < MAXINODES && i < MAXINODES && Holds(ic.table[..], c, d) && Holds(ic.table[..], i, y)
      requires IsDir(Graph(), d) && (d == root ==> Empty(Graph(), d))
      requires ".." in Graph()[d].dir && Graph()[d].dir[".."] == y
      requires d in ic.dirs.slots && k < |ic.dirs.slots[d]| && Live(ic.dirs.slots[d], k, "..")
      modifies ic`nodes, ic.table, ic.dirs
      ensures Ready() && StillHeld(old(ic.table[..]), ic.table[..])
      ensures d in Graph() && y in Graph() && Graph()[d].nlink > 0 && Graph()[y].nlink > 0
      ensures UpDone(old(Graph()), Graph(), d)
    {
      hide Orderly, Icore.Valid, TreeOf, Sound, UpDone, Empty, IsDir, Live, StillHeld, HeldCounted;
      Inside(c);
      Inside(i);
      OneEntry(c, i);
      UpLinks(Graph(), root, d);
      GraphAt(ic.nodes, ic.dirs.binds, d);
      GraphAt(ic.nodes, ic.dirs.binds, y);
      ghost var nodes, binds, was := ic.nodes, ic.dirs.binds, ic.table[..];
      TreeUp(nodes, binds, d, y, if d == y then 0xFFFF else nodes[y].nlink - 2, nodes[d].nlink - 1);
      RetireUp(c, i, k, d, y);
      StillAt(was, ic.table[..], c, d);
      StillAt(was, ic.table[..], rootSlot, rootDir);
      Inside(c);
      GraphAt(ic.nodes, ic.dirs.binds, d);
      GraphAt(ic.nodes, ic.dirs.binds, y);
    }

    /** The two calls of inode_put after that; both inodes have links left. */
    method PutUp(c: nat, i: nat, ghost d: nat, ghost y: nat, ghost held: seq<Slot>, ghost refs: map<nat, nat>)
      requires Ready() && !ic.lost && c < MAXINODES && i < MAXINODES && Holds(ic.table[..], c, d) && Holds(ic.table[..], i, y)
      requires d in refs && y in refs && ic.refs == More(More(refs, d), y)
      requires StillHeld(held, ic.table[..]) && HeldCounted(held, refs) && RootHeld(held)
      requires d in Graph() && y in Graph() && Graph()[d].nlink > 0 && Graph()[y].nlink > 0
      modifies ic, ic.table, ic.dirs
      ensures Ready() && StillHeld(held, ic.table[..]) && Follows(old(ic.Buffers()), ic.Buffers())
      ensures !ic.lost ==> Graph() == old(Graph()) && ic.refs == refs
    {
      hide Follows, Orderly, Icore.Valid, TreeOf, More, PutRefs, PutNodes, Sound;
      Inside(c);
      StepRefs(Graph(), refs, d, y, Graph()[d].nlink);
      ghost var mid, g := ic.table[..], Graph();
      var e := Put(c, d);
      HeldOn(held, mid, ic.table[..], c, d);
      Inside(i);
      StepBack(g, refs, y, g[y].nlink);
      mid := ic.table[..];
      ghost var b := ic.Buffers();
      e := Put(i, y);
      FollowsBoth(old(ic.Buffers()), b, ic.Buffers());
      HeldOn(held, mid, ic.table[..], i, y);
    }

    /** The second half of do_rmdir on "..", which is do_unlink like any other, where it found what ".."
        leads to empty. */
    method UnlinkUp(c: nat, ghost d: nat, ghost held: seq<Slot>, ghost refs: map<nat, nat>) returns (err: Err)
      requires Holding(c, d, held, refs) && IsDir(Graph(), d) && (d == root ==> Empty(Graph(), d))
      modifies ic, ic.table, ic.dirs
      ensures Ready() && StillHeld(held, ic.table[..]) && Follows(old(ic.Buffers()), ic.Buffers())
      ensures err != OK ==> EntryError(err, old(Graph()), refs, ic.misses > old(ic.misses), d, "..")
      ensures !ic.lost ==> ic.refs == refs
      ensures err != OK && !ic.lost ==> Valid() && Graph() == old(Graph())
      ensures err == OK && !ic.lost ==> UpDone(old(Graph()), Graph(), d)
    {
      hide Follows, Orderly, Icore.Valid, TreeOf, Live, More, Sound, UpDone, Empty, EntryError, Crowded, IsDir;
      var i, k;
      ghost var y, g := 0, Graph();
      err, i, k, y := Find(c, "..", d, held, refs);
      if err != OK {
        EntryFails(err, g, refs, ic.misses > old(ic.misses), d, "..");
        return;
      }
      ghost var mid, b := ic.table[..], ic.Buffers();
      CutUp(c, i, k, d, y);
      HeldThrough(held, mid, ic.table[..]);
      StillAt(mid, ic.table[..], c, d);
      StillAt(mid, ic.table[..], i, y);
      PutUp(c, i, d, y, held, refs);
      FollowsBoth(old(ic.Buffers()), b, ic.Buffers());
    }

    /** sys_rmdir. With the name ".." it goes through, which up tells, only from an empty root directory,
        of the process or of the file system, and then the graph is in order no more. */
    method SysRmdir(start: nat, path: seq<string>, name: string)
      returns (err: Err, up: bool, ghost d: nat, ghost y: nat, ghost g: Tree)
      requires Valid() && start < MAXINODES && ic.table[start].refcnt > 0
      requires Text(name) && forall i :: 0 <= i < |path| ==> Text(path[i])
      modifies ic, ic.table, ic.dirs
      ensures Ready() && StillHeld(old(ic.table[..]), ic.table[..]) && Follows(old(ic.Buffers()), ic.Buffers())
      ensures up <==> err == OK && name == ".."
      ensures !ic.lost ==> if up then !Sound(Graph(), root) else Valid()
      ensures err != OK && !ic.lost ==> Graph() == old(Graph())
      ensures var t, s, missed := old(Graph()), old(ic.table[start]).ino, ic.misses > old(ic.misses);
              && (err != OK ==>
                    || (err == EPERM && name == ".")
                    || EmptyError(err, t, old(ic.refs), missed, rootDir, s, path + [name])
                    || PathError(err, t, old(ic.refs), 1, missed, rootDir, s, path)
                    || EntryError(err, t, old(ic.refs), missed, Walk(t, rootDir, s, path), name))
              && (err != OK && !ic.lost ==>
                    || ic.refs == old(ic.refs)
                    || (err == ENAMETOOLONG && Leaked(t, rootDir, s, path + [name], old(ic.refs), ic.refs)))
              && (err == OK ==> Walk(t, rootDir, s, path) == d)
              && (err == OK && !up ==> IsCut(t, g, d, name, y) && y in old(ic.refs) && Empty(t, y))
              && (up ==> (d == rootDir || d == root) && Empty(t, d))
      ensures err == OK && !up && !ic.lost ==>
                Graph() == Settled(g, old(ic.refs), y) && ic.refs == SettledRefs(g, old(ic.refs), y)
      ensures up && !ic.lost ==> UpDone(old(Graph()), Graph(), d) && ic.refs == old(ic.refs)
      ensures !ic.lost ==> Keeps(old(ic.refs), ic.refs)
    {
      hide Follows, Orderly, Icore.Valid, TreeOf, More, Clip, Settled, SettledRefs, IsCut, Sound, IsDir, Holding, Walk, Leaked,
           Crowded, EmptyError, Stuck, Keeps, Empty, UpDone;
      up, d, y, g := false, 0, 0, Graph();
      KeepsSame(ic.refs);
      FollowsSame(ic.Buffers());
      if name == "." { return EPERM, up, d, y, g; }
      ghost var s, refs, was := ic.table[start].ino, ic.refs, Graph();
      assert Holds(ic.table[..], start, s);
      err := CheckEmpty(start, path + [name]);
      if err != OK {
        LeakedKeeps(was, rootDir, s, path + [name], refs, ic.refs);
        return;
      }
      assert |(path + [name])[|path|]| <= NAME_MAX;
      ShortPath(path, name);
      ShortNotStuck(was, rootDir, s, path);
      ghost var held, m, b := ic.table[..], ic.misses, ic.Buffers();
      OrderlySound(was, refs, root);
      var c;
      err, c, d := Traverse(start, path);
      FollowsBoth(old(ic.Buffers()), b, ic.Buffers());
      if err != OK {
        PathErrorMore(err, was, refs, 1, ic.misses > m, ic.misses > old(ic.misses), rootDir, s, path);
        return;
      }
      m, b := ic.misses, ic.Buffers();
      if name == ".." {
        UpEmpty(was, root, rootDir, s, path, d);
        err := UnlinkUp(c, d, held, refs);
        up := err == OK;
        if up && !ic.lost { UpDoneUnsound(was, Graph(), root, d); }
      } else {
        EmptyEntry(was, ic.refs, root, rootDir, s, path, name, d);
        err, y, g := UnlinkIn(c, name, 1, d, held, refs);
        if err == OK {
          CutKeepsDir(was, g, d, name, y);
          SettledKeeps(g, refs, y);
        }
      }
      FollowsBoth(old(ic.Buffers()), b, ic.Buffers());
      EntryErrorMore(err, was, refs, ic.misses > m, ic.misses > old(ic.misses), d, name);
    }

    /** The first half of do_rmdir. */
    method CheckEmpty(start: nat, path: seq<string>) returns (err: Err)
      requires Valid() && start < MAXINODES && ic.table[start].refcnt > 0
      requires forall i :: 0 <= i < |path| ==> Text(path[i])
      modifies ic, ic.table, ic.dirs
      ensures Valid() && StillHeld(old(ic.table[..]), ic.table[..]) && Follows(old(ic.Buffers()), ic.Buffers())
      ensures Graph() == old(Graph())
      ensures var s := old(ic.table[start]).ino;
              && (err != ENAMETOOLONG ==> ic.refs == old(ic.refs))
              && (err == ENAMETOOLONG ==> Leaked(Graph(), rootDir, s, path, old(ic.refs), ic.refs))
              && (err != OK ==> EmptyError(err, Graph(), old(ic.refs), ic.misses > old(ic.misses), rootDir, s, path))
              && (err == OK ==> Short(path) && Empty(Graph(), Walk(Graph(), rootDir, s, path)))
    {
      hide Follows, Orderly, Icore.Valid, TreeOf, More, Sound, Walk, HeldCounted, Leaked, Crowded, Stuck, Clean;
      ghost var held, refs := ic.table[..], ic.refs;
      var i;
      ghost var x;
      err, i, x := Traverse(start, path);
      if err != OK { return; }
      ghost var m, b := ic.misses, ic.Buffers();
      err := EmptyAt(i, x, held, refs);
      FollowsBoth(old(ic.Buffers()), b, ic.Buffers());
    }

    /** The same for the inode that the path leads to. */
    method EmptyAt(i: nat, ghost x: nat, ghost held: seq<Slot>, ghost refs: map<nat, nat>) returns (err: Err)
      requires Holding(i, x, held, refs) && Clean(ic.table[..], i, x, refs)
      modifies ic, ic.table, ic.dirs
      ensures Valid() && StillHeld(held, ic.table[..]) && Follows(old(ic.Buffers()), ic.Buffers())
      ensures Graph() == old(Graph()) && ic.refs == refs
      ensures match err
              case OK => Empty(Graph(), x)
              case ENOTDIR => !IsDir(Graph(), x)
              case ENOTEMPTY => IsDir(Graph(), x) && !Empty(Graph(), x)
              case ENOMEM => ic.misses > old(ic.misses)
              case _ => false
    {
      hide Follows, Orderly, Icore.Valid, TreeOf, More, Sound, HeldCounted, Clean;
      Inside(i);
      GraphAt(ic.nodes, ic.dirs.binds, x);
      FollowsSame(ic.Buffers());
      var s := ic.table[i];
      err := ENOTDIR;
      if s.d.isDir { err := ic.IsEmpty(s.ino); }
      ghost var b := ic.Buffers();
      PutBack(i, x, held, refs);
      FollowsBoth(old(ic.Buffers()), b, ic.Buffers());
    }

    /** dir_creat for an inode that is no directory, and the count that goes with it. */
    method Enroll(c: nat, i: nat, name: string, room: bool, ghost d: nat, ghost x: nat) returns (err: Err)
      requires Valid() && c < MAXINODES && i < MAXINODES && Holds(ic.table[..], c, d) && Holds(ic.table[..], i, x)
      requires !IsDir(Graph(), x) && Text(name)
      modifies ic`nodes, ic`answers, ic`misses, ic.table, ic.dirs
      ensures Valid() && StillHeld(old(ic.table[..]), ic.table[..]) && Follows(old(ic.Buffers()), ic.Buffers())
      ensures d in old(Graph()) && x in old(Graph()) && err !in {EMLINK, EISDIR}
      ensures err == OK ==> IsDir(old(Graph()), d) && name !in old(Graph())[d].dir && 0 < |name| <= namlen
      ensures err != OK ==> NameError(err, old(Graph()), d, name, namlen, room, ic.misses > old(ic.misses))
      ensures err == ENOSPC ==> Packed(old(ic.dirs.slots), d)
      ensures Graph() == if err == OK then Link(old(Graph()), d, name, x) else old(Graph())
    {
      hide Follows, Orderly, Icore.Valid, TreeOf, Link, Bind, Sound, FirstFree, Packed, OnlyAt, LivesOn;
      Inside(c);
      Inside(i);
      GraphAt(ic.nodes, ic.dirs.binds, d);
      GraphAt(ic.nodes, ic.dirs.binds, x);
      ghost var nodes, binds := ic.nodes, ic.dirs.binds;
      var s := ic.table[i];
      assert s.d == nodes[x] && s.ino == x && !s.d.isDir;
      err := ic.Creat(c, name, s.ino, namlen, room);
      if err == OK {
        LinkOrderly(TreeOf(nodes, binds), ic.refs, root, d, name, x);
        TreeLinked(nodes, binds, d, name, x);
        ic.Entry(i);
        ic.Set(i, Dnode(s.d.isDir, s.d.nlink + 1), 2);
        assert ic.nodes == nodes[x := Dnode(false, nodes[x].nlink + 1)];
        assert ic.dirs.binds == binds[d := Bind(binds[d], name, x)];
      }
    }

    /** The second half of do_link, for the inode x that the first path leads to. */
    method LinkTo(i: nat, start: nat, path: seq<string>, name: string, room: bool, ghost x: nat,
                  ghost held: seq<Slot>, ghost refs: map<nat, nat>)
      returns (err: Err, ghost d: nat)
      requires Holding(i, x, held, refs) && !IsDir(Graph(), x)
      requires Text(name) && start < MAXINODES && ic.table[start].refcnt > 0
      requires forall k :: 0 <= k < |path| ==> Text(path[k])
      modifies ic, ic.table, ic.dirs
      ensures Ready() && StillHeld(held, ic.table[..]) && Follows(old(ic.Buffers()), ic.Buffers()) && (!ic.lost ==> Valid())
      ensures err !in {EMLINK, EISDIR}
      ensures err != OK && !ic.lost ==> Graph() == old(Graph())
      ensures var s, missed := old(ic.table[start]).ino, ic.misses > old(ic.misses);
              && (err != OK ==>
                    || PathError(err, old(Graph()), refs, 2, missed, rootDir, s, path)
                    || NameErrorAt(err, old(Graph()), Walk(old(Graph()), rootDir, s, path), name, namlen, room, missed))
              && (err != OK && !ic.lost ==>
                    ic.refs == refs || (err == ENAMETOOLONG && Leaked(old(Graph()), rootDir, s, path, refs, ic.refs)))
              && (err == OK ==>
                    && Walk(old(Graph()), rootDir, s, path) == d && IsDir(old(Graph()), d)
                    && x in old(Graph()) && name !in old(Graph())[d].dir && 0 < |name| <= namlen)
      ensures err == ENOSPC ==> Packed(old(ic.dirs.slots), d)
      ensures err == OK && !ic.lost ==> Graph() == Link(old(Graph()), d, name, x) && ic.refs == refs
    {
      hide Follows, Orderly, Icore.Valid, TreeOf, Sound, Walk, HeldCounted, Link, Settled, SettledRefs, IsDir, Leaked, Crowded,
           Stuck, Clean, NameError, PathError, Packed, Fewer;
      var c;
      ghost var g, s := Graph(), ic.table[start].ino;
      err, c, d := Traverse(start, path);
      ghost var missed, b := ic.misses > old(ic.misses), ic.Buffers();
      if err == ENAMETOOLONG {
        PathErrorLess(err, g, refs, x, missed, rootDir, s, path);
        LeakedLess(g, rootDir, s, path, refs, x, d);
        PutFirst(i, x, d, held, refs);
        FollowsBoth(old(ic.Buffers()), b, ic.Buffers());
        PathErrorMore(err, g, refs, 2, missed, ic.misses > old(ic.misses), rootDir, s, path);
        return;
      }
      if err != OK {
        PathErrorLess(err, g, refs, x, missed, rootDir, s, path);
        PutBack(i, x, held, refs);
        FollowsBoth(old(ic.Buffers()), b, ic.Buffers());
        PathErrorMore(err, g, refs, 2, missed, ic.misses > old(ic.misses), rootDir, s, path);
        return;
      }
      ghost var m, slots := ic.misses, ic.dirs.slots;
      err := Enroll(c, i, name, room, d, x);
      if err == ENOSPC { PackedBefore(old(ic.dirs.slots), slots, d); }
      FollowsBoth(old(ic.Buffers()), b, ic.Buffers());
      b, missed := ic.Buffers(), ic.misses > m;
      if err == OK { LinkCounts(g, d, name, x); }
      HeldSettled(Graph(), refs, d);
      Release(i, c, x, d, held, refs);
      FollowsBoth(old(ic.Buffers()), b, ic.Buffers());
      NameErrorMore(err, g, d, name, namlen, room, missed, ic.misses > old(ic.misses));
    }

    /** sys_link with linkmode 0: a second name for what the first path leads to, if it is no
        directory. */
    method SysLink(start1: nat, path1: seq<string>, start2: nat, path2: seq<string>, name: string, room: bool)
      returns (err: Err, ghost x: nat, ghost d: nat)
      requires Valid() && Text(name) && start1 < MAXINODES && start2 < MAXINODES
      requires ic.table[start1].refcnt > 0 && ic.table[start2].refcnt > 0
      requires forall i :: 0 <= i < |path1| ==> Text(path1[i])
      requires forall i :: 0 <= i < |path2| ==> Text(path2[i])
      modifies ic, ic.table, ic.dirs
      ensures Ready() && StillHeld(old(ic.table[..]), ic.table[..]) && Follows(old(ic.Buffers()), ic.Buffers()) && (!ic.lost ==> Valid())
      ensures err != OK && !ic.lost ==> Graph() == old(Graph())
      ensures var s1, s2, missed := old(ic.table[start1]).ino, old(ic.table[start2]).ino, ic.misses > old(ic.misses);
              && (err != OK && !ic.lost ==>
                    || ic.refs == old(ic.refs)
                    || (err == ENAMETOOLONG && Leaked(old(Graph()), rootDir, s1, path1, old(ic.refs), ic.refs))
                    || (err == ENAMETOOLONG && Leaked(old(Graph()), rootDir, s2, path2, old(ic.refs), ic.refs)))
              && (err == OK ==>
                    && Walk(old(Graph()), rootDir, s1, path1) == x && x in old(Graph())
                    && Walk(old(Graph()), rootDir, s2, path2) == d && IsDir(old(Graph()), d)
                    && !IsDir(old(Graph()), x) && old(Graph())[x].nlink < NLINK_MAX
                    && name !in old(Graph())[d].dir && 0 < |name| <= namlen)
              && (err == EMLINK || err == EISDIR ==>
                    && Walk(old(Graph()), rootDir, s1, path1) == x && x in old(Graph())
                    && if err == EMLINK then old(Graph())[x].nlink >= NLINK_MAX else IsDir(old(Graph()), x))
              && (err !in {OK, EMLINK, EISDIR} ==>
                    || PathError(err, old(Graph()), old(ic.refs), 1, missed, rootDir, s1, path1)
                    || (Walk(old(Graph()), rootDir, s1, path1) == x && x in old(Graph())
                        && !IsDir(old(Graph()), x) && old(Graph())[x].nlink < NLINK_MAX
                        && (PathError(err, old(Graph()), old(ic.refs), 2, missed, rootDir, s2, path2)
                            || NameErrorAt(err, old(Graph()), Walk(old(Graph()), rootDir, s2, path2), name, namlen, room, missed))))
      ensures err == OK && !ic.lost ==> Graph() == Link(old(Graph()), d, name, x) && ic.refs == old(ic.refs)
      ensures err == ENOSPC ==> Packed(old(ic.dirs.slots), d)
      ensures !ic.lost ==> Keeps(old(ic.refs), ic.refs)
    {
      hide Follows, Orderly, Icore.Valid, TreeOf, More, Sound, Walk, HeldCounted, Link, Short, Leaked, Crowded, Stuck, Clean,
           NameError, PathError, Keeps, Packed, Fewer;
      x, d := 0, 0;
      KeepsSame(ic.refs);
      ghost var held, refs := ic.table[..], ic.refs;
      ghost var s2 := ic.table[start2].ino;
      assert Holds(held, start2, s2);
      var i;
      err, i, x := Traverse(start1, path1);
      if err != OK { return; }
      Inside(i);
      GraphAt(ic.nodes, ic.dirs.binds, x);
      ghost var m, b, g, slots := ic.misses, ic.Buffers(), Graph(), ic.dirs.slots;
      if ic.table[i].d.nlink >= NLINK_MAX || ic.table[i].d.isDir {
        err := if ic.table[i].d.nlink >= NLINK_MAX then EMLINK else EISDIR;
        PutBack(i, x, held, refs);
        FollowsBoth(old(ic.Buffers()), b, ic.Buffers());
        return;
      }
      err, d := LinkTo(i, start2, path2, name, room, x, held, refs);
      FollowsBoth(old(ic.Buffers()), b, ic.Buffers());
      if err == ENOSPC { PackedBefore(old(ic.dirs.slots), slots, d); }
      PathErrorMore(err, g, refs, 2, ic.misses > m, ic.misses > old(ic.misses), rootDir, s2, path2);
      NameErrorAtMore(err, g, Walk(g, rootDir, s2, path2), name, namlen, room, ic.misses > m,
                      ic.misses > old(ic.misses));
      if err != OK && !ic.lost { LeakedKeeps(g, rootDir, s2, path2, refs, ic.refs); }
    }

    /** alloc_inode, given the block found. */
    method NewInode(x: nat) returns (err: Err, i: nat)
      requires Valid() && x !in ic.used
      modifies ic, ic.table, ic.dirs
      ensures Valid() && StillHeld(old(ic.table[..]), ic.table[..]) && Follows(old(ic.Buffers()), ic.Buffers())
      ensures x !in old(Graph()) && x !in old(ic.refs)
      ensures err in {OK, ENOSPC, ENOMEM} && (err == ENOSPC <==> x == 0)
      ensures err == ENOMEM ==> NoRoom(old(ic.refs), 0, ic.misses > old(ic.misses))
      ensures err == OK ==>
                && i < MAXINODES && Holds(ic.table[..], i, x) && Graph() == Fresh(old(Graph()), x)
                && ic.refs == old(ic.refs)[x := 1]
      ensures OnlyAt(old(ic.dirs.slots), ic.dirs.slots, x)
      ensures err != OK ==> Graph() == old(Graph()) && ic.refs == old(ic.refs)
    {
      hide Follows, Orderly, Icore.Valid, TreeOf, Fresh, Crowded, OnlyAt;
      InUse();
      TreeFresh(ic.nodes, ic.dirs.binds, x);
      FreshOrderly(Graph(), ic.refs, root, x);
      err, i := ic.Alloc(x);
    }

    lemma InUse()
      requires Ready()
      ensures ic.nodes.Keys == ic.refs.Keys == ic.dirs.binds.Keys == ic.used && Graph().Keys == ic.used
    {
      Inside(rootSlot);
    }

    lemma UsedIs(x: nat)
      requires Ready()
      ensures x in ic.used <==> x in ic.refs
    {
      InUse();
    }

    /** A new file in the directory found, as do_mknod and do_open make it: the directory is let go of,
        and the file too unless it was made. */
    method MakeIn(c: nat, name: string, x: nat, room: bool, ghost d: nat, ghost held: seq<Slot>,
                  ghost refs: map<nat, nat>)
      returns (e: Err, i: nat)
      requires Holding(c, d, held, refs) && Text(name) && x !in ic.used
      modifies ic, ic.table, ic.dirs
      ensures Ready() && StillHeld(held, ic.table[..]) && Follows(old(ic.Buffers()), ic.Buffers()) && (!ic.lost ==> Valid())
      ensures x !in old(Graph()) && x !in refs
      ensures e != OK && !ic.lost ==> Graph() == old(Graph()) && ic.refs == refs
      ensures e != OK ==>
                || InodeError(e, refs, ic.misses > old(ic.misses), x)
                || NameError(e, old(Graph()), d, name, namlen, room, ic.misses > old(ic.misses))
      ensures e == OK ==>
                && IsDir(old(Graph()), d) && name !in old(Graph())[d].dir && 0 < |name| <= namlen
                && d in Fresh(old(Graph()), x) && x in Fresh(old(Graph()), x)
                && i < MAXINODES && Holds(ic.table[..], i, x) && ic.refs == refs[x := 1]
      ensures e == ENOSPC && x != 0 ==> Packed(old(ic.dirs.slots), d)
      ensures e == OK && !ic.lost ==> Graph() == Link(Fresh(old(Graph()), x), d, name, x)
    {
      hide Follows, Orderly, Icore.Valid, TreeOf, More, Sound, Link, Fresh, Settled, SettledRefs, IsDir, Crowded,
           NameError, Packed, OnlyAt;
      ghost var g := Graph();
      InUse();
      e, i := NewInode(x);
      ghost var missed, m, b := ic.misses > old(ic.misses), ic.misses, ic.Buffers();
      if e != OK {
        if e == ENOMEM { NoRoomMore(refs, d, 0, missed); }
        PutBack(c, d, held, refs);
        FollowsBoth(old(ic.Buffers()), b, ic.Buffers());
        InodeErrorMore(e, refs, missed, ic.misses > old(ic.misses), x);
        return;
      }
      ghost var slots := ic.dirs.slots;
      e := MakeAt(c, i, name, x, room, d, g, held, refs);
      FollowsBoth(old(ic.Buffers()), b, ic.Buffers());
      if e == ENOSPC { PackedBeside(old(ic.dirs.slots), slots, x, d); }
      NameErrorMore(e, g, d, name, namlen, room, ic.misses > m, ic.misses > old(ic.misses));
    }

    /** The new inode is there, and gets its name or goes. */
    method MakeAt(c: nat, i: nat, name: string, x: nat, room: bool, ghost d: nat, ghost g: Tree,
                  ghost held: seq<Slot>, ghost refs: map<nat, nat>)
      returns (e: Err)
      requires Valid() && c < MAXINODES && i < MAXINODES && Holds(ic.table[..], c, d) && Holds(ic.table[..], i, x)
      requires d in refs && x !in refs && ic.refs == More(refs, d)[x := 1] && x !in g && Graph() == Fresh(g, x)
      requires d in g && (g[d].nlink > 0 || refs[d] > 0) && Text(name)
      requires StillHeld(held, ic.table[..]) && HeldCounted(held, refs) && RootHeld(held)
      modifies ic, ic.table, ic.dirs
      ensures Ready() && StillHeld(held, ic.table[..]) && Follows(old(ic.Buffers()), ic.Buffers()) && (!ic.lost ==> Valid())
      ensures e != OK && !ic.lost ==> Graph() == g && ic.refs == refs
      ensures e != OK ==> NameError(e, g, d, name, namlen, room, ic.misses > old(ic.misses))
      ensures e == OK ==>
                && IsDir(g, d) && name !in g[d].dir && 0 < |name| <= namlen && d in Fresh(g, x) && x in Fresh(g, x)
                && Holds(ic.table[..], i, x) && ic.refs == refs[x := 1]
      ensures e == ENOSPC ==> Packed(old(ic.dirs.slots), d)
      ensures e == OK && !ic.lost ==> Graph() == Link(Fresh(g, x), d, name, x)
    {
      hide Follows, Orderly, Icore.Valid, TreeOf, More, Sound, Link, Fresh, Settled, SettledRefs, IsDir, Crowded,
           NameError, Packed;
      FreshRefs(g, held, refs, d, x);
      FreshIs(g, x);
      e := Enroll(c, i, name, room, d, x);
      ghost var missed, b := ic.misses > old(ic.misses), ic.Buffers();
      NameErrorFresh(e, g, d, name, namlen, room, missed, x);
      if e == OK {
        LinkCounts(Fresh(g, x), d, name, x);
        PutFirst(c, d, x, held, refs[x := 0]);
        FreshHeld(held, refs, x);
      } else {
        Release(c, i, d, x, held, refs[x := 0]);
      }
      FollowsBoth(old(ic.Buffers()), b, ic.Buffers());
      NameErrorMore(e, g, d, name, namlen, room, missed, ic.misses > old(ic.misses));
    }

    /** do_mknod, given the block that alloc_blk finds. It returns 0 whatever happens; made tells
        whether the file is there. */
    method SysMknod(start: nat, path: seq<string>, name: string, x: nat, room: bool)
      returns (err: Err, made: bool, ghost d: nat, ghost why: Err)
      requires Valid() && Text(name) && start < MAXINODES && ic.table[start].refcnt > 0 && x !in ic.used
      requires forall i :: 0 <= i < |path| ==> Text(path[i])
      modifies ic, ic.table, ic.dirs
      ensures Ready() && StillHeld(old(ic.table[..]), ic.table[..]) && Follows(old(ic.Buffers()), ic.Buffers()) && (!ic.lost ==> Valid())
      ensures err == OK
      ensures !made && !ic.lost ==> Graph() == old(Graph())
      ensures var s, missed := old(ic.table[start]).ino, ic.misses > old(ic.misses);
              && (!made ==> MakeError(why, old(Graph()), old(ic.refs), missed, rootDir, s, path, name, namlen, x, room))
              && (!made && !ic.lost ==>
                    || ic.refs == old(ic.refs)
                    || (why == ENAMETOOLONG && Leaked(old(Graph()), rootDir, s, path, old(ic.refs), ic.refs)))
              && (made ==>
                    && Walk(old(Graph()), rootDir, s, path) == d && IsDir(old(Graph()), d)
                    && name !in old(Graph())[d].dir && 0 < |name| <= namlen
                    && d in Fresh(old(Graph()), x) && x in Fresh(old(Graph()), x) && x !in old(ic.refs))
      ensures made && !ic.lost ==> Graph() == Link(Fresh(old(Graph()), x), d, name, x) && ic.refs == old(ic.refs)[x := 0]
      ensures why == ENOSPC && x != 0 ==> Packed(old(ic.dirs.slots), d)
      ensures !ic.lost ==> Keeps(old(ic.refs), ic.refs)
    {
      hide Follows, Keeps, Orderly, Icore.Valid, TreeOf, More, Sound, Walk, HeldCounted, Link, Fresh, IsDir, Leaked, Crowded,
           Stuck, Clean, NameError, InodeError, Settled, SettledRefs, Packed, Fewer;
      err, made, d, why := OK, false, 0, OK;
      ghost var held, refs, g := ic.table[..], ic.refs, Graph();
      InUse();
      var e, c, i;
      e, c, d := Traverse(start, path);
      why := e;
      if e != OK { return; }
      InUse();
      ghost var m, b, slots := ic.misses, ic.Buffers(), ic.dirs.slots;
      e, i := MakeIn(c, name, x, room, d, held, refs);
      FollowsBoth(old(ic.Buffers()), b, ic.Buffers());
      ghost var missed := ic.misses > m;
      made, why := e == OK, e;
      if made {
        b := ic.Buffers();
        FreshHeld(held, refs, x);
        FreshLinked(g, refs, d, name, x);
        PutLater(i, x, held, refs[x := 0]);
        FollowsBoth(old(ic.Buffers()), b, ic.Buffers());
      }
      if why == ENOSPC && x != 0 { PackedBefore(old(ic.dirs.slots), slots, d); }
      KeepsSame(refs);
      FreshKeeps(refs, x);
      InodeErrorMore(why, refs, missed, ic.misses > old(ic.misses), x);
      NameErrorMore(why, g, d, name, namlen, room, missed, ic.misses > old(ic.misses));
    }

    /** What do_open does with O_CREAT when the path leads nowhere. */
    method OpenNew(start: nat, path: seq<string>, name: string, free: Err, x: nat, room: bool)
      returns (err: Err, i: nat, made: bool, ghost d: nat)
      requires Valid() && Text(name) && start < MAXINODES && ic.table[start].refcnt > 0 && x !in ic.used
      requires forall k :: 0 <= k < |path| ==> Text(path[k])
      requires free in {OK, ENFILE, EMFILE} && !Stuck(Graph(), rootDir, ic.table[start].ino, path + [name])
      modifies ic, ic.table, ic.dirs
      ensures Ready() && StillHeld(old(ic.table[..]), ic.table[..]) && Follows(old(ic.Buffers()), ic.Buffers()) && (!ic.lost ==> Valid())
      ensures !made && !ic.lost ==> Graph() == old(Graph()) && ic.refs == old(ic.refs)
      ensures var t, s, missed := old(Graph()), old(ic.table[start]).ino, ic.misses > old(ic.misses);
              && (made ==>
                    && Walk(t, rootDir, s, path) == d && IsDir(t, d) && name !in t[d].dir && 0 < |name| <= namlen
                    && d in Fresh(t, x) && x in Fresh(t, x) && x !in old(ic.refs) && err == free)
              && (!made ==> err != OK && MakeError(err, t, old(ic.refs), missed, rootDir, s, path, name, namlen, x, room))
      ensures err == OK ==> i < MAXINODES && Holds(ic.table[..], i, x) && ic.refs == old(ic.refs)[x := 1]
      ensures made && !ic.lost ==> Graph() == Link(Fresh(old(Graph()), x), d, name, x)
      ensures made && !ic.lost && err != OK ==> ic.refs == old(ic.refs)[x := 0]
      ensures err == ENOSPC && x != 0 ==> Packed(old(ic.dirs.slots), d)
      ensures !ic.lost ==> Keeps(old(ic.refs), ic.refs)
    {
      hide Follows, Orderly, Icore.Valid, TreeOf, More, Sound, Walk, HeldCounted, Link, Fresh, IsDir, Leaked, Crowded, Stuck,
           Clean, NameError, InodeError, Settled, SettledRefs, Keeps, Packed, Fewer;
      i, made, d := 0, false, 0;
      ghost var held, refs, g := ic.table[..], ic.refs, Graph();
      InUse();
      StuckPrefix(g, rootDir, ic.table[start].ino, path, name);
      KeepsSame(refs);
      if x !in refs { FreshKeeps(refs, x); }
      var c;
      err, c, d := Traverse(start, path);
      if err != OK { return; }
      InUse();
      ghost var m, b, slots := ic.misses, ic.Buffers(), ic.dirs.slots;
      err, i := MakeIn(c, name, x, room, d, held, refs);
      FollowsBoth(old(ic.Buffers()), b, ic.Buffers());
      made := err == OK;
      if made && free != OK {
        b := ic.Buffers();
        FreshHeld(held, refs, x);
        FreshLinked(g, refs, d, name, x);
        PutLater(i, x, held, refs[x := 0]);
        FollowsBoth(old(ic.Buffers()), b, ic.Buffers());
        err := free;
      }
      if err == ENOSPC && x != 0 { PackedBefore(old(ic.dirs.slots), slots, d); }
      InodeErrorMore(err, refs, ic.misses > m, ic.misses > old(ic.misses), x);
      NameErrorMore(err, g, d, name, namlen, room, ic.misses > m, ic.misses > old(ic.misses));
    }

    /** What do_open does with an inode that is there; gone says that the path leads nowhere. */
    method OpenOld(start: nat, path: seq<string>, flags: Flags) returns (err: Err, i: nat, gone: bool, ghost y: nat)
      requires Valid() && start < MAXINODES && ic.table[start].refcnt > 0 && forall k :: 0 <= k < |path| ==> Text(path[k])
      requires flags.free in {OK, ENFILE, EMFILE}
      modifies ic, ic.table, ic.dirs
      ensures Ready() && StillHeld(old(ic.table[..]), ic.table[..]) && Follows(old(ic.Buffers()), ic.Buffers())
      ensures gone || !ic.lost ==> Valid() && Graph() == old(Graph()) && Keeps(old(ic.refs), ic.refs)
      ensures var t, s, missed := old(Graph()), old(ic.table[start]).ino, ic.misses > old(ic.misses);
              && (gone <==> err == ENOENT)
              && (gone ==>
                    && Walk(t, rootDir, s, path) == -1 && !Stuck(t, rootDir, s, path) && Dead(t, rootDir, s, path, true)
                    && ic.refs == old(ic.refs))
              && (err == OK ==> OpenedOld(t, rootDir, s, path, flags, y))
              && (err != OK ==> OldError(err, t, old(ic.refs), missed, rootDir, s, path, flags))
              && (err != OK && !ic.lost ==>
                    || ic.refs == old(ic.refs)
                    || (err == ENAMETOOLONG && Leaked(t, rootDir, s, path, old(ic.refs), ic.refs)))
      ensures err != ENOSPC && (gone ==> Fewer(old(ic.dirs.slots), ic.dirs.slots))
      ensures err == OK ==> i < MAXINODES && Holds(ic.table[..], i, y) && y in old(ic.refs) && ic.refs == More(old(ic.refs), y)
    {
      hide Follows, Orderly, Icore.Valid, TreeOf, More, Sound, Walk, HeldCounted, IsDir, Leaked, Crowded, Clean, Stuck,
           Keeps, Fewer;
      ghost var held, refs := ic.table[..], ic.refs;
      KeepsSame(refs);
      err, i, y := Traverse(start, path);
      gone := err == ENOENT;
      if err == OK {
        Inside(i);
        GraphAt(ic.nodes, ic.dirs.binds, y);
        err := if flags.excl then EEXIST else if ic.table[i].d.isDir && flags.write then EISDIR else flags.free;
        MoreKeeps(refs, y);
        if err != OK {
          ghost var b := ic.Buffers();
          PutBack(i, y, held, refs);
          FollowsBoth(old(ic.Buffers()), b, ic.Buffers());
        }
        gone := false;
      }
    }

    /** do_open up to where it has the inode, and what it does when no descriptor can be had: with O_CREAT
        a file that is not there is made. On success the reference to the inode is kept. */
    method SysOpen(start: nat, path: seq<string>, name: string, flags: Flags, x: nat, room: bool)
      returns (err: Err, i: nat, made: bool, ghost y: nat, ghost d: nat)
      requires Valid() && Text(name) && start < MAXINODES && ic.table[start].refcnt > 0 && x !in ic.used
      requires forall k :: 0 <= k < |path| ==> Text(path[k])
      requires flags.free in {OK, ENFILE, EMFILE}
      modifies ic, ic.table, ic.dirs
      ensures Ready() && StillHeld(old(ic.table[..]), ic.table[..]) && Follows(old(ic.Buffers()), ic.Buffers()) && (!ic.lost ==> Valid())
      ensures var t, s, missed := old(Graph()), old(ic.table[start]).ino, ic.misses > old(ic.misses);
              && (made ==>
                    && flags.creat && Walk(t, rootDir, s, path + [name]) == -1 && Walk(t, rootDir, s, path) == d
                    && IsDir(t, d) && name !in t[d].dir && 0 < |name| <= namlen
                    && d in Fresh(t, x) && x in Fresh(t, x) && x !in old(ic.refs) && err == flags.free)
              && (err == OK && !made ==> OpenedOld(t, rootDir, s, path + [name], flags, y))
              && (err != OK && !made ==>
                    || (OldError(err, t, old(ic.refs), missed, rootDir, s, path + [name], flags)
                        && (err == ENOENT ==> !flags.creat))
                    || (flags.creat && Dead(t, rootDir, s, path + [name], true)
                        && MakeError(err, t, old(ic.refs), missed, rootDir, s, path, name, namlen, x, room)))
              // with O_CREAT the file is made unless something is in the way
              && (Creatable(t, old(ic.refs), missed, rootDir, s, path, name, namlen, flags, x, room) ==>
                    made && err == flags.free)
              && (err != OK && !made && !ic.lost ==>
                    || ic.refs == old(ic.refs)
                    || (err == ENAMETOOLONG && Leaked(t, rootDir, s, path + [name], old(ic.refs), ic.refs)))
      ensures err == OK ==> i < MAXINODES && Holds(ic.table[..], i, y)
      ensures err == OK && !made ==> y in old(ic.refs) && ic.refs == More(old(ic.refs), y)
      ensures err == OK && made ==> y == x && ic.refs == old(ic.refs)[x := 1]
      ensures err != OK && made && !ic.lost ==> ic.refs == old(ic.refs)[x := 0]
      ensures !ic.lost ==> Graph() == if made then Link(Fresh(old(Graph()), x), d, name, x) else old(Graph())
      ensures err == ENOSPC && x != 0 ==> Packed(old(ic.dirs.slots), d)
      ensures !ic.lost ==> Keeps(old(ic.refs), ic.refs)
    {
      hide Follows, Orderly, Icore.Valid, TreeOf, More, Sound, Walk, HeldCounted, Link, Fresh, IsDir, Leaked, Crowded, Clean,
           MakeError, OldError, OpenedOld, Stuck, Keeps, Dead, Creatable, Packed, Fewer;
      made, d := false, 0;
      ghost var held, refs, g, s := ic.table[..], ic.refs, Graph(), ic.table[start].ino;
      assert Holds(held, start, s);
      UsedIs(x);
      Inside(rootSlot);
      OrderlySound(g, refs, root);
      var gone;
      err, i, gone, y := OpenOld(start, path + [name], flags);
      if gone && flags.creat {
        UsedIs(x);
        ghost var mid, m, b, slots := ic.table[..], ic.misses, ic.Buffers(), ic.dirs.slots;
        err, i, made, d := OpenNew(start, path, name, flags.free, x, room);
        FollowsBoth(old(ic.Buffers()), b, ic.Buffers());
        if err == ENOSPC && x != 0 { PackedBefore(old(ic.dirs.slots), slots, d); }
        HeldThrough(held, mid, ic.table[..]);
        MakeErrorMore(err, g, refs, ic.misses > m, ic.misses > old(ic.misses), rootDir, s, path, name, namlen, x, room);
        y := x;
      }
      ghost var missed := ic.misses > old(ic.misses);
      if Creatable(g, refs, missed, rootDir, s, path, name, namlen, flags, x, room) {
        NothingInTheWay(g, root, refs, missed, rootDir, s, path, name, namlen, flags, x, room,
                        if err == OK then EPERM else err, y);
      }
    }

    /** The new directory gets its mode and its dots. */
    method Fill(i: nat, x: nat, dir: nat, room: bool, ghost nodes: map<nat, Dnode>,
                ghost binds: map<nat, map<string, nat>>)
      returns (e: Err)
      requires ic.Valid() && ic.table.Length == MAXINODES && i < MAXINODES && Holds(ic.table[..], i, x)
      requires 14 <= namlen <= NAME_MAX
      requires x in ic.used && dir in ic.used && x !in nodes && x !in binds
      requires ic.nodes == nodes[x := ZERO] && ic.dirs.binds == binds[x := map[]]
      modifies ic`nodes, ic`answers, ic`misses, ic.table, ic.dirs
      ensures ic.Valid() && StillHeld(old(ic.table[..]), ic.table[..]) && Follows(old(ic.Buffers()), ic.Buffers())
      ensures ic.nodes == nodes[x := Dnode(true, 0)] && Beside(binds, ic.dirs.binds, x)
      ensures e == OK ==> ic.dirs.binds == binds[x := DotsOf(x, dir)]
      ensures OnlyAt(old(ic.dirs.slots), ic.dirs.slots, x)
      ensures e == OK || (e == ENOSPC && !room) || (e == ENOMEM && ic.misses > old(ic.misses))
    {
      hide Follows, Icore.Valid, DotsOf, Beside, StillHeld, OnlyAt;
      ghost var was := ic.table[..];
      ic.Set(i, Dnode(true, 0), 2);
      ghost var mid := ic.table[..];
      StillAt(was, mid, i, x);
      ic.Entry(i);
      e := Dots(i, x, dir, room, binds);
      HeldThrough(was, mid, ic.table[..]);
    }

    /** The two entries. */
    method Dots(i: nat, x: nat, dir: nat, room: bool, ghost binds: map<nat, map<string, nat>>) returns (e: Err)
      requires ic.Valid() && ic.table.Length == MAXINODES && i < MAXINODES && Holds(ic.table[..], i, x)
      requires 14 <= namlen <= NAME_MAX && ic.table[i].d.isDir && x in ic.used && dir in ic.used && x !in binds
      requires ic.dirs.binds == binds[x := map[]]
      modifies ic`answers, ic`misses, ic.table, ic.dirs
      ensures ic.Valid() && StillHeld(old(ic.table[..]), ic.table[..]) && Follows(old(ic.Buffers()), ic.Buffers())
      ensures Beside(binds, ic.dirs.binds, x) && (e == OK ==> ic.dirs.binds == binds[x := DotsOf(x, dir)])
      ensures OnlyAt(old(ic.dirs.slots), ic.dirs.slots, x)
      ensures e == OK || (e == ENOSPC && !room) || (e == ENOMEM && ic.misses > old(ic.misses))
    {
      hide Follows, Icore.Valid, FirstFree, Refusal, Bind, DotsOf, Beside, StillHeld;
      DotsFilled(binds, x, dir);
      RefusalIs(".", namlen, true, false);
      RefusalIs("..", namlen, true, false);
      ghost var was := ic.table[..];
      ic.Entry(i);
      e := ic.Creat(i, ".", x, namlen, room);
      if e == OK {
        ghost var b, mid := ic.Buffers(), ic.table[..];
        StillAt(was, mid, i, x);
        ic.Entry(i);
        e := ic.Creat(i, "..", dir, namlen, room);
        FollowsBoth(old(ic.Buffers()), b, ic.Buffers());
        HeldThrough(was, mid, ic.table[..]);
      }
    }

    /** A directory that could not be completed goes. */
    method Forget(i: nat, ghost x: nat, ghost nodes: map<nat, Dnode>, ghost binds: map<nat, map<string, nat>>,
                  ghost refs: map<nat, nat>, ghost held: seq<Slot>)
      requires ic.Valid() && ic.table.Length == MAXINODES && i < MAXINODES && Holds(ic.table[..], i, x)
      requires x in ic.nodes && ic.nodes[x].nlink == 0
      requires Beside(nodes, ic.nodes, x) && Beside(binds, ic.dirs.binds, x) && x !in refs && ic.refs == refs[x := 1]
      requires StillHeld(held, ic.table[..]) && HeldCounted(held, refs)
      modifies ic, ic.table, ic.dirs
      ensures ic.Valid() && ic.nodes == nodes && ic.dirs.binds == binds && ic.refs == refs && ic.lost == old(ic.lost)
      ensures StillHeld(held, ic.table[..]) && Follows(old(ic.Buffers()), ic.Buffers())
    {
      hide Follows, Icore.Valid;
      BesideGone(nodes, ic.nodes, x);
      BesideGone(binds, ic.dirs.binds, x);
      ic.Entry(i);
      ghost var mid := ic.table[..];
      var e := ic.Put(i);
      HeldOn(held, mid, ic.table[..], i, x);
    }

    /** The end of do_mkdir when all has gone well: the counts. */
    method Finish(c: nat, i: nat, ghost name: string, ghost d: nat, ghost x: nat, ghost refs: map<nat, nat>,
                  ghost nodes: map<nat, Dnode>, ghost binds: map<nat, map<string, nat>>)
      requires 14 <= namlen <= NAME_MAX && rootSlot < MAXINODES && d in refs && ic.refs == More(refs, d)[x := 1]
      requires !ic.lost
      requires ic.Valid() && ic.table.Length == MAXINODES && c < MAXINODES && i < MAXINODES
      requires Holds(ic.table[..], c, d) && Holds(ic.table[..], i, x) && Holds(ic.table[..], rootSlot, rootDir)
      requires Orderly(TreeOf(nodes, binds), More(refs, d), root)
      requires Half(nodes, binds, ic.nodes, ic.dirs.binds, d, name, x)
      modifies ic`nodes, ic.table
      ensures Valid() && StillHeld(old(ic.table[..]), ic.table[..]) && d in TreeOf(nodes, binds)
      ensures Graph() == Mkdir(TreeOf(nodes, binds), d, name, x)
    {
      hide Orderly, Icore.Valid, TreeOf, More, Mkdir, DotsOf, Bind;
      GraphAt(nodes, binds, d);
      NotThere(nodes, binds, x);
      MkdirOrderly(TreeOf(nodes, binds), refs, root, d, name, x);
      TreeMkdir(nodes, binds, d, name, x);
      ic.Entry(c);
      ic.Set(c, Dnode(ic.table[c].d.isDir, ic.table[c].d.nlink + 1), 1);
      ic.Set(i, Dnode(true, 2), 2);
      assert ic.nodes == nodes[d := Dnode(true, nodes[d].nlink + 1)][x := Dnode(true, 2)];
    }

    /** The three entries of a new directory. */
    method Compile(c: nat, i: nat, name: string, x: nat, room: bool, room2: bool, ghost d: nat,
                   ghost nodes: map<nat, Dnode>, ghost binds: map<nat, map<string, nat>>)
      returns (e: Err)
      requires 14 <= namlen <= NAME_MAX && ic.Valid() && ic.table.Length == MAXINODES && c < MAXINODES && i < MAXINODES
      requires Text(name)
      requires Holds(ic.table[..], c, d) && Holds(ic.table[..], i, x) && x in ic.used && d in ic.used
      requires nodes.Keys == binds.Keys && d in nodes && x !in nodes && ic.table[c].d == nodes[d]
      requires ic.nodes == nodes[x := ZERO] && ic.dirs.binds == binds[x := map[]]
      modifies ic`nodes, ic`answers, ic`misses, ic.table, ic.dirs
      ensures ic.Valid() && StillHeld(old(ic.table[..]), ic.table[..]) && Follows(old(ic.Buffers()), ic.Buffers()) && e != EMLINK
      ensures x in ic.nodes && ic.nodes[x].nlink == 0 && Beside(nodes, ic.nodes, x)
      ensures d in TreeOf(nodes, binds)
      ensures e != OK ==>
                && Beside(binds, ic.dirs.binds, x)
                && NameError(e, TreeOf(nodes, binds), d, name, namlen, room && room2, ic.misses > old(ic.misses))
      ensures e == ENOSPC ==> !room || Packed(old(ic.dirs.slots), d)
      ensures e == OK ==> 0 < |name| <= namlen && Half(nodes, binds, ic.nodes, ic.dirs.binds, d, name, x)
    {
      hide Follows, Icore.Valid, TreeOf, Bind, FirstFree, DotsOf, Beside, StillHeld, Packed, OnlyAt;
      GraphAt(nodes, binds, d);
      BesideOne(nodes, x, Dnode(true, 0));
      ghost var was := ic.table[..];
      e := Fill(i, x, ic.table[c].ino, room, nodes, binds);
      if e == OK {
        StillAt(was, ic.table[..], c, d);
        ic.Entry(c);
        ghost var b, mid, slots := ic.Buffers(), ic.table[..], ic.dirs.slots;
        e := ic.Creat(c, name, x, namlen, room2);
        if e == ENOSPC { PackedBeside(old(ic.dirs.slots), slots, x, d); }
        FollowsBoth(old(ic.Buffers()), b, ic.Buffers());
        HeldThrough(was, mid, ic.table[..]);
      }
    }

    /** The middle of do_mkdir: the entries, and either the counts or nothing at all. */
    method Compose(c: nat, i: nat, name: string, x: nat, room: bool, room2: bool, ghost d: nat,
                   ghost refs: map<nat, nat>,
                   ghost held: seq<Slot>, ghost nodes: map<nat, Dnode>, ghost binds: map<nat, map<string, nat>>)
      returns (e: Err)
      requires 14 <= namlen <= NAME_MAX && rootSlot < MAXINODES && d in refs && x !in refs
      requires ic.refs == More(refs, d)[x := 1]
      requires ic.Valid() && ic.table.Length == MAXINODES && c < MAXINODES && i < MAXINODES && Text(name) && !ic.lost
      requires Holds(ic.table[..], c, d) && Holds(ic.table[..], i, x) && RootHeld(held)
      requires StillHeld(held, ic.table[..]) && HeldCounted(held, More(refs, d)) && Holds(held, c, d)
      requires Orderly(TreeOf(nodes, binds), More(refs, d), root) && x in ic.used && d in ic.used
      requires nodes.Keys == binds.Keys && d in nodes && x !in nodes && ic.table[c].d == nodes[d]
      requires ic.nodes == nodes[x := ZERO] && ic.dirs.binds == binds[x := map[]]
      modifies ic, ic.table, ic.dirs
      ensures Valid() && StillHeld(held, ic.table[..]) && d in TreeOf(nodes, binds) && Follows(old(ic.Buffers()), ic.Buffers())
      ensures e != EMLINK
      ensures e != OK ==> Graph() == TreeOf(nodes, binds) && ic.refs == More(refs, d)
      ensures e != OK ==> NameError(e, Graph(), d, name, namlen, room && room2, ic.misses > old(ic.misses))
      ensures e == ENOSPC ==> !room || Packed(old(ic.dirs.slots), d)
      ensures e == OK ==>
                && Graph() == Mkdir(TreeOf(nodes, binds), d, name, x) && ic.refs == More(refs, d)[x := 1]
                && nodes[d].isDir && name !in binds[d] && 0 < |name| <= namlen && Holds(ic.table[..], i, x)
    {
      hide Follows, Orderly, Icore.Valid, TreeOf, More, Mkdir, HeldCounted, NameError, DotsOf, Bind, Beside, Packed;
      e := Compile(c, i, name, x, room, room2, d, nodes, binds);
      if e == OK {
        Finish(c, i, name, d, x, refs, nodes, binds);
      } else {
        ghost var missed, b := ic.misses > old(ic.misses), ic.Buffers();
        Forget(i, x, nodes, binds, More(refs, d), held);
        FollowsBoth(old(ic.Buffers()), b, ic.Buffers());
        NameErrorMore(e, TreeOf(nodes, binds), d, name, namlen, room && room2, missed, ic.misses > old(ic.misses));
      }
    }

    /** The new directory, from alloc_inode on. */
    method MkdirNew(c: nat, name: string, x: nat, room: bool, room2: bool, ghost d: nat, ghost held: seq<Slot>,
                    ghost refs: map<nat, nat>)
      returns (e: Err, i: nat)
      requires Holding(c, d, held, refs) && Text(name) && x !in ic.used
      modifies ic, ic.table, ic.dirs
      ensures Follows(old(ic.Buffers()), ic.Buffers()) && x !in old(Graph()) && x !in refs && e != EMLINK
      ensures e != OK ==> Holding(c, d, held, refs) && Graph() == old(Graph())
      ensures e != OK ==>
                || InodeError(e, refs, ic.misses > old(ic.misses), x)
                || NameError(e, old(Graph()), d, name, namlen, room && room2, ic.misses > old(ic.misses))
      ensures e == ENOSPC && x != 0 ==> !room || Packed(old(ic.dirs.slots), d)
      ensures e == OK ==>
                && Valid() && StillHeld(held, ic.table[..]) && Holds(ic.table[..], c, d) && i < MAXINODES && Holds(ic.table[..], i, x)
                && IsDir(old(Graph()), d) && name !in old(Graph())[d].dir && 0 < |name| <= namlen
                && Graph() == Mkdir(old(Graph()), d, name, x) && ic.refs == More(refs, d)[x := 1]
    {
      hide Follows, Orderly, Icore.Valid, TreeOf, More, Mkdir, Sound, StillHeld, Crowded, NameError, IsDir, HeldCounted,
           SameDirt, Packed, OnlyAt;
      Inside(c);
      InUse();
      ghost var nodes, binds, mid, g := ic.nodes, ic.dirs.binds, ic.table[..], Graph();
      GraphAt(nodes, binds, d);
      HeldThrough(held, mid, mid);
      e, i := ic.Alloc(x);
      HeldThrough(held, mid, ic.table[..]);
      StillAt(mid, ic.table[..], c, d);
      StillAt(mid, ic.table[..], rootSlot, rootDir);
      if e == ENOMEM { NoRoomMore(refs, d, 0, ic.misses > old(ic.misses)); }
      if e != OK { return; }
      ic.InUse();
      ic.Entry(c);
      ghost var m, b, slots := ic.misses, ic.Buffers(), ic.dirs.slots;
      e := Compose(c, i, name, x, room, room2, d, refs, mid, nodes, binds);
      FollowsBoth(old(ic.Buffers()), b, ic.Buffers());
      if e == ENOSPC && room { PackedBeside(old(ic.dirs.slots), slots, x, d); }
      NameErrorMore(e, g, d, name, namlen, room && room2, ic.misses > m, ic.misses > old(ic.misses));
      HeldThrough(held, mid, ic.table[..]);
      StillAt(mid, ic.table[..], c, d);
    }

    /** do_mkdir once the directory above is found. */
    method MkdirIn(c: nat, name: string, x: nat, room: bool, room2: bool, ghost d: nat, ghost held: seq<Slot>,
                   ghost refs: map<nat, nat>)
      returns (e: Err)
      requires Holding(c, d, held, refs) && Text(name) && x !in ic.used
      modifies ic, ic.table, ic.dirs
      ensures Ready() && StillHeld(held, ic.table[..]) && Follows(old(ic.Buffers()), ic.Buffers()) && (!ic.lost ==> Valid())
      ensures x !in old(Graph()) && x !in refs
      ensures e == EMLINK <==> old(Graph())[d].nlink >= NLINK_MAX
      ensures e != OK && e != EMLINK ==>
                || InodeError(e, refs, ic.misses > old(ic.misses), x)
                || NameError(e, old(Graph()), d, name, namlen, room && room2, ic.misses > old(ic.misses))
      ensures e != OK && !ic.lost ==> Graph() == old(Graph()) && ic.refs == refs
      ensures e == OK ==> IsDir(old(Graph()), d) && name !in old(Graph())[d].dir && 0 < |name| <= namlen
      ensures e == ENOSPC && x != 0 ==> !room || Packed(old(ic.dirs.slots), d)
      ensures e == OK && !ic.lost ==> Graph() == Mkdir(old(Graph()), d, name, x) && ic.refs == refs[x := 0]
    {
      hide Follows, Orderly, Icore.Valid, TreeOf, More, Mkdir, Settled, SettledRefs, Sound, StillHeld, Crowded, NameError,
           InodeError, IsDir, Packed;
      Inside(c);
      InUse();
      GraphAt(ic.nodes, ic.dirs.binds, d);
      ghost var g := Graph();
      if ic.table[c].d.nlink >= NLINK_MAX {
        PutBack(c, d, held, refs);
        return EMLINK;
      }
      var i;
      e, i := MkdirNew(c, name, x, room, room2, d, held, refs);
      ghost var missed, b := ic.misses > old(ic.misses), ic.Buffers();
      if e != OK {
        PutBack(c, d, held, refs);
      } else {
        MkdirFacts(g, root, d, name, x);
        MkdirRefs(held, refs, d, x);
        HeldSettled(Graph(), refs[x := 0], d);
        Release(i, c, x, d, held, refs[x := 0]);
      }
      FollowsBoth(old(ic.Buffers()), b, ic.Buffers());
      NameErrorMore(e, g, d, name, namlen, room && room2, missed, ic.misses > old(ic.misses));
      InodeErrorMore(e, refs, missed, ic.misses > old(ic.misses), x);
    }

    /** do_mkdir, given the block that alloc_blk finds. */
    method SysMkdir(start: nat, path: seq<string>, name: string, x: nat, room: bool, room2: bool)
      returns (err: Err, ghost d: nat)
      requires Valid() && Text(name) && start < MAXINODES && ic.table[start].refcnt > 0 && x !in ic.used
      requires forall i :: 0 <= i < |path| ==> Text(path[i])
      modifies ic, ic.table, ic.dirs
      ensures Ready() && StillHeld(old(ic.table[..]), ic.table[..]) && Follows(old(ic.Buffers()), ic.Buffers()) && (!ic.lost ==> Valid())
      ensures err != OK && !ic.lost ==> Graph() == old(Graph())
      ensures var t, s, missed := old(Graph()), old(ic.table[start]).ino, ic.misses > old(ic.misses);
              && (err != OK && !ic.lost ==>
                    || ic.refs == old(ic.refs)
                    || (err == ENAMETOOLONG && Leaked(t, rootDir, s, path, old(ic.refs), ic.refs)))
              && (err == EMLINK ==> d in t && Walk(t, rootDir, s, path) == d && t[d].nlink >= NLINK_MAX)
              && (err != OK && err != EMLINK ==>
                    MakeError(err, t, old(ic.refs), missed, rootDir, s, path, name, namlen, x, room && room2))
              && (err == OK ==>
                    && Walk(t, rootDir, s, path) == d && IsDir(t, d) && t[d].nlink < NLINK_MAX
                    && name !in t[d].dir && 0 < |name| <= namlen && x !in t && x !in old(ic.refs))
      ensures err == OK && !ic.lost ==> Graph() == Mkdir(old(Graph()), d, name, x) && ic.refs == old(ic.refs)[x := 0]
      ensures err == ENOSPC && x != 0 ==> !room || Packed(old(ic.dirs.slots), d)
      ensures !ic.lost ==> Keeps(old(ic.refs), ic.refs)
    {
      hide Follows, Keeps, Orderly, Icore.Valid, TreeOf, More, Sound, Walk, HeldCounted, Mkdir, IsDir, Holding, Leaked,
           Crowded, Stuck, Clean, NameError, InodeError, Packed, Fewer;
      d := 0;
      ghost var held, refs, g := ic.table[..], ic.refs, Graph();
      InUse();
      var c;
      err, c, d := Traverse(start, path);
      if err != OK { return; }
      InUse();
      InGraph(c, d, held, refs);
      ghost var m, b, slots := ic.misses, ic.Buffers(), ic.dirs.slots;
      err := MkdirIn(c, name, x, room, room2, d, held, refs);
      FollowsBoth(old(ic.Buffers()), b, ic.Buffers());
      if err == ENOSPC && x != 0 && room { PackedBefore(old(ic.dirs.slots), slots, d); }
      KeepsSame(refs);
      FreshKeeps(refs, x);
      InodeErrorMore(err, refs, ic.misses > m, ic.misses > old(ic.misses), x);
      NameErrorMore(err, g, d, name, namlen, room && room2, ic.misses > m, ic.misses > old(ic.misses));
    }

    lemma InGraph(c: nat, d: nat, held: seq<Slot>, refs: map<nat, nat>)
      requires Holding(c, d, held, refs)
      ensures d in Graph() && Ready()
    {
    }
  }
}
