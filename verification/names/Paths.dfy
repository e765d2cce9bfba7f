/** What the calls of kern/fs/mknod.c and kern/fs/open.c need to know of the graph, of the references to
    inodes and of walks along paths, kern/fs/dir.c, as values. */
module Paths {
  import opened Dir
  import opened Errors
  import opened InodeTable
  import opened Links

  /** The graph that the inodes and the directories make up. */
  ghost function TreeOf(nodes: map<nat, Dnode>, binds: map<nat, map<string, nat>>): Tree {
    map x | x in nodes && x in binds ::
      Node(nodes[x].isDir, nodes[x].nlink, if nodes[x].isDir then binds[x] else map[])
  }

  /** What has no links has references. */
  ghost predicate Kept(t: Tree, refs: map<nat, nat>) {
    t.Keys == refs.Keys && forall x :: x in t && t[x].nlink == 0 ==> refs[x] > 0
  }

  ghost predicate NoBlanks(t: Tree) {
    forall d :: d in t ==> "" !in t[d].dir
  }

  /** The invariant of the calls. */
  ghost predicate Orderly(t: Tree, refs: map<nat, nat>, root: nat) {
    Sound(t, root) && Kept(t, refs) && NoBlanks(t)
  }

  lemma TreePut(nodes: map<nat, Dnode>, binds: map<nat, map<string, nat>>, refs: map<nat, nat>, x: nat)
    requires nodes.Keys == binds.Keys && x in nodes && x in refs
    ensures var k := nodes[x].nlink;
            TreeOf(PutNodes(nodes, k, refs, x), PutNodes(binds, k, refs, x)) == PutNodes(TreeOf(nodes, binds), k, refs, x)
  {
  }

  /** Giving up a reference keeps the invariant: an inode that goes is named nowhere. */
  lemma PutOrderly(t: Tree, refs: map<nat, nat>, root: nat, x: nat)
    requires Orderly(t, refs, root) && x in t && refs[x] > 0
    ensures Orderly(PutNodes(t, t[x].nlink, refs, x), PutRefs(t[x].nlink, refs, x), root)
  {
    hide Sound;
    if refs[x] == 1 && t[x].nlink == 0 {
      DropSound(t, root, x);
    }
  }

  lemma MoreKept(t: Tree, refs: map<nat, nat>, root: nat, x: nat)
    requires Orderly(t, refs, root) && x in t
    ensures x in refs && Orderly(t, More(refs, x), root)
  {
    hide Sound;
  }

  /** One step of a walk, for a process with root directory r. */
  ghost function Step(t: Tree, r: nat, c: nat, name: string): int {
    if name == "" || (name == ".." && c == r) then c
    else if IsDir(t, c) then Named(t, c, name)
    else -1
  }

  ghost function Walk(t: Tree, r: nat, c: int, path: seq<string>): int
    decreases |path|
  {
    if path == [] || c < 0 then c else Walk(t, r, Step(t, r, c, path[0]), path[1..])
  }

  ghost predicate Short(path: seq<string>) {
    forall i :: 0 <= i < |path| ==> |path[i]| <= NAME_MAX
  }

  /** A walk can be cut in two. */
  lemma {:induction false} WalkSplit(t: Tree, r: nat, c: int, path: seq<string>, k: nat)
    requires k <= |path|
    ensures Walk(t, r, c, path) == Walk(t, r, Walk(t, r, c, path[..k]), path[k..])
    decreases k
  {
    if k == 0 || c < 0 {
      assert path[k..] == [] || c < 0 || path[k..] == path;
    } else {
      assert path[..k][0] == path[0] && path[..k][1..] == path[1..][..k - 1] && path[1..][k - 1..] == path[k..];
      WalkSplit(t, r, Step(t, r, c, path[0]), path[1..], k - 1);
    }
  }

  lemma {:induction false} WalkLast(t: Tree, r: nat, c: int, path: seq<string>, name: string)
    ensures var d := Walk(t, r, c, path);
            Walk(t, r, c, path + [name]) == if d < 0 then d else Step(t, r, d, name)
    decreases |path|
  {
    if path == [] || c < 0 {
      assert (path + [name])[1..] == [] || c < 0;
    } else {
      assert (path + [name])[1..] == path[1..] + [name];
      WalkLast(t, r, Step(t, r, c, path[0]), path[1..], name);
    }
  }

  /** A step leads to the same inode or to one that is named. */
  lemma StepLinked(t: Tree, root: nat, r: nat, c: nat, name: string)
    requires Sound(t, root) && c in t && Step(t, r, c, name) >= 0
    ensures var y := Step(t, r, c, name); y in t.Keys && (y == c || t[y].nlink > 0)
  {
    if name != "" && !(name == ".." && c == r) {
      Linkable(t, c, name);
    }
  }

  lemma StepStays(t: Tree, r: nat, c: nat, name: string)
    requires name == "" || (name == ".." && c == r)
    ensures Step(t, r, c, name) == c
  {
  }

  /** What a step is in terms of the inode and its directory. */
  lemma StepIs(nodes: map<nat, Dnode>, binds: map<nat, map<string, nat>>, root: nat, r: nat, x: nat, name: string)
    requires Sound(TreeOf(nodes, binds), root) && x in nodes && nodes.Keys == binds.Keys && name != ""
    ensures var y := Step(TreeOf(nodes, binds), r, x, name);
            if name == ".." && x == r then y == x
            else if nodes[x].isDir && name in binds[x] then y == binds[x][name] && y in nodes.Keys
            else y == -1
  {
    hide Sound;
    var t := TreeOf(nodes, binds);
    if nodes[x].isDir && name in binds[x] && !(name == ".." && x == r) {
      assert Named(t, x, name) == binds[x][name];
      StepLinked(t, root, r, x, name);
    }
  }

  /** Letting go of where one was, after a step that led to y, or nowhere. */
  lemma StepRefs(t: Tree, refs: map<nat, nat>, x: nat, y: nat, nlink: nat)
    requires x in refs && y in refs && (nlink > 0 || refs[x] > 0 || x == y)
    ensures var m := More(More(refs, x), y);
            m[x] > 0 && (refs[x] > 0 || x == y ==> m[x] > 1) && PutRefs(nlink, m, x) == More(refs, y) && PutNodes(t, nlink, m, x) == t
  {
  }

  lemma StepBack(t: Tree, refs: map<nat, nat>, x: nat, nlink: nat)
    requires x in refs && (nlink > 0 || refs[x] > 0)
    ensures var m := More(refs, x);
            m[x] > 0 && (refs[x] > 0 ==> m[x] > 1) && PutRefs(nlink, m, x) == refs && PutNodes(t, nlink, m, x) == t
  {
  }

  /** Giving up a reference to x changes nothing but the references, to those after. */
  ghost predicate GivesUp(t: Tree, refs: map<nat, nat>, x: nat, after: map<nat, nat>) {
    && x in t && x in refs && refs[x] > 0
    && PutRefs(t[x].nlink, refs, x) == after && PutNodes(t, t[x].nlink, refs, x) == t
  }

  /** What was held stays held when a reference is given up that was not there then. */
  lemma HeldOn(was: seq<Slot>, mid: seq<Slot>, now: seq<Slot>, c: nat, x: nat)
    requires StillHeld(was, mid) && c < |mid| && HeldBut(mid, now, c) && Holds(mid, c, x)
    requires Holds(was, c, x) ==> mid[c].refcnt > 1
    ensures StillHeld(was, now)
  {
    forall i, z | 0 <= i < |was| && Holds(was, i, z) ensures Holds(now, i, z) {
      assert Holds(mid, i, z);
    }
  }

  lemma AllCounted(table: seq<Slot>, disk: map<nat, Dnode>, nodes: map<nat, Dnode>, refs: map<nat, nat>)
    requires Coherent(table, disk, nodes, refs)
    ensures forall i, x :: 0 <= i < |table| && Holds(table, i, x) ==> x in refs && refs[x] > 0
  {
    assert forall i :: 0 <= i < |table| ==> Exact(table[i], disk, nodes, refs);
  }

  lemma GraphAt(nodes: map<nat, Dnode>, binds: map<nat, map<string, nat>>, x: nat)
    requires x in nodes && x in binds
    ensures var t := TreeOf(nodes, binds);
            && x in t && t[x] == Node(nodes[x].isDir, nodes[x].nlink, if nodes[x].isDir then binds[x] else map[])
            && (IsDir(t, x) <==> nodes[x].isDir)
  {
  }

  // ---- the graph while a name goes

  lemma TreeCut(nodes: map<nat, Dnode>, binds: map<nat, map<string, nat>>, d: nat, n: string, y: nat)
    requires nodes.Keys == binds.Keys && d in nodes && y in nodes && nodes[d].isDir && n in binds[d] && binds[d][n] == y
    requires !nodes[y].isDir && nodes[y].nlink > 0
    ensures var t := TreeOf(nodes, binds);
            && d in t && n in t[d].dir && t[d].dir[n] == y && y in t && t[y].nlink == nodes[y].nlink
            && TreeOf(nodes[y := Dnode(false, nodes[y].nlink - 1)], binds[d := binds[d] - {n}]) == Unlink(t, d, n)
  {
  }

  lemma TreeCutDir(nodes: map<nat, Dnode>, binds: map<nat, map<string, nat>>, d: nat, n: string, y: nat)
    requires nodes.Keys == binds.Keys && d in nodes && y in nodes && nodes[d].isDir && n in binds[d] && binds[d][n] == y
    requires nodes[y].isDir && nodes[y].nlink > 1 && nodes[d].nlink > 0 && y != d
    ensures var t := TreeOf(nodes, binds);
            && d in t && n in t[d].dir && t[d].dir[n] == y && y in t && t[d].nlink == nodes[d].nlink && t[y].nlink == nodes[y].nlink
            && TreeOf(nodes[y := Dnode(false, nodes[y].nlink - 2)][d := Dnode(true, nodes[d].nlink - 1)], binds[d := binds[d] - {n}])
               == Rmdir(t, d, n)
  {
  }

  lemma UnlinkOrderly(t: Tree, refs: map<nat, nat>, root: nat, d: nat, n: string)
    requires Orderly(t, refs, root) && IsDir(t, d) && n in t[d].dir && !IsDir(t, t[d].dir[n])
    ensures var y := t[d].dir[n];
            y in t && t[y].nlink > 0 && y in refs && (refs[y] > 0 ==> Orderly(Unlink(t, d, n), refs, root))
  {
    hide Sound;
    UnlinkSound(t, root, d, n);
  }

  lemma RmdirOrderly(t: Tree, refs: map<nat, nat>, root: nat, d: nat, n: string, y: nat)
    requires Orderly(t, refs, root) && Under(t, d, n, y) && Empty(t, y) && y in refs && refs[y] > 0
    ensures t[d].nlink > 0 && t[y].nlink == 2 && y != d
    ensures Orderly(Rmdir(t, d, n), refs, root)
  {
    hide Sound, Empty;
    RmdirSound(t, root, d, n, y);
    RmdirReady(t, root, d, n, y);
    var t' := Rmdir(t, d, n);
    assert IsDir(t', d);
    DirLinked(t', root, d);
  }

  /** A directory has links. */
  lemma DirLinked(t: Tree, root: nat, d: nat)
    requires Sound(t, root) && IsDir(t, d)
    ensures t[d].nlink > 0
  {
    DotsTaken(t, d);
    Linkable(t, d, ".");
  }

  /** The graph after the entry n of d, which names y, has been removed: unlink, or rmdir if y is a
      directory. */
  ghost predicate IsCut(t: Tree, t': Tree, d: nat, n: string, y: nat) {
    && IsDir(t, d) && n in t[d].dir && t[d].dir[n] == y && y in t && y in t'
    && if t[y].isDir then y != d && t[d].nlink > 0 && t[y].nlink == 2 && t' == Rmdir(t, d, n)
       else t[y].nlink > 0 && t' == Unlink(t, d, n)
  }

  lemma CutKeepsDir(t: Tree, t': Tree, d: nat, n: string, y: nat)
    requires IsCut(t, t', d, n, y)
    ensures IsDir(t', d) && y in t' && IsDir(t, d) && n in t[d].dir && t[d].dir[n] == y
  {
  }

  /** What rmdir has made sure of before it has the entry removed. */
  ghost predicate Removable(t: Tree, d: int, n: string) {
    IsDir(t, d) && n in t[d].dir && IsDir(t, t[d].dir[n]) ==> Regular(n) && Empty(t, t[d].dir[n])
  }

  // ---- the graph while a name is made

  lemma TreeLinked(nodes: map<nat, Dnode>, binds: map<nat, map<string, nat>>, d: nat, n: string, x: nat)
    requires nodes.Keys == binds.Keys && d in nodes && x in nodes && nodes[d].isDir && !nodes[x].isDir
    ensures var t := TreeOf(nodes, binds);
            && d in t && x in t
            && TreeOf(nodes[x := Dnode(false, nodes[x].nlink + 1)], binds[d := Bind(binds[d], n, x)]) == Link(t, d, n, x)
  {
  }

  lemma TreeFresh(nodes: map<nat, Dnode>, binds: map<nat, map<string, nat>>, x: nat)
    requires nodes.Keys == binds.Keys && x !in nodes
    ensures TreeOf(nodes[x := ZERO], binds[x := map[]]) == Fresh(TreeOf(nodes, binds), x)
  {
  }

  lemma LinkOrderly(t: Tree, refs: map<nat, nat>, root: nat, d: nat, n: string, x: nat)
    requires Orderly(t, refs, root) && IsDir(t, d) && n !in t[d].dir && x in t && !t[x].isDir && n != ""
    ensures Orderly(Link(t, d, n, x), refs, root)
  {
    hide Sound;
    LinkSound(t, root, d, n, x);
  }

  lemma FreshOrderly(t: Tree, refs: map<nat, nat>, root: nat, x: nat)
    requires Orderly(t, refs, root) && x !in t
    ensures x !in refs && Orderly(Fresh(t, x), refs[x := 1], root)
  {
    hide Sound;
    FreshSound(t, root, x);
  }

  ghost predicate HeldCounted(held: seq<Slot>, refs: map<nat, nat>) {
    forall i, x :: 0 <= i < |held| && Holds(held, i, x) ==> x in refs && refs[x] > 0
  }

  /** The graph, and the references, once a call has let go of the inode y that it had got hold of. */
  ghost function Settled(t: Tree, refs: map<nat, nat>, y: nat): Tree
    requires y in t && y in refs
  {
    if t[y].nlink == 0 && refs[y] == 0 then t - {y} else t
  }

  ghost function SettledRefs(t: Tree, refs: map<nat, nat>, y: nat): map<nat, nat>
    requires y in t && y in refs
  {
    if t[y].nlink == 0 && refs[y] == 0 then refs - {y} else refs
  }

  lemma PutSettles(t: Tree, refs: map<nat, nat>, y: nat)
    requires y in t && y in refs
    ensures var m := More(refs, y);
            && m[y] > 0 && PutNodes(t, t[y].nlink, m, y) == Settled(t, refs, y)
            && PutRefs(t[y].nlink, m, y) == SettledRefs(t, refs, y) && (refs[y] > 0 ==> m[y] > 1)
  {
  }

  lemma DirSettled(t: Tree, root: nat, refs: map<nat, nat>, y: nat)
    requires Sound(t, root) && IsDir(t, y) && y in refs
    ensures Settled(t, refs, y) == t && SettledRefs(t, refs, y) == refs
  {
    DirLinked(t, root, y);
  }

  /** The graph after rmdir of ".." in directory d, by a process with root directory r: the walk
      decides whether there is something to remove, and do_unlink then removes what it finds. */
  ghost function RmdirUp(t: Tree, r: nat, d: nat, k: nat, m: nat): Tree
    requires d in t && ".." in t[d].dir && t[d].dir[".."] in t
  {
    if Empty(t, Step(t, r, d, "..")) then UpGone(t, d, k, m) else t
  }

  /** Rmdir of ".." leaves the graph in order if and only if d is neither the root directory of the
      process nor that of the file system, or is not empty. In the other case the two differ in what
      they break: the root goes itself, or the directory above r goes with all that is in it. */
  lemma RmdirUpSoundIff(t: Tree, root: nat, r: nat, d: nat, k: nat, m: nat)
    requires Sound(t, root) && IsDir(t, d)
    ensures ".." in t[d].dir && t[d].dir[".."] in t
    ensures Sound(RmdirUp(t, r, d, k, m), root) <==> (d != r && d != root) || !Empty(t, d)
    ensures Sound(RmdirUp(t, r, d, k, m), root) <==> !Empty(t, Step(t, r, d, ".."))
  {
    hide Sound;
    UpGoneUnsound(t, root, d, k, m);
    AboveEmptyIff(t, root, d);
  }

  /** The graph t' is t after rmdir of ".." in d has gone through. */
  ghost predicate UpDone(t: Tree, t': Tree, d: nat) {
    d in t && ".." in t[d].dir && t[d].dir[".."] in t && exists k: nat, m: nat :: t' == UpGone(t, d, k, m)
  }

  lemma UpDoneUnsound(t: Tree, t': Tree, root: nat, d: nat)
    requires Sound(t, root) && IsDir(t, d) && UpDone(t, t', d)
    ensures !Sound(t', root)
  {
    hide Sound, UpGone;
    var k: nat, m: nat :| t' == UpGone(t, d, k, m);
    UpGoneUnsound(t, root, d, k, m);
  }

  /** One link less, in 16 bits. */
  function Dec(n: nat): nat { if n == 0 then 0xFFFF else n - 1 }

  /** The graph while do_unlink removes the "..", which names y, of d: first the case that y is above d,
      then that of the root. */
  lemma TreeUp(nodes: map<nat, Dnode>, binds: map<nat, map<string, nat>>, d: nat, y: nat, k: nat, m: nat)
    requires nodes.Keys == binds.Keys && d in nodes && y in nodes && nodes[d].isDir && nodes[y].isDir
    requires ".." in binds[d] && binds[d][".."] == y
    ensures var t := TreeOf(nodes, binds);
            && d in t && ".." in t[d].dir && t[d].dir[".."] == y && y in t
            && (y != d ==>
                  UpDone(t, TreeOf(nodes[y := Dnode(false, k)][d := Dnode(true, m)], binds[d := binds[d] - {".."}]), d))
            && (y == d ==> UpDone(t, TreeOf(nodes[d := Dnode(false, k)], binds[d := binds[d] - {".."}]), d))
  {
    var t := TreeOf(nodes, binds);
    var binds' := binds[d := binds[d] - {".."}];
    if y != d {
      assert TreeOf(nodes[y := Dnode(false, k)][d := Dnode(true, m)], binds') == UpGone(t, d, k, m);
    } else {
      assert TreeOf(nodes[d := Dnode(false, k)], binds') == UpGone(t, d, k, m);
    }
  }

  /** Where rmdir finds ".." empty, the directory is one of the two roots, and empty. */
  lemma UpEmpty(t: Tree, root: nat, r: nat, s: int, path: seq<string>, d: nat)
    requires Sound(t, root) && Walk(t, r, s, path) == d && Empty(t, Walk(t, r, s, path + [".."]))
    ensures IsDir(t, d) && (d == r || d == root) && Empty(t, d)
  {
    hide Sound;
    WalkLast(t, r, s, path, "..");
    if IsDir(t, d) { AboveEmptyIff(t, root, d); }
  }

  /** Inputs that fail: rmdir("/..") by a process whose root is the empty root 1, or the empty
      directory 2 below a root that is not empty. */
  lemma RmdirUpBreaks(k: nat, m: nat)
    ensures var t: Tree := map[1 := Node(true, 2, map["." := 1, ".." := 1])];
            Sound(t, 1) && !Sound(RmdirUp(t, 1, 1, k, m), 1)
    ensures var t: Tree := map[1 := Node(true, 3, map["." := 1, ".." := 1, "a" := 2]), 2 := Node(true, 2, map["." := 2, ".." := 1])];
            Sound(t, 1) && !Empty(t, 1) && !Sound(RmdirUp(t, 2, 2, k, m), 1)
  {
    var t: Tree := map[1 := Node(true, 2, map["." := 1, ".." := 1])];
    RootAloneSound();
    RmdirUpSoundIff(t, 1, 1, 1, k, m);
    var u: Tree := map[1 := Node(true, 3, map["." := 1, ".." := 1, "a" := 2]), 2 := Node(true, 2, map["." := 2, ".." := 1])];
    OneBelowSound();
    RmdirUpSoundIff(u, 1, 2, 2, k, m);
  }

  lemma RootAloneSound()
    ensures Sound(map[1 := Node(true, 2, map["." := 1, ".." := 1])], 1)
  {
    var t: Tree := map[1 := Node(true, 2, map["." := 1, ".." := 1])];
    assert Entries(t, 1) == {(1, "."), (1, "..")};
    assert Ranked(t, map[1 := 0]);
  }

  lemma OneBelowSound()
    ensures Sound(map[1 := Node(true, 3, map["." := 1, ".." := 1, "a" := 2]), 2 := Node(true, 2, map["." := 2, ".." := 1])], 1)
  {
    var t: Tree := map[1 := Node(true, 2, map["." := 1, ".." := 1])];
    RootAloneSound();
    hide Sound;
    MkdirSound(t, 1, 1, "a", 2);
    assert t[1].dir["a" := 2] == map["." := 1, ".." := 1, "a" := 2];
    assert Mkdir(t, 1, "a", 2)
        == map[1 := Node(true, 3, map["." := 1, ".." := 1, "a" := 2]), 2 := Node(true, 2, map["." := 2, ".." := 1])];
  }

  /** What "..", other than of the root of the process, leads to is empty only at an empty root. */
  lemma DotDotNotEmpty(t: Tree, refs: map<nat, nat>, root: nat, r: nat, d: nat)
    requires Orderly(t, refs, root) && IsDir(t, d) && d != r
    ensures Empty(t, Step(t, r, d, "..")) <==> d == root && Empty(t, d)
  {
    AboveEmptyIff(t, root, d);
  }

  /** When the path is found to lead to an empty directory, the entry about to be removed names it. */
  lemma EmptyEntry(t: Tree, refs: map<nat, nat>, root: nat, r: nat, s: int, path: seq<string>, name: string, d: nat)
    requires Orderly(t, refs, root) && Walk(t, r, s, path) == d && |name| <= NAME_MAX && Regular(name)
    requires Empty(t, Walk(t, r, s, path + [name]))
    ensures Removable(t, d, name) && (IsDir(t, d) && name in t[d].dir ==> Empty(t, t[d].dir[name]))
  {
    hide Sound;
    WalkLast(t, r, s, path, name);
    if name != "" && IsDir(t, d) && name in t[d].dir {
      assert Step(t, r, d, name) == t[d].dir[name];
    }
  }

  lemma HeldSettled(t: Tree, refs: map<nat, nat>, y: nat)
    requires y in t && y in refs && (t[y].nlink > 0 || refs[y] > 0)
    ensures Settled(t, refs, y) == t && SettledRefs(t, refs, y) == refs
  {
  }

  lemma LinkCounts(t: Tree, d: nat, n: string, x: nat)
    requires d in t && x in t
    ensures forall y :: y in t ==> Link(t, d, n, x)[y].nlink >= t[y].nlink
  {
  }

  /** A new inode in terms of references: nobody had it before, and if it goes nothing is left. */
  lemma FreshRefs(t: Tree, held: seq<Slot>, refs: map<nat, nat>, d: nat, x: nat)
    requires d in refs && x !in refs && x !in t && HeldCounted(held, refs)
    ensures More(refs, d)[x := 1] == More(More(refs[x := 0], d), x) && HeldCounted(held, refs[x := 0])
    ensures Settled(Fresh(t, x), refs[x := 0], x) == t && SettledRefs(Fresh(t, x), refs[x := 0], x) == refs
  {
  }

  lemma FreshIs(t: Tree, x: nat)
    requires x !in t
    ensures x in Fresh(t, x) && !IsDir(Fresh(t, x), x) && forall y :: y in t ==> y in Fresh(t, x) && Fresh(t, x)[y] == t[y]
    ensures forall y :: IsDir(Fresh(t, x), y) <==> IsDir(t, y)
  {
  }

  lemma FreshLinked(t: Tree, refs: map<nat, nat>, d: nat, n: string, x: nat)
    requires d in t && x !in refs && d != x
    ensures var t' := Link(Fresh(t, x), d, n, x);
            Settled(t', refs[x := 0], x) == t' && SettledRefs(t', refs[x := 0], x) == refs[x := 0]
  {
  }

  function DotsOf(x: nat, d: nat): map<string, nat> { map["." := x, ".." := d] }

  lemma TreeMkdir(nodes: map<nat, Dnode>, binds: map<nat, map<string, nat>>, d: nat, n: string, x: nat)
    requires nodes.Keys == binds.Keys && d in nodes && nodes[d].isDir && x !in nodes
    ensures var t := TreeOf(nodes, binds);
            && d in t
            && TreeOf(nodes[d := Dnode(true, nodes[d].nlink + 1)][x := Dnode(true, 2)],
                      binds[x := DotsOf(x, d)][d := Bind(binds[d], n, x)]) == Mkdir(t, d, n, x)
  {
    hide DotsOf, Bind;
    var t := TreeOf(nodes, binds);
    var nodes' := nodes[d := Dnode(true, nodes[d].nlink + 1)][x := Dnode(true, 2)];
    var binds' := binds[x := DotsOf(x, d)][d := Bind(binds[d], n, x)];
    var a, b := TreeOf(nodes', binds'), Mkdir(t, d, n, x);
    forall y | y in a ensures a[y] == b[y] {
      if y == d { BindIsPlus(binds[d], n, x); }
      if y == x { DotsAre(x, d); }
    }
  }

  lemma BindIsPlus(m: map<string, nat>, n: string, x: nat)
    ensures Bind(m, n, x) == Plus(m, n, x)
  {
  }

  lemma DotsAre(x: nat, d: nat)
    ensures DotsOf(x, d) == map["." := x, ".." := d]
  {
  }

  lemma NotThere(nodes: map<nat, Dnode>, binds: map<nat, map<string, nat>>, x: nat)
    requires x !in nodes
    ensures x !in TreeOf(nodes, binds)
  {
  }

  lemma MkdirOrderly(t: Tree, refs: map<nat, nat>, root: nat, d: nat, n: string, x: nat)
    requires d in refs && Orderly(t, More(refs, d), root) && IsDir(t, d) && n !in t[d].dir && x !in t && n != ""
    ensures Orderly(Mkdir(t, d, n, x), More(refs, d)[x := 1], root)
  {
    hide Sound;
    MkdirSound(t, root, d, n, x);
  }

  lemma NamedExists(t: Tree, root: nat, d: nat, n: string)
    requires Sound(t, root) && IsDir(t, d) && n in t[d].dir
    ensures t[d].dir[n] in t && t[t[d].dir[n]].nlink > 0
  {
    Linkable(t, d, n);
  }

  /** One more reference to an inode that is named does no harm. */
  lemma NamedMore(nodes: map<nat, Dnode>, binds: map<nat, map<string, nat>>, refs: map<nat, nat>, root: nat, d: nat,
                  n: string)
    requires Orderly(TreeOf(nodes, binds), refs, root) && nodes.Keys == binds.Keys && d in nodes && nodes[d].isDir
    ensures var t := TreeOf(nodes, binds);
            && d in t && (n in binds[d] <==> n in t[d].dir)
            && (n in binds[d] ==>
                  && var y := binds[d][n]; y == t[d].dir[n] && y in nodes && y in t && y in refs && Orderly(t, More(refs, y), root))
  {
    hide Sound;
    var t := TreeOf(nodes, binds);
    if n in binds[d] {
      NamedExists(t, root, d, n);
      MoreKept(t, refs, root, binds[d][n]);
    }
  }

  lemma SoundCloses(t: Tree, root: nat)
    requires Sound(t, root)
    ensures Closed(t)
  {
  }

  lemma MkdirFacts(t: Tree, root: nat, d: nat, n: string, x: nat)
    requires Sound(t, root) && IsDir(t, d) && n !in t[d].dir && x !in t
    ensures var t' := Mkdir(t, d, n, x); x in t' && d in t' && t'[x].nlink == 2 && t'[d].nlink > 0 && x != d
  {
    hide Sound, Mkdir, Entries, Named;
    SoundCloses(t, root);
    DirLinked(t, root, d);
    Mkdired(t, d, n, x);
  }

  lemma MkdirRefs(held: seq<Slot>, refs: map<nat, nat>, d: nat, x: nat)
    requires d in refs && x !in refs && HeldCounted(held, refs)
    ensures More(refs, d)[x := 1] == More(More(refs[x := 0], x), d) && HeldCounted(held, refs[x := 0])
  {
  }

  /** The graph between the entries and the counts, in do_mkdir. */
  ghost predicate Half(nodes: map<nat, Dnode>, binds: map<nat, map<string, nat>>, nodes': map<nat, Dnode>,
                       binds': map<nat, map<string, nat>>, d: nat, n: string, x: nat) {
    && nodes.Keys == binds.Keys && d in nodes && nodes[d].isDir && x !in nodes && n !in binds[d] && n != ""
    && nodes' == nodes[x := Dnode(true, 0)] && binds' == binds[x := DotsOf(x, d)][d := Bind(binds[d], n, x)]
  }

  /** Only x differs, and it was not there. */
  ghost predicate Beside<V>(m: map<nat, V>, m': map<nat, V>, x: nat) {
    x !in m && m'.Keys == m.Keys + {x} && forall y :: y in m ==> m'[y] == m[y]
  }

  /** A directory while it gets its dots. */
  lemma DotsFilled(binds: map<nat, map<string, nat>>, x: nat, dir: nat)
    requires x !in binds
    ensures var a := binds[x := map[]];
            var b := a[x := Bind(a[x], ".", x)];
            && "." !in a[x] && ".." !in b[x] && b[x := Bind(b[x], "..", dir)] == binds[x := DotsOf(x, dir)]
            && Beside(binds, a, x) && Beside(binds, b, x) && Beside(binds, binds[x := DotsOf(x, dir)], x)
  {
    var m: map<string, nat> := map[];
    assert m["." := x][".." := dir] == DotsOf(x, dir);
  }

  lemma BesideOne<V>(m: map<nat, V>, x: nat, v: V)
    requires x !in m
    ensures Beside(m, m[x := v], x)
  {
  }

  lemma BesideGone<V>(m: map<nat, V>, m': map<nat, V>, x: nat)
    requires Beside(m, m', x)
    ensures m' - {x} == m
  {
  }

  /** No inode can be had: the table has no room for as many more, or a buffer could not be had. */
  ghost predicate NoRoom(refs: map<nat, nat>, more: nat, missed: bool) {
    missed || Crowded(refs, more)
  }

  lemma NoRoomMore(refs: map<nat, nat>, x: nat, more: nat, missed: bool)
    requires x in refs && NoRoom(More(refs, x), more, missed)
    ensures NoRoom(refs, more + 1, missed)
  {
    hide Crowded;
    if !missed { CrowdedMore(refs, x, more); }
  }

  lemma NoRoomStill(refs: map<nat, nat>, more: nat, missed: bool, missed': bool)
    requires missed ==> missed'
    ensures NoRoom(refs, more, missed) ==> NoRoom(refs, more, missed')
  {
  }

  /** Component k of the path is too long, and what is before it leads to x. */
  ghost predicate StuckAt(t: Tree, r: nat, s: int, path: seq<string>, k: nat, x: nat) {
    k < |path| && |path[k]| > NAME_MAX && Short(path[..k]) && Walk(t, r, s, path[..k]) == x
  }

  ghost predicate Stuck(t: Tree, r: nat, s: int, path: seq<string>) {
    exists k: nat, x: nat :: StuckAt(t, r, s, path, k, x)
  }

  /** Component k of the path leads nowhere, from x, which is a directory or not. */
  ghost predicate DeadAt(t: Tree, r: nat, s: int, path: seq<string>, k: nat, x: nat, dir: bool) {
    && k < |path| && Short(path[..k + 1]) && Walk(t, r, s, path[..k]) == x
    && Step(t, r, x, path[k]) == -1 && IsDir(t, x) == dir
  }

  /** The walk comes to an end in a directory without the next name, or at what is no directory. */
  ghost predicate Dead(t: Tree, r: nat, s: int, path: seq<string>, dir: bool) {
    exists k: nat, x: nat :: DeadAt(t, r, s, path, k, x, dir)
  }

  /** It does so at one place, so that there is one error for it. */
  lemma DeadOnce(t: Tree, r: nat, s: int, path: seq<string>)
    ensures !(Dead(t, r, s, path, true) && Dead(t, r, s, path, false))
  {
    hide Step;
    forall j: nat, x: nat, k: nat, y: nat | DeadAt(t, r, s, path, j, x, true) && DeadAt(t, r, s, path, k, y, false)
      ensures false
    {
      if j < k { DeadBefore(t, r, s, path, j, x, k); }
      if k < j { DeadBefore(t, r, s, path, k, y, j); }
    }
  }

  lemma DeadBefore(t: Tree, r: nat, s: int, path: seq<string>, k: nat, x: nat, j: nat)
    requires k < j <= |path| && Walk(t, r, s, path[..k]) == x && Step(t, r, x, path[k]) == -1
    ensures Walk(t, r, s, path[..j]) == -1
  {
    hide Step;
    var p := path[..j];
    assert p[..k] == path[..k] && p[k] == path[k];
    WalkSplit(t, r, s, p, k);
    assert p[k..][0] == p[k] && Walk(t, r, -1, p[k..][1..]) == -1;
  }

  /** Why a walk fails, and what it leaves behind. */
  ghost predicate PathError(err: Err, t: Tree, refs: map<nat, nat>, more: nat, missed: bool, r: nat, s: int, path: seq<string>) {
    match err
    case ENOENT => Walk(t, r, s, path) == -1 && !Stuck(t, r, s, path) && Dead(t, r, s, path, true)
    case ENOTDIR => Walk(t, r, s, path) == -1 && !Stuck(t, r, s, path) && Dead(t, r, s, path, false)
    case ENAMETOOLONG => Stuck(t, r, s, path)
    case ENOMEM => NoRoom(refs, more, missed)
    case _ => false
  }

  /** A walk that got stuck has left a reference to the inode before the component too long. */
  ghost predicate Leaked(t: Tree, r: nat, s: int, path: seq<string>, refs: map<nat, nat>, refs': map<nat, nat>) {
    exists k: nat, x: nat :: StuckAt(t, r, s, path, k, x) && x in refs && refs' == More(refs, x)
  }

  lemma ShortNotStuck(t: Tree, r: nat, s: int, path: seq<string>)
    requires Short(path)
    ensures !Stuck(t, r, s, path)
  {
  }

  /** The walk from s over the path has come to x after k components. */
  ghost predicate Reached(t: Tree, r: nat, s: int, path: seq<string>, k: nat, x: nat) {
    k <= |path| && Walk(t, r, s, path[..k]) == x && Short(path[..k])
  }

  lemma ReachedNext(t: Tree, r: nat, s: int, path: seq<string>, k: nat, x: nat)
    requires k < |path| && Reached(t, r, s, path, k, x) && |path[k]| <= NAME_MAX && Step(t, r, x, path[k]) >= 0
    ensures Reached(t, r, s, path, k + 1, Step(t, r, x, path[k]))
  {
    hide Step;
    assert path[..k + 1] == path[..k] + [path[k]];
    WalkLast(t, r, s, path[..k], path[k]);
  }

  lemma ReachedEnd(t: Tree, r: nat, s: nat, path: seq<string>, x: nat)
    ensures Reached(t, r, s, path, 0, s)
    ensures Reached(t, r, s, path, |path|, x) ==> Walk(t, r, s, path) == x && Short(path)
  {
    assert path[..|path|] == path;
  }

  lemma WalkSticks(t: Tree, refs: map<nat, nat>, r: nat, s: nat, path: seq<string>, k: nat, x: nat, missed: bool)
    requires k < |path| && Reached(t, r, s, path, k, x) && |path[k]| > NAME_MAX && x in refs
    ensures PathError(ENAMETOOLONG, t, refs, 1, missed, r, s, path)
    ensures Leaked(t, r, s, path, refs, More(refs, x))
  {
    assert StuckAt(t, r, s, path, k, x);
  }

  lemma WalkFails(t: Tree, refs: map<nat, nat>, r: nat, s: nat, path: seq<string>, k: nat, x: nat, missed: bool,
                  err: Err)
    requires k < |path| && Reached(t, r, s, path, k, x) && |path[k]| <= NAME_MAX
    requires || (err == ENOMEM && NoRoom(refs, 1, missed))
             || (err in {ENOENT, ENOTDIR} && Step(t, r, x, path[k]) == -1 && (err == ENOENT <==> IsDir(t, x)))
    ensures PathError(err, t, refs, 1, missed, r, s, path)
  {
    hide NoRoom, Step;
    if err != ENOMEM {
      assert path[..k + 1] == path[..k] + [path[k]];
      assert DeadAt(t, r, s, path, k, x, err == ENOENT);
      DeadEnd(t, r, s, path, k, x);
      assert forall i :: 0 <= i < k ==> path[..k][i] == path[i];
      forall j: nat, y: nat ensures !StuckAt(t, r, s, path, j, y) {
        if j > k && StuckAt(t, r, s, path, j, y) {
          var p := path[..j];
          assert p[..k] == path[..k] && p[k] == path[k];
          DeadEnd(t, r, s, p, k, x);
        }
      }
    }
  }

  lemma DeadEnd(t: Tree, r: nat, s: nat, path: seq<string>, k: nat, x: nat)
    requires k < |path| && Walk(t, r, s, path[..k]) == x && Step(t, r, x, path[k]) == -1
    ensures Walk(t, r, s, path) == -1
  {
    hide Step;
    WalkSplit(t, r, s, path, k);
    assert path[k..][0] == path[k] && Walk(t, r, -1, path[k..][1..]) == -1;
  }

  /** Why an entry is not removed. */
  ghost predicate EntryError(err: Err, t: Tree, refs: map<nat, nat>, missed: bool, d: int, name: string) {
    match err
    case ENOTDIR => !IsDir(t, d)
    case ENOENT => IsDir(t, d) && Clip(name) !in t[d].dir
    case EISDIR => IsDir(t, Named(t, d, Clip(name)))
    case ENOMEM => NoRoom(refs, 1, missed)
    case _ => false
  }

  lemma EntryFails(err: Err, t: Tree, refs: map<nat, nat>, missed: bool, d: nat, name: string)
    requires match err
             case ENOTDIR => !IsDir(t, d)
             case ENOENT => IsDir(t, d) && Clip(name) !in t[d].dir
             case EISDIR => IsDir(t, Named(t, d, Clip(name)))
             case ENOMEM => NoRoom(refs, 1, missed)
             case _ => false
    ensures EntryError(err, t, refs, missed, d, name)
  {
  }

  /** Why a directory is not found empty. */
  ghost predicate EmptyError(err: Err, t: Tree, refs: map<nat, nat>, missed: bool, r: nat, s: int, path: seq<string>) {
    || PathError(err, t, refs, 1, missed, r, s, path)
    || (err == ENOTDIR && !IsDir(t, Walk(t, r, s, path)))
    || (err == ENOTEMPTY && IsDir(t, Walk(t, r, s, path)) && !Empty(t, Walk(t, r, s, path)))
    || (err == ENOMEM && missed)
  }

  /** Why an entry is not made. */
  ghost predicate NameError(err: Err, t: Tree, d: nat, name: string, namlen: nat, room: bool, missed: bool) {
    || (err == ENOSPC && !room)
    || (err == ENOMEM && missed)
    || (err != OK && d in t && err == Refusal(name, namlen, IsDir(t, d), name in t[d].dir))
  }

  ghost predicate NameErrorAt(err: Err, t: Tree, d: int, name: string, namlen: nat, room: bool, missed: bool) {
    d >= 0 && NameError(err, t, d, name, namlen, room, missed)
  }

  /** Why an inode is not made. */
  ghost predicate InodeError(err: Err, refs: map<nat, nat>, missed: bool, x: nat) {
    (err == ENOSPC && x == 0) || (err == ENOMEM && NoRoom(refs, 1, missed))
  }

  /** Why a new inode is not there under the name. */
  ghost predicate MakeError(err: Err, t: Tree, refs: map<nat, nat>, missed: bool, r: nat, s: int, path: seq<string>,
                            name: string, namlen: nat, x: nat, room: bool) {
    || PathError(err, t, refs, 1, missed, r, s, path)
    || InodeError(err, refs, missed, x)
    || NameErrorAt(err, t, Walk(t, r, s, path), name, namlen, room, missed)
  }

  /** What open has made sure of about an inode that is there. */
  ghost predicate OpenedOld(t: Tree, r: nat, s: int, path: seq<string>, flags: Flags, y: nat) {
    Walk(t, r, s, path) == y && !flags.excl && !(IsDir(t, y) && flags.write)
  }

  /** Why open does not take what is there, or finds nothing. */
  ghost predicate OldError(err: Err, t: Tree, refs: map<nat, nat>, missed: bool, r: nat, s: int, path: seq<string>, flags: Flags) {
    || PathError(err, t, refs, 1, missed, r, s, path)
    || (Walk(t, r, s, path) >= 0 &&
          ((err == EEXIST && flags.excl) || (err == EISDIR && flags.write && IsDir(t, Walk(t, r, s, path))) || err == flags.free))
  }

  /** Nothing is in the way of a new file: the path leads to a directory, the name is free and fits, and there are
      a block, room in the directory and in the table, and buffers. */
  ghost predicate Creatable(t: Tree, refs: map<nat, nat>, missed: bool, r: nat, s: int, path: seq<string>, name: string,
                            namlen: nat, flags: Flags, x: nat, room: bool) {
    var d := Walk(t, r, s, path);
    && flags.creat && Short(path) && IsDir(t, d) && name !in t[d].dir && 0 < |name| <= namlen
    && x != 0 && room && !NoRoom(refs, 1, missed)
  }

  /** Then open has no reason to fail, and finds nothing. */
  lemma NothingInTheWay(t: Tree, root: nat, refs: map<nat, nat>, missed: bool, r: nat, s: int, path: seq<string>,
                        name: string, namlen: nat, flags: Flags, x: nat, room: bool, err: Err, y: nat)
    requires Sound(t, root) && Creatable(t, refs, missed, r, s, path, name, namlen, flags, x, room)
    requires err != OK && namlen <= NAME_MAX && r in t
    ensures flags.creat && (OldError(err, t, refs, missed, r, s, path + [name], flags) ==> err == ENOENT)
    ensures !MakeError(err, t, refs, missed, r, s, path, name, namlen, x, room)
    ensures !OpenedOld(t, r, s, path + [name], flags, y)
  {
    hide Sound, Crowded, Refusal;
    var d := Walk(t, r, s, path);
    DotsBound(t, root, d);
    RefusalIs(name, namlen, true, false);
    WalkLast(t, r, s, path, name);
    assert Short(path + [name]);
    ShortNotStuck(t, r, s, path + [name]);
    ShortNotStuck(t, r, s, path);
    assert (path + [name])[..|path|] == path && (path + [name])[..|path| + 1] == path + [name];
    assert DeadAt(t, r, s, path + [name], |path|, d, true);
    DeadOnce(t, r, s, path + [name]);
  }

  lemma DotsBound(t: Tree, root: nat, d: int)
    requires Sound(t, root) && IsDir(t, d)
    ensures d >= 0 && ".." in t[d].dir
  {
  }

  /** Who has references to an inode keeps it. */
  ghost predicate Keeps(refs: map<nat, nat>, refs': map<nat, nat>) {
    forall x :: x in refs && refs[x] > 0 ==> x in refs' && refs'[x] >= refs[x]
  }

  lemma SettledKeeps(t: Tree, refs: map<nat, nat>, y: nat)
    requires y in t && y in refs
    ensures Keeps(refs, SettledRefs(t, refs, y))
  {
  }

  lemma LeakedKeeps(t: Tree, r: nat, s: int, path: seq<string>, refs: map<nat, nat>, refs': map<nat, nat>)
    requires refs' == refs || Leaked(t, r, s, path, refs, refs')
    ensures Keeps(refs, refs')
  {
  }

  /** The entry is not newer than the disk, if nobody had the inode before. */
  ghost predicate Clean(table: seq<Slot>, c: nat, d: nat, refs: map<nat, nat>)
    requires c < |table|
  {
    d in refs && (refs[d] == 0 ==> table[c].dirty == 0)
  }

  /** The graph with inode x as it is on the disk. */
  ghost function AsOnDisk(t: Tree, x: nat, d: Dnode, binds: map<nat, map<string, nat>>): Tree {
    t[x := Node(d.isDir, d.nlink, if d.isDir && x in binds then binds[x] else map[])]
  }

  lemma TreeBack(nodes: map<nat, Dnode>, binds: map<nat, map<string, nat>>, x: nat, d: Dnode)
    requires nodes.Keys == binds.Keys && x in nodes
    ensures TreeOf(nodes[x := d], binds) == AsOnDisk(TreeOf(nodes, binds), x, d, binds)
    ensures nodes[x] == d ==> nodes[x := d] == nodes
  {
  }

  /** The graph with inode x as on the disk again is in order if and only if nothing was to be written. */
  lemma BackSoundIff(nodes: map<nat, Dnode>, binds: map<nat, map<string, nat>>, root: nat, x: nat, d: Dnode)
    requires nodes.Keys == binds.Keys && x in nodes && Sound(TreeOf(nodes, binds), root)
    ensures Sound(TreeOf(nodes[x := d], binds), root) <==> d == nodes[x]
  {
    hide Sound;
    TreeBack(nodes, binds, x, d);
    if d != nodes[x] {
      OneOffUnsound(TreeOf(nodes, binds), root, x, Node(d.isDir, d.nlink, if d.isDir then binds[x] else map[]));
    }
  }

  /** With links everywhere it does not matter who has references. */
  lemma MountKept(image: map<nat, Dnode>, binds: map<nat, map<string, nat>>, top: nat)
    requires image.Keys == binds.Keys && top in image && forall x :: x in image ==> image[x].nlink > 0
    ensures Kept(TreeOf(image, binds), NoRefs(image)[top := 3])
    ensures top in NoRefs(image) && More(More(More(NoRefs(image), top), top), top) == NoRefs(image)[top := 3]
  {
  }

  /** The flags of open that matter here, and what file_get and fd_get answer. */
  datatype Flags = Flags(creat: bool, excl: bool, write: bool, free: Err)

  predicate AllText(path: seq<string>) {
    forall i :: 0 <= i < |path| ==> Text(path[i])
  }

  // ---- facts about the predicates above, for use where they are not unfolded

  lemma OrderlySound(t: Tree, refs: map<nat, nat>, root: nat)
    requires Orderly(t, refs, root)
    ensures Sound(t, root)
  {
  }

  lemma StaysPut(binds: map<nat, map<string, nat>>, nlink: nat, refs: map<nat, nat>, x: nat)
    requires x in refs && nlink > 0
    ensures PutNodes(binds, nlink, refs, x) == binds
  {
  }

  /** A step from x to y leaves the entry of y as clean as it was when that of x has been let go of. */
  lemma CleanOn(mid: seq<Slot>, now: seq<Slot>, c: nat, n: nat, x: nat, y: nat, refs: map<nat, nat>)
    requires c < |mid| && n < |mid| && HeldBut(mid, now, c) && Holds(mid, n, y) && x in refs && y in refs
    requires Clean(mid, n, y, More(refs, x)) && Clean(mid, c, x, refs)
    requires (x == y <==> n == c) && (n == c ==> mid[c].refcnt > 1)
    ensures |now| == |mid| && Clean(now, n, y, refs) && Holds(now, n, y)
  {
  }

  lemma CleanStill(was: seq<Slot>, mid: seq<Slot>, c: nat, x: nat, refs: map<nat, nat>)
    requires c < |was| && SameDirt(was, mid) && was[c].refcnt > 0 && Clean(was, c, x, refs)
    ensures Clean(mid, c, x, refs) && (refs[x] == 0 ==> mid[c].dirty == 0)
  {
  }

  lemma EntryErrorMore(err: Err, t: Tree, refs: map<nat, nat>, missed: bool, missed': bool, d: int, name: string)
    requires missed ==> missed'
    ensures EntryError(err, t, refs, missed, d, name) ==> EntryError(err, t, refs, missed', d, name)
  {
  }

  lemma PathErrorMore(err: Err, t: Tree, refs: map<nat, nat>, more: nat, missed: bool, missed': bool, r: nat, s: int,
                      path: seq<string>)
    requires missed ==> missed'
    ensures PathError(err, t, refs, more, missed, r, s, path) ==> PathError(err, t, refs, more, missed', r, s, path)
  {
  }

  /** With a reference less there is one place more in the table. */
  lemma PathErrorLess(err: Err, t: Tree, refs: map<nat, nat>, x: nat, missed: bool, r: nat, s: int, path: seq<string>)
    requires x in refs && PathError(err, t, More(refs, x), 1, missed, r, s, path)
    ensures PathError(err, t, refs, 2, missed, r, s, path)
  {
    hide Crowded, More;
    if err == ENOMEM { NoRoomMore(refs, x, 1, missed); }
  }

  lemma LeakedLess(t: Tree, r: nat, s: int, path: seq<string>, refs: map<nat, nat>, x: nat, y: nat)
    requires x in refs && y in refs && Leaked(t, r, s, path, More(refs, x), More(More(refs, x), y))
    ensures Leaked(t, r, s, path, refs, More(refs, y))
  {
    hide StuckAt;
    var k: nat, z: nat :| StuckAt(t, r, s, path, k, z) && z in More(refs, x) && More(More(refs, x), y) == More(More(refs, x), z);
    assert More(More(refs, x), y)[y] == More(More(refs, x), z)[y];
    assert z == y;
  }

  lemma NameErrorMore(err: Err, t: Tree, d: nat, name: string, namlen: nat, room: bool, missed: bool, missed': bool)
    requires missed ==> missed'
    ensures NameError(err, t, d, name, namlen, room, missed) ==> NameError(err, t, d, name, namlen, room, missed')
  {
  }

  lemma NameErrorAtMore(err: Err, t: Tree, d: int, name: string, namlen: nat, room: bool, missed: bool, missed': bool)
    requires missed ==> missed'
    ensures NameErrorAt(err, t, d, name, namlen, room, missed) ==> NameErrorAt(err, t, d, name, namlen, room, missed')
  {
  }

  lemma NameErrorFresh(err: Err, t: Tree, d: nat, name: string, namlen: nat, room: bool, missed: bool, x: nat)
    requires d in t && x !in t
    ensures NameError(err, Fresh(t, x), d, name, namlen, room, missed) ==> NameError(err, t, d, name, namlen, room, missed)
  {
  }

  lemma InodeErrorMore(err: Err, refs: map<nat, nat>, missed: bool, missed': bool, x: nat)
    requires missed ==> missed'
    ensures InodeError(err, refs, missed, x) ==> InodeError(err, refs, missed', x)
  {
  }

  lemma MakeErrorMore(err: Err, t: Tree, refs: map<nat, nat>, missed: bool, missed': bool, r: nat, s: int,
                      path: seq<string>, name: string, namlen: nat, x: nat, room: bool)
    requires missed ==> missed'
    ensures MakeError(err, t, refs, missed, r, s, path, name, namlen, x, room) ==>
              MakeError(err, t, refs, missed', r, s, path, name, namlen, x, room)
  {
    hide PathError, InodeError, NameErrorAt;
    PathErrorMore(err, t, refs, 1, missed, missed', r, s, path);
    InodeErrorMore(err, refs, missed, missed', x);
    NameErrorAtMore(err, t, Walk(t, r, s, path), name, namlen, room, missed, missed');
  }

  lemma ShortPath(path: seq<string>, name: string)
    requires Short(path + [name])
    ensures Short(path)
  {
    assert forall i :: 0 <= i < |path| ==> (path + [name])[i] == path[i];
  }

  lemma StuckPrefix(t: Tree, r: nat, s: int, path: seq<string>, name: string)
    requires !Stuck(t, r, s, path + [name])
    ensures !Stuck(t, r, s, path)
  {
    forall k: nat, x: nat ensures !StuckAt(t, r, s, path, k, x) {
      if k < |path| {
        assert (path + [name])[..k] == path[..k];
        assert !StuckAt(t, r, s, path + [name], k, x);
      }
    }
  }

  lemma TextParts(path: seq<string>, name: string)
    requires AllText(path + [name])
    ensures Text(name) && forall i :: 0 <= i < |path| ==> Text(path[i])
  {
    assert (path + [name])[|path|] == name && forall i :: 0 <= i < |path| ==> (path + [name])[i] == path[i];
  }

  lemma FreshHeld(held: seq<Slot>, refs: map<nat, nat>, x: nat)
    requires x !in refs
    ensures More(refs[x := 0], x) == refs[x := 1] && (HeldCounted(held, refs) ==> HeldCounted(held, refs[x := 0]))
  {
  }

  lemma KeepsSame(refs: map<nat, nat>)
    ensures Keeps(refs, refs)
  {
  }

  lemma MoreKeeps(refs: map<nat, nat>, x: nat)
    requires x in refs
    ensures Keeps(refs, More(refs, x))
  {
  }

  lemma FreshKeeps(refs: map<nat, nat>, x: nat)
    requires x !in refs
    ensures Keeps(refs, refs[x := 0]) && Keeps(refs, refs[x := 1])
  {
  }

  // ---- what is open

  /** There are at least as many references to each inode as are accounted for. */
  ghost predicate Covered(known: multiset<nat>, refs: map<nat, nat>) {
    forall x :: x in known ==> x in refs && known[x] <= refs[x]
  }

  lemma CoveredStill(known: multiset<nat>, refs: map<nat, nat>, refs': map<nat, nat>)
    requires Covered(known, refs) && Keeps(refs, refs')
    ensures Covered(known, refs')
  {
  }

  lemma CoveredOne(r: nat, refs: map<nat, nat>)
    requires r in refs && refs[r] > 0
    ensures Covered(multiset([]) + multiset{r}, refs)
  {
  }

  lemma CoveredMore(inos: seq<nat>, y: nat, r: nat, refs: map<nat, nat>, refs': map<nat, nat>)
    requires Covered(multiset(inos) + multiset{r}, refs)
    requires (y in refs && refs' == More(refs, y)) || (y !in refs && refs' == refs[y := 1])
    ensures Covered(multiset(inos + [y]) + multiset{r}, refs')
  {
    var known := multiset(inos) + multiset{r};
    assert multiset(inos + [y]) + multiset{r} == known + multiset{y};
    if y !in refs { assert y !in known; }
  }

  lemma CoveredLess(inos: seq<nat>, k: nat, r: nat, refs: map<nat, nat>, nlink: nat)
    requires k < |inos| && Covered(multiset(inos) + multiset{r}, refs)
    ensures var x := inos[k];
            && x in refs && refs[x] > 0 && (x == r ==> refs[x] > 1)
            && Covered(multiset(inos[..k] + inos[k + 1..]) + multiset{r}, PutRefs(nlink, refs, x))
  {
    var x := inos[k];
    var less := inos[..k] + inos[k + 1..];
    assert inos == inos[..k] + [x] + inos[k + 1..];
    assert multiset(inos) == multiset(less) + multiset{x};
    var known := multiset(less) + multiset{r};
    assert (multiset(inos) + multiset{r})[x] == known[x] + 1;
    forall y | y in known ensures y in PutRefs(nlink, refs, x) && known[y] <= PutRefs(nlink, refs, x)[y] {
      assert (multiset(inos) + multiset{r})[y] == known[y] + if y == x then 1 else 0;
    }
  }

  /** An inode that stays in the list has another reference than the one that goes. */
  lemma CoveredTwice(inos: seq<nat>, k: nat, j: nat, r: nat, refs: map<nat, nat>)
    requires k < |inos| && j < |inos| && k != j && inos[k] == inos[j] && Covered(multiset(inos) + multiset{r}, refs)
    ensures inos[j] in refs && refs[inos[j]] > 1
  {
    var x := inos[j];
    var less := inos[..j] + inos[j + 1..];
    assert inos == inos[..j] + [x] + inos[j + 1..];
    assert multiset(inos) == multiset(less) + multiset{x};
    assert less[if k < j then k else k - 1] == x;
  }

  lemma CoveredEach(inos: seq<nat>, r: nat, refs: map<nat, nat>)
    requires Covered(multiset(inos) + multiset{r}, refs)
    ensures forall k :: 0 <= k < |inos| ==> inos[k] in refs && refs[inos[k]] > 0
  {
    forall k | 0 <= k < |inos| ensures inos[k] in refs && refs[inos[k]] > 0 {
      assert inos[k] in multiset(inos);
    }
  }

  // ---- several inodes held at once

  /** All in the list are keys. */
  ghost predicate Known<V>(inos: seq<nat>, m: map<nat, V>) {
    forall k :: 0 <= k < |inos| ==> inos[k] in m
  }

  lemma KnownAt<V>(inos: seq<nat>, m: map<nat, V>, k: nat)
    requires Known(inos, m) && k < |inos|
    ensures inos[k] in m
  {
  }

  lemma KnownStill<V>(inos: seq<nat>, m: map<nat, V>, m': map<nat, V>)
    requires Known(inos, m) && m'.Keys == m.Keys
    ensures Known(inos, m')
  {
  }

  /** Each place in the list holds the inode beside it. */
  ghost predicate ListHeld(table: seq<Slot>, cs: seq<nat>, inos: seq<nat>) {
    |cs| == |inos| && forall k :: 0 <= k < |cs| ==> cs[k] < |table| && Holds(table, cs[k], inos[k])
  }

  lemma ListStill(was: seq<Slot>, now: seq<Slot>, cs: seq<nat>, inos: seq<nat>)
    requires ListHeld(was, cs, inos) && StillHeld(was, now)
    ensures ListHeld(now, cs, inos)
  {
  }

  lemma ListAt(table: seq<Slot>, cs: seq<nat>, inos: seq<nat>, k: nat)
    requires ListHeld(table, cs, inos) && k < |cs|
    ensures |cs| == |inos| && cs[k] < |table| && Holds(table, cs[k], inos[k])
  {
  }

  lemma ListMore(table: seq<Slot>, cs: seq<nat>, inos: seq<nat>, i: nat, x: nat)
    requires ListHeld(table, cs, inos) && i < |table| && Holds(table, i, x)
    ensures ListHeld(table, cs + [i], inos + [x])
  {
  }

  lemma ListRest(was: seq<Slot>, now: seq<Slot>, cs: seq<nat>, inos: seq<nat>)
    requires ListHeld(was, cs, inos) && cs != [] && cs[0] < |was| && HeldBut(was, now, cs[0])
    requires inos[0] in inos[1..] ==> was[cs[0]].refcnt > 1
    ensures ListHeld(now, cs[1..], inos[1..])
  {
    forall k | 0 <= k < |cs| - 1 ensures cs[1..][k] < |now| && Holds(now, cs[1..][k], inos[1..][k]) {
      assert Holds(was, cs[k + 1], inos[k + 1]);
      if cs[k + 1] == cs[0] { assert inos[1..][k] == inos[0]; }
    }
  }

  /** The references with one more for each inode in the list. */
  ghost function AllMore(refs: map<nat, nat>, inos: seq<nat>): (m: map<nat, nat>)
    requires Known(inos, refs)
    ensures m.Keys == refs.Keys && forall x :: x in refs ==> m[x] >= refs[x]
  {
    if inos == [] then refs else More(AllMore(refs, inos[1..]), inos[0])
  }

  /** The graph, and the references, once all of them have been let go of. */
  ghost function SettledAll(t: Tree, refs: map<nat, nat>, inos: seq<nat>): (Tree, map<nat, nat>)
    requires Known(inos, refs) && Known(inos, t)
  {
    if inos == [] then (t, refs)
    else if inos[0] in inos[1..] then SettledAll(t, refs, inos[1..])
    else SettledAll(Settled(t, refs, inos[0]), SettledRefs(t, refs, inos[0]), inos[1..])
  }

  /** Letting go of the first of them. */
  lemma PutOfAll(t: Tree, refs: map<nat, nat>, inos: seq<nat>)
    requires inos != [] && Known(inos, refs) && Known(inos, t)
    ensures var x := inos[0];
            var m := AllMore(refs, inos);
            var again := x in inos[1..];
            var t', refs' := if again then t else Settled(t, refs, x), if again then refs else SettledRefs(t, refs, x);
            && m[x] > 0 && (refs[x] > 0 || again ==> m[x] > 1) && Known(inos[1..], refs') && Known(inos[1..], t')
            && PutNodes(t, t[x].nlink, m, x) == t' && PutRefs(t[x].nlink, m, x) == AllMore(refs', inos[1..])
  {
    hide More, PutRefs, PutNodes;
    var x, rest := inos[0], inos[1..];
    RestKnown(t, refs, inos);
    AllMoreAt(refs, rest, x);
    PutMore(t, AllMore(refs, rest), x, t[x].nlink);
    if x !in rest && t[x].nlink == 0 && refs[x] == 0 {
      AllMoreLess(refs, rest, x);
    }
  }

  /** One reference more and one less. */
  lemma PutMore(t: Tree, refs: map<nat, nat>, x: nat, nlink: nat)
    requires x in refs
    ensures var m, gone := More(refs, x), nlink == 0 && refs[x] == 0;
            && x in m && m[x] == refs[x] + 1
            && PutRefs(nlink, m, x) == (if gone then refs - {x} else refs)
            && PutNodes(t, nlink, m, x) == (if gone then t - {x} else t)
  {
  }

  lemma RestKnown(t: Tree, refs: map<nat, nat>, inos: seq<nat>)
    requires inos != [] && Known(inos, refs) && Known(inos, t)
    ensures var x := inos[0];
            && x in refs && x in t && Known(inos[1..], refs) && Known(inos[1..], t)
            && (x !in inos[1..] ==> Known(inos[1..], SettledRefs(t, refs, x)) && Known(inos[1..], Settled(t, refs, x)))
  {
    forall k | 0 <= k < |inos[1..]| ensures inos[1..][k] in inos[1..] && inos[1..][k] == inos[k + 1] {}
  }

  /** An inode that is in the list has a reference more, and one that is not has as many as before. */
  lemma {:induction false} AllMoreAt(refs: map<nat, nat>, inos: seq<nat>, x: nat)
    requires x in refs && Known(inos, refs)
    ensures x in inos ==> AllMore(refs, inos)[x] > refs[x]
    ensures x !in inos ==> AllMore(refs, inos)[x] == refs[x]
  {
    if inos != [] {
      assert forall k :: 0 <= k < |inos[1..]| ==> inos[1..][k] == inos[k + 1];
      AllMoreAt(refs, inos[1..], x);
    }
  }

  lemma MoreLess(m: map<nat, nat>, x: nat, y: nat)
    requires y in m && x != y
    ensures More(m, y) - {x} == More(m - {x}, y)
  {
  }

  lemma {:induction false} AllMoreLess(refs: map<nat, nat>, inos: seq<nat>, x: nat)
    requires x in refs && x !in inos && Known(inos, refs)
    ensures AllMore(refs, inos) - {x} == AllMore(refs - {x}, inos)
  {
    hide More;
    if inos != [] {
      assert forall k :: 0 <= k < |inos[1..]| ==> inos[1..][k] == inos[k + 1];
      AllMoreLess(refs, inos[1..], x);
      MoreLess(AllMore(refs, inos[1..]), x, inos[0]);
    }
  }

  lemma SettledCounted(held: seq<Slot>, t: Tree, refs: map<nat, nat>, y: nat)
    requires y in t && y in refs && HeldCounted(held, refs)
    ensures HeldCounted(held, SettledRefs(t, refs, y))
  {
  }

  /** Whether the graph is in order does not change by that, and who had references keeps the inode. */
  lemma {:induction false} SettledAllSound(t: Tree, refs: map<nat, nat>, inos: seq<nat>, root: nat)
    requires Known(inos, refs) && Known(inos, t)
    requires forall x :: x in t && t[x].nlink == 0 ==> t[x] == Node(false, 0, map[])
    ensures var (t', refs') := SettledAll(t, refs, inos); (Sound(t', root) <==> Sound(t, root)) && Keeps(refs, refs')
    decreases |inos|
  {
    hide Sound;
    if inos != [] {
      assert forall k :: 0 <= k < |inos[1..]| ==> inos[1..][k] == inos[k + 1];
      var x := inos[0];
      if x in inos[1..] {
        SettledAllSound(t, refs, inos[1..], root);
      } else {
        var t1, refs1 := Settled(t, refs, x), SettledRefs(t, refs, x);
        if t[x].nlink == 0 && refs[x] == 0 { DropSoundIff(t, root, x); }
        SettledAllSound(t1, refs1, inos[1..], root);
      }
    }
  }

  /** Each inode in the list has links, or had references. */
  ghost predicate Lasting(t: Tree, refs: map<nat, nat>, inos: seq<nat>)
    requires Known(inos, refs) && Known(inos, t)
  {
    forall k :: 0 <= k < |inos| ==> t[inos[k]].nlink > 0 || refs[inos[k]] > 0
  }

  lemma LastingMore(t: Tree, refs: map<nat, nat>, inos: seq<nat>, y: nat)
    requires Known(inos, refs) && Known(inos, t) && Lasting(t, refs, inos) && y in refs && y in t
    requires t[y].nlink > 0 || refs[y] > 0
    ensures Known(inos + [y], refs) && Known(inos + [y], t) && Lasting(t, refs, inos + [y])
  {
  }

  /** Then nothing goes. */
  lemma {:induction false} SettledAllSame(t: Tree, refs: map<nat, nat>, inos: seq<nat>)
    requires Known(inos, refs) && Known(inos, t) && Lasting(t, refs, inos)
    ensures SettledAll(t, refs, inos) == (t, refs)
    decreases |inos|
  {
    if inos != [] {
      assert forall k :: 0 <= k < |inos[1..]| ==> inos[1..][k] == inos[k + 1];
      SettledAllSame(t, refs, inos[1..]);
    }
  }

  lemma MoreCommutes(m: map<nat, nat>, x: nat, y: nat)
    requires x in m && y in m
    ensures More(More(m, x), y) == More(More(m, y), x)
  {
  }

  /** One more at the end of the list. */
  lemma {:induction false} AllMoreEnd(refs: map<nat, nat>, inos: seq<nat>, y: nat)
    requires Known(inos, refs) && y in refs
    ensures Known(inos + [y], refs) && AllMore(refs, inos + [y]) == More(AllMore(refs, inos), y)
  {
    hide More;
    if inos == [] {
      assert inos + [y] == [y];
    } else {
      MoreCommutes(AllMore(refs, inos[1..]), inos[0], y);
      assert forall k :: 0 <= k < |inos[1..]| ==> inos[1..][k] == inos[k + 1];
      AllMoreEnd(refs, inos[1..], y);
      assert (inos + [y])[1..] == inos[1..] + [y] && (inos + [y])[0] == inos[0];
    }
  }

  lemma {:induction false} NoRoomAll(refs: map<nat, nat>, inos: seq<nat>, more: nat, missed: bool)
    requires Known(inos, refs) && NoRoom(AllMore(refs, inos), more, missed)
    ensures NoRoom(refs, more + |inos|, missed)
    decreases |inos|
  {
    if inos != [] {
      assert forall k :: 0 <= k < |inos[1..]| ==> inos[1..][k] == inos[k + 1];
      NoRoomMore(AllMore(refs, inos[1..]), inos[0], more, missed);
      NoRoomAll(refs, inos[1..], more + 1, missed);
    }
  }

  // ---- the graph while a name is moved

  lemma TreeEnter(nodes: map<nat, Dnode>, binds: map<nat, map<string, nat>>, d: nat, n: string, x: nat)
    requires nodes.Keys == binds.Keys && d in nodes && nodes[d].isDir
    ensures var t := TreeOf(nodes, binds); d in t && TreeOf(nodes, binds[d := Bind(binds[d], n, x)]) == Enter(t, d, n, x)
  {
  }

  /** The entry n of d gets another inode, and the one it named a link less. */
  lemma TreeTakeOver(nodes: map<nat, Dnode>, binds: map<nat, map<string, nat>>, d: nat, n: string, y: nat, x: nat)
    requires nodes.Keys == binds.Keys && d in nodes && y in nodes && nodes[d].isDir && n in binds[d] && binds[d][n] == y
    requires !nodes[y].isDir && nodes[y].nlink > 0
    ensures var t := TreeOf(nodes, binds);
            && d in t && n in t[d].dir && t[d].dir[n] == y && y in t && t[y].nlink > 0
            && TreeOf(nodes[y := Dnode(false, nodes[y].nlink - 1)], binds[d := Bind(binds[d], n, x)])
               == Enter(Unlink(t, d, n), d, n, x)
  {
    var t := TreeOf(nodes, binds);
    assert Plus(t[d].dir - {n}, n, x) == Bind(binds[d], n, x);
  }

  lemma TreeReparent(nodes: map<nat, Dnode>, binds: map<nat, map<string, nat>>, x: nat, d: nat)
    requires nodes.Keys == binds.Keys && x in nodes && nodes[x].isDir
    ensures var t := TreeOf(nodes, binds); x in t && TreeOf(nodes, binds[x := Bind(binds[x], "..", d)]) == Reparent(t, x, d)
  {
  }

  lemma TreeRemove(nodes: map<nat, Dnode>, binds: map<nat, map<string, nat>>, d: nat, n: string)
    requires nodes.Keys == binds.Keys && d in nodes && nodes[d].isDir
    ensures var t := TreeOf(nodes, binds); d in t && TreeOf(nodes, binds[d := binds[d] - {n}]) == Remove(t, d, n)
  {
  }

  /** The counts are the same, and no name is blank. */
  ghost predicate Plain(t: Tree, t': Tree) {
    t'.Keys == t.Keys && (forall z :: z in t ==> t'[z].nlink == t[z].nlink) && (NoBlanks(t) ==> NoBlanks(t'))
  }

  lemma PlainSteps(t: Tree, d: nat, n: string, x: nat)
    requires d in t
    ensures Plain(t, Remove(t, d, n)) && (x in t ==> Plain(t, Links.Reparent(t, x, d))) && (n != "" ==> Plain(t, Enter(t, d, n, x)))
  {
  }

  lemma UnlinkKept(t: Tree, refs: map<nat, nat>, d: nat, n: string)
    requires d in t && n in t[d].dir && t[d].dir[n] in t && t[t[d].dir[n]].nlink > 0
    requires Kept(t, refs) && NoBlanks(t) && refs[t[d].dir[n]] > 0
    ensures Kept(Unlink(t, d, n), refs) && NoBlanks(Unlink(t, d, n))
  {
  }

  lemma PlainKept(t: Tree, t': Tree, refs: map<nat, nat>)
    requires Plain(t, t') && Kept(t, refs) && NoBlanks(t)
    ensures Kept(t', refs) && NoBlanks(t')
  {
  }

  /** Rename keeps the invariant where it keeps the graph in order. */
  lemma RenameOrderly(t: Tree, refs: map<nat, nat>, root: nat, d1: nat, n1: string, d2: nat, n2: string, x: nat,
                      o: Outcome, up: bool)
    requires Orderly(t, refs, root) && Under(t, d1, n1, x) && Regular(n2) && n2 != "" && x in t && d1 in t && IsDir(t, d2)
    requires o != Failed && (o == Taken <==> n2 in t[d2].dir) && !Refused(t, d2, n2, x, o) && (IsDir(t, x) ==> d1 == d2)
    requires o == Taken ==> var y := t[d2].dir[n2]; y in t && t[y].nlink > 0 && y in refs && refs[y] > 0
    ensures Orderly(RenameUp(t, d1, n1, d2, n2, x, o, up), refs, root)
  {
    hide Sound, Kept, NoBlanks, Plain, Enter, Unlink, Links.Reparent, Remove, RenameUp;
    RenameUpSoundIff(t, root, d1, n1, d2, n2, x, o, up);
    RenameInOrder(t, d1, n1, d2, n2, x, o, up);
    var u := if o == Taken then Unlink(t, d2, n2) else t;
    if o == Taken { UnlinkKept(t, refs, d2, n2); }
    var v := Enter(u, d2, n2, x);
    PlainSteps(u, d2, n2, x);
    PlainKept(u, v, refs);
    var w := if up && t[x].isDir then Links.Reparent(v, x, d2) else v;
    if up && t[x].isDir {
      PlainSteps(v, d2, n2, x);
      PlainKept(v, w, refs);
    }
    PlainSteps(w, d1, n1, x);
    PlainKept(w, Remove(w, d1, n1), refs);
  }
}
