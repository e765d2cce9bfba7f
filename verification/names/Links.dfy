/** The graph of directories and inodes, and what the system calls of kern/fs/mknod.c do to it. */
module Links {
  datatype Node = Node(isDir: bool, nlink: nat, dir: map<string, nat>)

  type Tree = map<nat, Node>

  /** Every entry that names inode x, as a directory and a name in it. */
  ghost function Entries(t: Tree, x: nat): set<(nat, string)> {
    set d, n | d in t && t[d].isDir && n in t[d].dir && t[d].dir[n] == x :: (d, n)
  }

  predicate Regular(n: string) { n != "." && n != ".." }

  ghost predicate IsDir(t: Tree, d: int) { d >= 0 && d in t && t[d].isDir }

  /** What n names in d, if anything. */
  function Named(t: Tree, d: int, n: string): int {
    if d >= 0 && d in t && n in t[d].dir then t[d].dir[n] else -1
  }

  /** The link count of an inode is the number of entries that name it. */
  ghost predicate Counted(t: Tree) {
    forall x :: x in t ==> t[x].nlink == |Entries(t, x)|
  }

  /** Only directories have entries, and these name inodes that exist. */
  ghost predicate Closed(t: Tree) {
    forall d, n :: Named(t, d, n) >= 0 ==> IsDir(t, d) && Named(t, d, n) in t.Keys
  }

  /** In a directory "." names it and ".." names a directory. */
  ghost predicate Dots(t: Tree) {
    forall d :: IsDir(t, d) ==> Named(t, d, ".") == d && IsDir(t, Named(t, d, ".."))
  }

  /** Inode y is named n in d, by other than "." and "..". */
  ghost predicate Under(t: Tree, d: int, n: string, y: int) {
    IsDir(t, d) && Regular(n) && Named(t, d, n) == y && y >= 0
  }

  /** A directory is under the one its ".." names, by one name only; the root is under none. */
  ghost predicate OneParent(t: Tree, root: nat) {
    && (forall d, n, y :: Under(t, d, n, y) && IsDir(t, y) ==> y != root && Named(t, y, "..") == d)
    && (forall d, n, m, y :: Under(t, d, n, y) && Under(t, d, m, y) && IsDir(t, y) ==> n == m)
  }

  ghost predicate HasParent(t: Tree, root: nat) {
    && IsDir(t, root) && Named(t, root, "..") == root
    && (forall y :: IsDir(t, y) && y != root ==> exists n :: Under(t, Named(t, y, ".."), n, y))
  }

  /** A directory is deeper than the one it is under, so that no directory is under itself. */
  ghost predicate Ranked(t: Tree, depth: map<nat, nat>) {
    && t.Keys <= depth.Keys
    && (forall d: nat, n, y: nat :: Under(t, d, n, y) && IsDir(t, y) && d in depth && y in depth ==> depth[d] < depth[y])
  }

  ghost predicate Acyclic(t: Tree) {
    exists depth :: Ranked(t, depth)
  }

  ghost predicate Sound(t: Tree, root: nat) {
    Closed(t) && Dots(t) && OneParent(t, root) && HasParent(t, root) && Acyclic(t) && Counted(t)
  }

  /** The directories, and the names of directories, are the same. */
  ghost predicate SameDirs(t: Tree, t': Tree) {
    && (forall y :: IsDir(t', y) <==> IsDir(t, y))
    && (forall y :: IsDir(t, y) ==> Named(t', y, ".") == Named(t, y, ".") && Named(t', y, "..") == Named(t, y, ".."))
    && (forall d, n, y :: IsDir(t, y) ==> (Under(t', d, n, y) <==> Under(t, d, n, y)))
  }

  /** The order of depth stays good while nothing new is under anything. */
  lemma FewerUnder(t: Tree, t': Tree)
    requires Acyclic(t)
    requires forall d, n, y :: Under(t', d, n, y) && IsDir(t', y) ==> Under(t, d, n, y) && IsDir(t, y)
    ensures Acyclic(t')
  {
    var depth :| Ranked(t, depth);
    var depth' := map y | y in t.Keys + t'.Keys :: if y in depth then depth[y] else 0;
    assert Ranked(t', depth');
  }

  lemma SameShape(t: Tree, t': Tree, root: nat)
    requires Dots(t) && OneParent(t, root) && HasParent(t, root) && Acyclic(t) && SameDirs(t, t')
    ensures Dots(t') && OneParent(t', root) && HasParent(t', root) && Acyclic(t')
  {
    hide IsDir, Named, Under;
    FewerUnder(t, t');
    forall y | IsDir(t', y) && y != root ensures exists n :: Under(t', Named(t', y, ".."), n, y) {
      var n :| Under(t, Named(t, y, ".."), n, y);
      assert Under(t', Named(t', y, ".."), n, y);
    }
  }

  /** The directory reached from y by n steps of "..". */
  ghost function Climb(t: Tree, y: int, n: nat): int
    decreases n
  {
    if n == 0 then y else Climb(t, Named(t, y, ".."), n - 1)
  }

  /** The directories form a tree: from each of them ".." leads to the root. */
  lemma ClimbsToRoot(t: Tree, root: nat, y: nat)
    requires Dots(t) && HasParent(t, root) && Acyclic(t) && IsDir(t, y)
    ensures exists n: nat :: Climb(t, y, n) == root
  {
    var depth :| Ranked(t, depth);
    ClimbsFrom(t, root, depth, y);
  }

  lemma {:induction false} ClimbsFrom(t: Tree, root: nat, depth: map<nat, nat>, y: nat)
    requires Dots(t) && HasParent(t, root) && Ranked(t, depth) && IsDir(t, y)
    ensures exists n: nat :: Climb(t, y, n) == root
    decreases if y in depth then depth[y] else 0
  {
    if y == root {
      assert Climb(t, y, 0) == root;
    } else {
      var p := Named(t, y, "..");
      var m :| Under(t, p, m, y);
      ClimbsFrom(t, root, depth, p);
      var n: nat :| Climb(t, p, n) == root;
      assert Climb(t, y, n + 1) == root;
    }
  }

  lemma UnderHas(t: Tree, d: nat, n: string, x: nat)
    requires Under(t, d, n, x)
    ensures d in t && n in t[d].dir && t[d].dir[n] == x
  {
  }

  lemma UnderExists(t: Tree, d: nat, n: string, x: nat)
    requires Closed(t) && Under(t, d, n, x)
    ensures x in t
  {
    assert Named(t, d, n) in t.Keys;
  }

  lemma Unnamed(t: Tree, d: nat, n: string)
    requires d in t && n !in t[d].dir
    ensures Named(t, d, n) == -1
  {
  }

  lemma FileNotDots(t: Tree, d: nat, n: string)
    requires Dots(t) && IsDir(t, d) && n in t[d].dir && !IsDir(t, t[d].dir[n])
    ensures Regular(n)
  {
    assert Named(t, d, ".") == d && IsDir(t, Named(t, d, ".."));
  }

  lemma OwnDot(t: Tree, d: nat)
    requires Dots(t) && IsDir(t, d)
    ensures (d, ".") in Entries(t, d)
  {
    assert Named(t, d, ".") == d;
  }

  function Plus(m: map<string, nat>, n: string, x: nat): map<string, nat> { m[n := x] }

  /** A new entry. */
  function Enter(t: Tree, d: nat, n: string, x: nat): (t': Tree)
    requires d in t
    ensures t'.Keys == t.Keys
  {
    t[d := t[d].(dir := Plus(t[d].dir, n, x))]
  }

  function Remove(t: Tree, d: nat, n: string): (t': Tree)
    requires d in t
    ensures t'.Keys == t.Keys
  {
    t[d := t[d].(dir := t[d].dir - {n})]
  }

  function Relink(t: Tree, x: nat, k: nat): (t': Tree)
    requires x in t
    ensures t'.Keys == t.Keys
  {
    t[x := t[x].(nlink := k)]
  }

  lemma EntryAdded(t: Tree, d: nat, n: string, x: nat)
    requires IsDir(t, d) && n !in t[d].dir
    ensures var t' := Enter(t, d, n, x);
            && (forall y :: IsDir(t', y) <==> IsDir(t, y)) && (forall y :: y in t ==> t'[y].nlink == t[y].nlink)
            && (forall e, m :: Named(t', e, m) == if e == d && m == n then x else Named(t, e, m))
            && (forall y :: Entries(t', y) == Entries(t, y) + if y == x then {(d, n)} else {})
            && (forall y :: (d, n) !in Entries(t, y)) && Named(t, d, n) == -1
  {
  }

  lemma Removed(t: Tree, d: nat, n: string)
    requires IsDir(t, d) && n in t[d].dir
    ensures var t' := Remove(t, d, n);
            && (forall y :: IsDir(t', y) <==> IsDir(t, y)) && (forall y :: y in t ==> t'[y].nlink == t[y].nlink)
            && (forall e, m :: Named(t', e, m) == if e == d && m == n then -1 else Named(t, e, m))
            && (forall y :: Entries(t', y) == Entries(t, y) - {(d, n)})
            && (forall y :: (d, n) in Entries(t, y) <==> t[d].dir[n] == y)
  {
  }

  lemma Relinked(t: Tree, x: nat, k: nat)
    requires x in t
    ensures var t' := Relink(t, x, k);
            && (forall y :: IsDir(t', y) <==> IsDir(t, y)) && (forall y :: y in t && y != x ==> t'[y].nlink == t[y].nlink)
            && t'[x].nlink == k
            && (forall e, m :: Named(t', e, m) == Named(t, e, m))
            && (forall y :: Entries(t', y) == Entries(t, y))
  {
  }

  lemma DotsTaken(t: Tree, d: nat)
    requires Dots(t) && IsDir(t, d)
    ensures "." in t[d].dir && ".." in t[d].dir
  {
    assert Named(t, d, ".") == d && IsDir(t, Named(t, d, ".."));
  }

  // ---- link: another entry for an inode that is not a directory

  function Link(t: Tree, d: nat, n: string, x: nat): (t': Tree)
    requires d in t && x in t
    ensures t'.Keys == t.Keys
  {
    Relink(Enter(t, d, n, x), x, t[x].nlink + 1)
  }

  /** The graph after link. */
  lemma Linked(t: Tree, d: nat, n: string, x: nat)
    requires IsDir(t, d) && n !in t[d].dir && x in t
    ensures var t' := Link(t, d, n, x);
            && (forall y :: IsDir(t', y) <==> IsDir(t, y))
            && (forall y :: y in t ==> t'[y].nlink == t[y].nlink + if y == x then 1 else 0)
            && (forall e, m :: Named(t', e, m) == if e == d && m == n then x else Named(t, e, m))
            && (forall y :: Entries(t', y) == Entries(t, y) + if y == x then {(d, n)} else {})
            && (forall y :: (d, n) !in Entries(t, y)) && Named(t, d, n) == -1
  {
    hide Named, Entries, Enter, Relink;
    EntryAdded(t, d, n, x);
    Relinked(Enter(t, d, n, x), x, t[x].nlink + 1);
  }

  lemma LinkSound(t: Tree, root: nat, d: nat, n: string, x: nat)
    requires Sound(t, root) && IsDir(t, d) && n !in t[d].dir && x in t && !t[x].isDir
    ensures Sound(Link(t, d, n, x), root)
  {
    hide Named, Entries, OneParent, HasParent, Dots, Counted, Link, SameDirs;
    var t' := Link(t, d, n, x);
    Linked(t, d, n, x);
    LinkCounted(t, d, n, x);
    LinkSame(t, d, n, x);
    SameShape(t, t', root);
  }

  lemma LinkCounted(t: Tree, d: nat, n: string, x: nat)
    requires Counted(t) && IsDir(t, d) && n !in t[d].dir && x in t
    ensures Counted(Link(t, d, n, x))
  {
    hide IsDir, Named, Entries, Link;
    Linked(t, d, n, x);
  }

  lemma LinkSame(t: Tree, d: nat, n: string, x: nat)
    requires Dots(t) && IsDir(t, d) && n !in t[d].dir && x in t && !t[x].isDir
    ensures SameDirs(t, Link(t, d, n, x))
  {
    hide Named, Entries, Link, Dots;
    DotsTaken(t, d);
    Linked(t, d, n, x);
  }

  /** The graph after a new inode has appeared under a new name; a directory comes with its dots. */
  function Create(t: Tree, d: nat, n: string, x: nat, node: Node): (t': Tree)
    requires d in t
    ensures t'.Keys == t.Keys + {x}
  {
    Enter(t[x := node], d, n, x)
  }

  /** The entries of x that name y, when x has the given directory. */
  ghost function Own(x: nat, node: Node, y: nat): set<(nat, string)> {
    if node.isDir then set m | m in node.dir && node.dir[m] == y :: (x, m) else {}
  }

  lemma Created(t: Tree, d: nat, n: string, x: nat, node: Node)
    requires IsDir(t, d) && n !in t[d].dir && x !in t
    ensures var t' := Create(t, d, n, x, node);
            && (forall y :: IsDir(t', y) <==> IsDir(t, y) || (y == x && node.isDir))
            && (forall y :: y in t ==> t'[y].nlink == t[y].nlink) && t'[x].nlink == node.nlink
            && (forall e, m :: Named(t', e, m) ==
                  if e == d && m == n then x else if e == x then (if m in node.dir then node.dir[m] else -1) else Named(t, e, m))
            && (forall y :: Entries(t', y) == Entries(t, y) + Own(x, node, y) + if y == x then {(d, n)} else {})
  {
    var u := t[x := node];
    assert forall y :: Entries(u, y) == Entries(t, y) + Own(x, node, y);
    EntryAdded(u, d, n, x);
  }

  /** An inode number not in use occurs nowhere. */
  lemma Unknown(t: Tree, d: nat, n: string, x: nat)
    requires Closed(t) && IsDir(t, d) && n !in t[d].dir && x !in t
    ensures Entries(t, x) == {} && Named(t, d, n) == -1 && (forall m :: Named(t, x, m) == -1) && !IsDir(t, x)
    ensures (forall e, m :: Named(t, e, m) != x) && (forall y, m :: (x, m) !in Entries(t, y))
    ensures forall y :: (d, n) !in Entries(t, y)
  {
    forall e, m ensures Named(t, e, m) != x {
      if Named(t, e, m) >= 0 { assert Named(t, e, m) in t.Keys; }
    }
    assert forall e, m :: (e, m) in Entries(t, x) ==> Named(t, e, m) == x;
  }

  // ---- alloc_inode: an inode without links; mknod and open with O_CREAT then link it

  function Fresh(t: Tree, x: nat): Tree { t[x := Node(false, 0, map[])] }

  lemma FreshSound(t: Tree, root: nat, x: nat)
    requires Sound(t, root) && x !in t
    ensures Sound(Fresh(t, x), root)
  {
    hide Named, Entries, OneParent, HasParent, Dots, Acyclic, Fresh;
    Freshened(t, x);
    SameShape(t, Fresh(t, x), root);
  }

  lemma Freshened(t: Tree, x: nat)
    requires Closed(t) && x !in t
    ensures var t' := Fresh(t, x);
            && t'.Keys == t.Keys + {x} && t'[x].nlink == 0 && (forall y :: y in t ==> t'[y].nlink == t[y].nlink)
            && (forall y :: IsDir(t', y) <==> IsDir(t, y))
            && (forall e, m :: Named(t', e, m) == Named(t, e, m))
            && (forall y :: Entries(t', y) == Entries(t, y)) && Entries(t, x) == {}
  {
    forall e, m ensures Named(t, e, m) != x {
      if Named(t, e, m) >= 0 { assert Named(t, e, m) in t.Keys; }
    }
    assert forall e, m :: (e, m) in Entries(t, x) ==> Named(t, e, m) == x;
  }

  // ---- mkdir: a new directory

  function Mkdir(t: Tree, d: nat, n: string, x: nat): (t': Tree)
    requires d in t
    ensures t'.Keys == t.Keys + {x}
  {
    var u := Create(t, d, n, x, Node(true, 2, map["." := x, ".." := d]));
    Relink(u, d, u[d].nlink + 1)
  }

  lemma Mkdired(t: Tree, d: nat, n: string, x: nat)
    requires Closed(t) && IsDir(t, d) && n !in t[d].dir && x !in t
    ensures var t' := Mkdir(t, d, n, x);
            && (forall y :: IsDir(t', y) <==> IsDir(t, y) || y == x)
            && (forall y :: y in t ==> t'[y].nlink == t[y].nlink + if y == d then 1 else 0) && t'[x].nlink == 2
            && (forall e, m :: Named(t', e, m) ==
                  if e == d && m == n then x
                  else if e == x then (if m == "." then x else if m == ".." then d else -1) else Named(t, e, m))
            && (forall y :: Entries(t', y) == Entries(t, y) + (if y == x then {(d, n), (x, ".")} else {})
                  + if y == d then {(x, "..")} else {})
  {
    hide Named, Entries, Create, Relink, Own;
    var dots := map["." := x, ".." := d];
    Created(t, d, n, x, Node(true, 2, dots));
    var u := Create(t, d, n, x, Node(true, 2, dots));
    Relinked(u, d, u[d].nlink + 1);
    OwnDots(x, d);
  }

  lemma OwnDots(x: nat, d: nat)
    requires x != d
    ensures var node := Node(true, 2, map["." := x, ".." := d]);
            forall y :: Own(x, node, y) == (if y == x then {(x, ".")} else {}) + if y == d then {(x, "..")} else {}
  {
  }

  lemma MkdirSound(t: Tree, root: nat, d: nat, n: string, x: nat)
    requires Sound(t, root) && IsDir(t, d) && n !in t[d].dir && x !in t
    ensures Sound(Mkdir(t, d, n, x), root)
  {
    hide Named, Entries, OneParent, HasParent, Dots, Counted, Mkdir, Acyclic;
    Mkdired(t, d, n, x);
    MkdirCounted(t, d, n, x);
    MkdirShape(t, root, d, n, x);
    MkdirAcyclic(t, d, n, x);
  }

  lemma MkdirAcyclic(t: Tree, d: nat, n: string, x: nat)
    requires Closed(t) && Acyclic(t) && IsDir(t, d) && n !in t[d].dir && x !in t
    ensures Acyclic(Mkdir(t, d, n, x))
  {
    hide Named, Entries, Mkdir;
    Unknown(t, d, n, x);
    Mkdired(t, d, n, x);
    var depth :| Ranked(t, depth);
    var t' := Mkdir(t, d, n, x);
    assert forall e, m, y :: Under(t', e, m, y) ==> Under(t, e, m, y) || (e == d && m == n && y == x);
    assert Ranked(t', depth[x := depth[d] + 1]);
  }

  lemma MkdirCounted(t: Tree, d: nat, n: string, x: nat)
    requires Closed(t) && Counted(t) && IsDir(t, d) && n !in t[d].dir && x !in t
    ensures Counted(Mkdir(t, d, n, x))
  {
    hide Named, Entries, Create, Mkdir, IsDir;
    Unknown(t, d, n, x);
    Mkdired(t, d, n, x);
  }

  lemma MkdirShape(t: Tree, root: nat, d: nat, n: string, x: nat)
    requires Closed(t) && Dots(t) && OneParent(t, root) && HasParent(t, root)
    requires IsDir(t, d) && n !in t[d].dir && x !in t
    ensures var t' := Mkdir(t, d, n, x); Dots(t') && OneParent(t', root) && HasParent(t', root)
  {
    hide Named, Entries, Create, Mkdir;
    var t' := Mkdir(t, d, n, x);
    DotsTaken(t, d);
    Unknown(t, d, n, x);
    Mkdired(t, d, n, x);
    assert forall e, m, y :: Under(t', e, m, y) <==> Under(t, e, m, y) || (e == d && m == n && y == x);
    forall y | IsDir(t', y) && y != root ensures exists m :: Under(t', Named(t', y, ".."), m, y) {
      if y == x {
        assert Under(t', d, n, x);
        assert Named(t', y, "..") == d;
      } else {
        assert IsDir(t, y);
        assert exists m :: Under(t, Named(t, y, ".."), m, y);
        var m :| Under(t, Named(t, y, ".."), m, y);
        assert Under(t', Named(t, y, ".."), m, y);
        assert Named(t', y, "..") == Named(t, y, "..");
      }
    }
  }

  // ---- unlink: an entry for an inode that is not a directory goes

  /** An inode with an entry has a positive count. */
  lemma Linkable(t: Tree, d: nat, n: string)
    requires Closed(t) && Counted(t) && IsDir(t, d) && n in t[d].dir
    ensures var x := t[d].dir[n]; x in t && t[x].nlink > 0
  {
    var x := t[d].dir[n];
    assert Named(t, d, n) == x;
    assert (d, n) in Entries(t, x);
  }

  function Unlink(t: Tree, d: nat, n: string): (t': Tree)
    requires d in t && n in t[d].dir && t[d].dir[n] in t && t[t[d].dir[n]].nlink > 0
    ensures t'.Keys == t.Keys
  {
    var x := t[d].dir[n];
    Relink(Remove(t, d, n), x, t[x].nlink - 1)
  }

  lemma Unlinked(t: Tree, d: nat, n: string)
    requires IsDir(t, d) && n in t[d].dir && t[d].dir[n] in t && t[t[d].dir[n]].nlink > 0
    ensures var t', x := Unlink(t, d, n), t[d].dir[n];
            && (forall y :: IsDir(t', y) <==> IsDir(t, y))
            && (forall y :: y in t ==> t'[y].nlink == t[y].nlink - if y == x then 1 else 0)
            && (forall e, m :: Named(t', e, m) == if e == d && m == n then -1 else Named(t, e, m))
            && (forall y :: Entries(t', y) == Entries(t, y) - {(d, n)})
            && (forall y :: (d, n) in Entries(t, y) <==> y == x) && Named(t, d, n) == x
  {
    hide Entries, Remove, Relink;
    var x := t[d].dir[n];
    Removed(t, d, n);
    Relinked(Remove(t, d, n), x, t[x].nlink - 1);
  }

  lemma UnlinkSound(t: Tree, root: nat, d: nat, n: string)
    requires Sound(t, root) && IsDir(t, d) && n in t[d].dir && !IsDir(t, t[d].dir[n])
    ensures var x := t[d].dir[n]; x in t && t[x].nlink > 0 && Sound(Unlink(t, d, n), root)
  {
    hide Named, Entries, OneParent, HasParent, Dots, Counted, Unlink, SameDirs;
    Linkable(t, d, n);
    Unlinked(t, d, n);
    UnlinkCounted(t, d, n);
    UnlinkSame(t, d, n);
    SameShape(t, Unlink(t, d, n), root);
  }

  lemma UnlinkCounted(t: Tree, d: nat, n: string)
    requires Counted(t) && IsDir(t, d) && n in t[d].dir && t[d].dir[n] in t && t[t[d].dir[n]].nlink > 0
    ensures Counted(Unlink(t, d, n))
  {
    hide Named, Entries, Unlink;
    Unlinked(t, d, n);
  }

  lemma UnlinkSame(t: Tree, d: nat, n: string)
    requires Dots(t) && IsDir(t, d) && n in t[d].dir && !IsDir(t, t[d].dir[n])
    requires t[d].dir[n] in t && t[t[d].dir[n]].nlink > 0
    ensures SameDirs(t, Unlink(t, d, n))
  {
    hide Named, Entries, Unlink, Dots;
    FileNotDots(t, d, n);
    Unlinked(t, d, n);
  }

  // ---- rmdir: a directory with nothing but its dots goes

  ghost predicate Empty(t: Tree, x: int) {
    IsDir(t, x) && forall m :: m in t[x].dir ==> !Regular(m)
  }

  /** Nothing is under an empty directory, and only its name and its own dot name it. */
  lemma EmptyNamed(t: Tree, root: nat, d: nat, n: string, x: nat)
    requires Dots(t) && OneParent(t, root) && HasParent(t, root) && Under(t, d, n, x) && Empty(t, x)
    ensures Entries(t, x) == {(d, n), (x, ".")} && x != root && x != d && Named(t, x, "..") == d
    ensures forall e :: IsDir(t, e) ==> Named(t, e, "..") != x
  {
    assert forall m, e :: !Under(t, x, m, e);
    assert Named(t, x, ".") == x && IsDir(t, Named(t, x, ".."));
    forall e, m | (e, m) in Entries(t, x) ensures (e, m) in {(d, n), (x, ".")} {
      assert Named(t, e, m) == x;
      assert Named(t, e, ".") == e;
      if Regular(m) { assert Under(t, e, m, x); }
    }
  }

  /** A directory becomes a file without contents. */
  function Retire(t: Tree, x: nat, k: nat): Tree { t[x := Node(false, k, map[])] }

  /** Both counts and the mode change before the entry is cleared. */
  function Rmdir(t: Tree, d: nat, n: string): (t': Tree)
    requires d in t && n in t[d].dir && t[d].dir[n] in t && t[d].nlink > 0 && t[t[d].dir[n]].nlink > 1
    ensures t'.Keys == t.Keys
  {
    var x := t[d].dir[n];
    Retire(Relink(Remove(t, d, n), d, t[d].nlink - 1), x, t[x].nlink - 2)
  }

  lemma Rmdired(t: Tree, d: nat, n: string, x: nat)
    requires Empty(t, x) && IsDir(t, d) && n in t[d].dir && t[d].dir[n] == x && x != d
    requires Named(t, x, ".") == x && Named(t, x, "..") == d && t[d].nlink > 0 && t[x].nlink > 1
    ensures var t' := Rmdir(t, d, n);
            && (forall y :: IsDir(t', y) <==> IsDir(t, y) && y != x)
            && (forall y :: y in t ==> t'[y].nlink == t[y].nlink - if y == x then 2 else if y == d then 1 else 0)
            && (forall e, m :: Named(t', e, m) == if e == x || (e == d && m == n) then -1 else Named(t, e, m))
            && (forall y :: Entries(t', y) == Entries(t, y) - {(d, n), (x, "."), (x, "..")})
  {
    hide Entries, Named;
    Removed(t, d, n);
    var u := Remove(t, d, n);
    Relinked(u, d, t[d].nlink - 1);
    assert Relink(u, d, t[d].nlink - 1)[x] == t[x];
    Retired(Relink(u, d, t[d].nlink - 1), x, t[x].nlink - 2);
  }

  /** A directory with only its dots that becomes a file. */
  lemma Retired(t: Tree, x: nat, k: nat)
    requires x in t && forall m :: m in t[x].dir ==> !Regular(m)
    ensures var t' := Retire(t, x, k);
            && (forall y :: IsDir(t', y) <==> IsDir(t, y) && y != x)
            && (forall e, m :: Named(t', e, m) == if e == x then -1 else Named(t, e, m))
            && (forall y :: Entries(t', y) == Entries(t, y) - {(x, "."), (x, "..")})
  {
  }

  lemma RmdirReady(t: Tree, root: nat, d: nat, n: string, x: nat)
    requires Sound(t, root) && Under(t, d, n, x) && Empty(t, x)
    ensures x != d && t[d].nlink > 0 && t[x].nlink == 2 && Entries(t, x) == {(d, n), (x, ".")}
  {
    hide OneParent, HasParent, Dots;
    EmptyNamed(t, root, d, n, x);
    OwnDot(t, d);
  }

  lemma RmdirSound(t: Tree, root: nat, d: nat, n: string, x: nat)
    requires Sound(t, root) && Under(t, d, n, x) && Empty(t, x)
    ensures t[d].nlink > 0 && t[x].nlink == 2
    ensures Sound(Rmdir(t, d, n), root) && Rmdir(t, d, n)[x].nlink == 0
  {
    hide Named, Entries, OneParent, HasParent, Dots, Counted, Rmdir, Empty, Closed, Under, Acyclic;
    EmptyNamed(t, root, d, n, x);
    RmdirReady(t, root, d, n, x);
    UnderFacts(t, d, n, x);
    Rmdired(t, d, n, x);
    RmdirCounted(t, d, n, x);
    RmdirShape(t, root, d, n, x);
    RmdirClosed(t, d, n, x);
    RmdirUnder(t, d, n, x);
    FewerUnder(t, Rmdir(t, d, n));
  }

  lemma UnderFacts(t: Tree, d: nat, n: string, x: nat)
    requires Dots(t) && Under(t, d, n, x) && Empty(t, x)
    ensures Regular(n) && IsDir(t, d) && IsDir(t, x) && n in t[d].dir && t[d].dir[n] == x && Named(t, x, ".") == x
  {
  }

  lemma RmdirClosed(t: Tree, d: nat, n: string, x: nat)
    requires Closed(t) && Empty(t, x) && IsDir(t, d) && n in t[d].dir && t[d].dir[n] == x && x != d
    requires Named(t, x, ".") == x && Named(t, x, "..") == d && t[d].nlink > 0 && t[x].nlink > 1
    ensures Closed(Rmdir(t, d, n))
  {
    hide Named, Entries, Rmdir, IsDir;
    Rmdired(t, d, n, x);
  }

  /** Which inodes the three entries name that go with a directory. */
  lemma RmdirEntries(t: Tree, d: nat, n: string, x: nat)
    requires IsDir(t, x) && IsDir(t, d) && n in t[d].dir && t[d].dir[n] == x && x != d
    requires Named(t, x, ".") == x && Named(t, x, "..") == d
    ensures forall y :: (d, n) in Entries(t, y) <==> y == x
    ensures forall y :: (x, ".") in Entries(t, y) <==> y == x
    ensures forall y :: (x, "..") in Entries(t, y) <==> y == d
  {
  }

  lemma RmdirCounted(t: Tree, d: nat, n: string, x: nat)
    requires Counted(t) && Empty(t, x) && IsDir(t, d) && n in t[d].dir && t[d].dir[n] == x && x != d
    requires Named(t, x, ".") == x && Named(t, x, "..") == d && t[d].nlink > 0 && t[x].nlink > 1
    requires Entries(t, x) == {(d, n), (x, ".")}
    ensures Counted(Rmdir(t, d, n))
  {
    hide Named, Rmdir, Entries;
    Rmdired(t, d, n, x);
    RmdirEntries(t, d, n, x);
    var t' := Rmdir(t, d, n);
    forall y | y in t' ensures t'[y].nlink == |Entries(t', y)| {
      if y == d {
        assert Entries(t', d) == Entries(t, d) - {(x, "..")};
      } else if y == x {
        assert Entries(t', x) == {};
      } else {
        assert Entries(t', y) == Entries(t, y);
      }
    }
  }

  lemma RmdirShape(t: Tree, root: nat, d: nat, n: string, x: nat)
    requires Dots(t) && OneParent(t, root) && HasParent(t, root) && Under(t, d, n, x) && Empty(t, x)
    requires n in t[d].dir && t[d].dir[n] == x && t[d].nlink > 0 && t[x].nlink > 1 && Named(t, x, ".") == x
    ensures var t' := Rmdir(t, d, n); Dots(t') && OneParent(t', root) && HasParent(t', root)
  {
    hide Named, Entries, Rmdir, Under, OneParent, HasParent, Empty;
    EmptyNamed(t, root, d, n, x);
    UnderFacts(t, d, n, x);
    Rmdired(t, d, n, x);
    RmdirUnder(t, d, n, x);
    RmdirParents(t, Rmdir(t, d, n), root, d, n, x);
  }

  lemma RmdirUnder(t: Tree, d: nat, n: string, x: nat)
    requires Empty(t, x) && IsDir(t, d) && n in t[d].dir && t[d].dir[n] == x && x != d
    requires Named(t, x, ".") == x && Named(t, x, "..") == d && t[d].nlink > 0 && t[x].nlink > 1
    ensures forall e, m, y :: Under(Rmdir(t, d, n), e, m, y) <==> Under(t, e, m, y) && e != x && (e != d || m != n)
  {
    hide Named, Entries, Rmdir;
    Rmdired(t, d, n, x);
  }

  lemma RmdirParents(t: Tree, t': Tree, root: nat, d: nat, n: string, x: nat)
    requires OneParent(t, root) && HasParent(t, root) && Under(t, d, n, x) && x != root
    requires forall y :: IsDir(t', y) <==> IsDir(t, y) && y != x
    requires forall y :: IsDir(t', y) ==> Named(t', y, "..") == Named(t, y, "..") && Named(t, y, "..") != x
    requires forall e, m, y :: Under(t', e, m, y) <==> Under(t, e, m, y) && e != x && (e != d || m != n)
    ensures OneParent(t', root) && HasParent(t', root)
  {
    hide IsDir, Named;
    forall y | IsDir(t', y) && y != root ensures exists m :: Under(t', Named(t', y, ".."), m, y) {
      assert exists m :: Under(t, Named(t, y, ".."), m, y);
      var m :| Under(t, Named(t, y, ".."), m, y);
      assert Named(t, d, n) == x && Named(t, Named(t, y, ".."), m) == y;
      assert Under(t', Named(t, y, ".."), m, y);
    }
  }

  /** The directory above a directory other than the root is not empty. */
  lemma AboveNotEmpty(t: Tree, root: nat, d: nat)
    requires Dots(t) && HasParent(t, root) && IsDir(t, d) && d != root
    ensures !Empty(t, Named(t, d, ".."))
  {
    var n :| Under(t, Named(t, d, ".."), n, d);
  }

  /** What do_unlink leaves when it is made to clear the entry ".." of directory d as that of an
      empty directory: what ".." names is a file from then on, and d has no "..". The two counts k
      and m do not matter. */
  function UpGone(t: Tree, d: nat, k: nat, m: nat): Tree
    requires d in t && ".." in t[d].dir && t[d].dir[".."] in t
  {
    Retire(Relink(Remove(t, d, ".."), d, m), t[d].dir[".."], k)
  }

  /** Whatever graph it is done to, that graph is in order no more. */
  lemma UpGoneUnsound(t: Tree, root: nat, d: nat, k: nat, m: nat)
    requires Sound(t, root) && IsDir(t, d)
    ensures ".." in t[d].dir && t[d].dir[".."] in t && !Sound(UpGone(t, d, k, m), root)
  {
    hide Counted;
    DotsTaken(t, d);
    var p := t[d].dir[".."];
    assert Named(t, d, "..") == p;
    var t' := UpGone(t, d, k, m);
    if p != d {
      assert IsDir(t', d) && Named(t', d, "..") == -1;
    } else if d == root {
      assert !IsDir(t', root);
    }
  }

  lemma AtLeast(e: set<(nat, string)>, a: (nat, string), b: (nat, string), c: (nat, string))
    requires a in e && b in e && a != b
    ensures |e| >= 2 && (c in e && c != a && c != b ==> |e| >= 3)
  {
    assert |e| == |e - {a}| + 1 && |e - {a}| == |e - {a} - {b}| + 1;
    if c in e && c != a && c != b {
      assert |e - {a} - {b}| == |e - {a} - {b} - {c}| + 1;
    }
  }

  /** A directory other than the root has two links, and the one above it a third; an empty root has two
      and no more. */
  lemma UpLinks(t: Tree, root: nat, d: nat)
    requires Sound(t, root) && IsDir(t, d)
    ensures ".." in t[d].dir && t[d].dir[".."] in t && t[t[d].dir[".."]].isDir
    ensures d != root ==> t[d].dir[".."] != d && t[d].nlink >= 2 && t[t[d].dir[".."]].nlink >= 3
    ensures d == root ==> t[d].dir[".."] == d && (Empty(t, d) ==> t[d].nlink == 2)
  {
    DotsTaken(t, d);
    var p := t[d].dir[".."];
    assert Named(t, d, "..") == p && IsDir(t, p);
    OwnDot(t, d);
    OwnDot(t, p);
    if d != root {
      UpLinksBelow(t, root, d, p);
    } else if Empty(t, d) {
      RootEntries(t, d);
    }
  }

  lemma UpLinksBelow(t: Tree, root: nat, d: nat, p: nat)
    requires Sound(t, root) && IsDir(t, d) && d != root && Named(t, d, "..") == p && IsDir(t, p)
    requires (d, ".") in Entries(t, d) && (p, ".") in Entries(t, p)
    ensures p != d && t[d].nlink >= 2 && t[p].nlink >= 3
  {
    var n :| Under(t, p, n, d);
    NotUnderItself(t, p, n, d);
    assert (p, n) in Entries(t, d) && (d, "..") in Entries(t, p);
    AtLeast(Entries(t, d), (d, "."), (p, n), (p, n));
    if p == root {
      assert Named(t, p, "..") == p;
      AtLeast(Entries(t, p), (p, "."), (d, ".."), (p, ".."));
    } else {
      var q := Named(t, p, "..");
      var m :| Under(t, q, m, p);
      AtLeast(Entries(t, p), (p, "."), (d, ".."), (q, m));
    }
  }

  lemma RootEntries(t: Tree, root: nat)
    requires Sound(t, root) && Empty(t, root)
    ensures Entries(t, root) == {(root, "."), (root, "..")}
  {
    assert Named(t, root, ".") == root && Named(t, root, "..") == root;
    forall e, m | (e, m) in Entries(t, root) ensures (e, m) in {(root, "."), (root, "..")} {
      assert Named(t, e, m) == root && Named(t, e, ".") == e;
      if Regular(m) { assert Under(t, e, m, root); }
    }
  }

  /** What is above a directory is empty only if both are the root. */
  lemma AboveEmptyIff(t: Tree, root: nat, d: nat)
    requires Sound(t, root) && IsDir(t, d)
    ensures Empty(t, Named(t, d, "..")) <==> d == root && Empty(t, d)
  {
    if d != root { AboveNotEmpty(t, root, d); }
  }

  // ---- the last reference to an inode without links goes

  lemma DropSound(t: Tree, root: nat, x: nat)
    requires Sound(t, root) && x in t && t[x].nlink == 0
    ensures !t[x].isDir && Sound(t - {x}, root) && forall e, m :: Named(t, e, m) != x
  {
    hide OneParent, HasParent, Dots, Counted, Named, Entries, Closed;
    Nameless(t, x);
    Dropped(t, x);
    DropCounted(t, x);
    SameShape(t, t - {x}, root);
  }

  /** What has no links is not named, and is no directory. */
  lemma Nameless(t: Tree, x: nat)
    requires Counted(t) && Closed(t) && Dots(t) && x in t && t[x].nlink == 0
    ensures !t[x].isDir && (forall e, m :: Named(t, e, m) != x) && Closed(t - {x})
  {
    assert Entries(t, x) == {};
    assert forall e: nat, m :: (e, m) in Entries(t, x) <== Named(t, e, m) == x && IsDir(t, e);
    assert IsDir(t, x) ==> Named(t, x, ".") == x;
    assert forall e, m :: Named(t - {x}, e, m) >= 0 ==> Named(t - {x}, e, m) == Named(t, e, m);
  }

  lemma DropCounted(t: Tree, x: nat)
    requires Counted(t) && Closed(t) && x in t && !t[x].isDir
    ensures Counted(t - {x})
  {
    hide Entries, Named, Closed;
    Dropped(t, x);
  }

  lemma Dropped(t: Tree, x: nat)
    requires Closed(t) && x in t && !t[x].isDir
    ensures var t' := t - {x};
            && (forall y :: IsDir(t', y) <==> IsDir(t, y))
            && (forall e, m :: Named(t', e, m) == Named(t, e, m))
            && (forall y :: Entries(t', y) == Entries(t, y))
  {
    assert forall m :: Named(t, x, m) == -1;
  }

  // ---- an inode that is as it was some time ago

  /** In a graph in order no directory can be a file instead. */
  lemma DirNotFile(t: Tree, root: nat, x: nat, node: Node)
    requires Sound(t, root) && IsDir(t, x) && !node.isDir
    ensures !Sound(t[x := node], root)
  {
    var t' := t[x := node];
    if x == root {
      assert !IsDir(t', root);
    } else {
      DotsTaken(t, x);
      var p := Named(t, x, "..");
      var n :| Under(t, p, n, x);
      NotUnderItself(t, p, n, x);
      assert (x, "..") in Entries(t, p) && (x, "..") !in Entries(t', p);
      assert Entries(t', p) <= Entries(t, p) - {(x, "..")};
      FewerThan(Entries(t', p), Entries(t, p), (x, ".."));
    }
  }

  lemma FewerThan(e: set<(nat, string)>, f: set<(nat, string)>, a: (nat, string))
    requires e <= f - {a} && a in f
    ensures |e| < |f|
  {
    assert f == (f - {a}) + {a};
    if e != f - {a} {
      var rest := f - {a} - e;
      assert f - {a} == e + rest;
    }
  }

  /** If one inode alone has another link count or is of another kind, the graph is not in order: what
      an inode is follows from all the others and the entries. */
  lemma OneOffUnsound(t: Tree, root: nat, x: nat, node: Node)
    requires Sound(t, root) && x in t && (node.isDir != t[x].isDir || node.nlink != t[x].nlink)
    requires node.isDir && t[x].isDir ==> node.dir == t[x].dir
    ensures !Sound(t[x := node], root)
  {
    hide Closed, Dots, OneParent, HasParent, Acyclic;
    var t' := t[x := node];
    if node.isDir == t[x].isDir {
      assert Entries(t', x) == Entries(t, x);
    } else if t[x].isDir {
      DirNotFile(t, root, x, node);
    } else if Sound(t', root) {
      assert t'[x := t[x]] == t;
      DirNotFile(t', root, x, t[x]);
    }
  }

  // ---- rename: a second name, then the first one goes

  /** dir_reparent. */
  function Reparent(t: Tree, x: nat, d: nat): (t': Tree)
    requires x in t
    ensures t'.Keys == t.Keys
  {
    t[x := t[x].(dir := Plus(t[x].dir, "..", d))]
  }

  /** Rename once the new name is free. A directory gets a new "..", but no count changes. */
  function Move(t: Tree, d1: nat, n1: string, d2: nat, n2: string, x: nat): (t': Tree)
    requires d1 in t && d2 in t && x in t
    ensures t'.Keys == t.Keys
  {
    var u := Enter(t, d2, n2, x);
    Remove(if u[x].isDir then Reparent(u, x, d2) else u, d1, n1)
  }

  /** Rename when dir_creat fails, but not because the name is taken: the old name goes all the same. */
  function Lose(t: Tree, d1: nat, n1: string, d2: nat, x: nat): (t': Tree)
    requires d1 in t && x in t
    ensures t'.Keys == t.Keys
  {
    Remove(if t[x].isDir then Reparent(t, x, d2) else t, d1, n1)
  }

  lemma Reparented(t: Tree, x: nat, d: nat)
    requires IsDir(t, x)
    ensures var t' := Reparent(t, x, d);
            && (forall y :: IsDir(t', y) <==> IsDir(t, y)) && (forall y :: y in t ==> t'[y].nlink == t[y].nlink)
            && (forall e, m :: Named(t', e, m) == if e == x && m == ".." then d else Named(t, e, m))
            && (forall y :: Entries(t', y) == Entries(t, y) - {(x, "..")} + if y == d then {(x, "..")} else {})
  {
  }

  lemma Moved(t: Tree, d1: nat, n1: string, d2: nat, n2: string, x: nat)
    requires Under(t, d1, n1, x) && IsDir(t, d2) && n2 !in t[d2].dir && x in t && Regular(n2)
    ensures var t' := Move(t, d1, n1, d2, n2, x);
            && (forall y :: IsDir(t', y) <==> IsDir(t, y)) && (forall y :: y in t ==> t'[y].nlink == t[y].nlink)
            && (forall e, m :: Named(t', e, m) ==
                  if e == d1 && m == n1 then -1
                  else if e == d2 && m == n2 then x
                  else if e == x && m == ".." && IsDir(t, x) then d2 else Named(t, e, m))
            && (forall y :: Entries(t', y) ==
                  (if IsDir(t, x) then Entries(t, y) - {(x, "..")} + (if y == d2 then {(x, "..")} else {}) else Entries(t, y))
                  + (if y == x then {(d2, n2)} else {}) - {(d1, n1)})
            && (d1 != d2 || n1 != n2)
  {
    hide Named, Entries;
    UnderHas(t, d1, n1, x);
    EntryAdded(t, d2, n2, x);
    var u := Enter(t, d2, n2, x);
    if IsDir(t, x) { Reparented(u, x, d2); }
    var v := if u[x].isDir then Reparent(u, x, d2) else u;
    assert n1 in v[d1].dir;
    Removed(v, d1, n1);
  }

  lemma MoveCounted(t: Tree, d1: nat, n1: string, d2: nat, n2: string, x: nat)
    requires Counted(t) && Under(t, d1, n1, x) && IsDir(t, d2) && n2 !in t[d2].dir && x in t && Regular(n2)
    requires d1 in t && (IsDir(t, x) ==> Named(t, x, "..") == d2)
    ensures Counted(Move(t, d1, n1, d2, n2, x))
  {
    hide Named, Move, Entries, Under;
    var t' := Move(t, d1, n1, d2, n2, x);
    Moved(t, d1, n1, d2, n2, x);
    forall y | y in t' ensures t'[y].nlink == |Entries(t', y)| {
      MoveKeeps(t, t', d1, n1, d2, n2, x, y);
    }
  }

  lemma MoveKeeps(t: Tree, t': Tree, d1: nat, n1: string, d2: nat, n2: string, x: nat, y: nat)
    requires Under(t, d1, n1, x) && IsDir(t, d2) && n2 !in t[d2].dir && (d1 != d2 || n1 != n2)
    requires IsDir(t, x) ==> Named(t, x, "..") == d2
    requires Entries(t', y) ==
                (if IsDir(t, x) then Entries(t, y) - {(x, "..")} + (if y == d2 then {(x, "..")} else {}) else Entries(t, y))
                + (if y == x then {(d2, n2)} else {}) - {(d1, n1)}
    ensures |Entries(t', y)| == |Entries(t, y)|
  {
    hide Named, Entries, Under, IsDir;
    MoveEntries(t, d1, n1, d2, n2, x);
    var e := Entries(t, y);
    if IsDir(t, x) {
      assert e - {(x, "..")} + (if y == d2 then {(x, "..")} else {}) == e;
    }
    Swapped(e, Entries(t', y), (d1, n1), (d2, n2), y == x);
  }

  lemma Swapped(e: set<(nat, string)>, e': set<(nat, string)>, a: (nat, string), b: (nat, string), both: bool)
    requires (a in e <==> both) && b !in e && a != b && e' == e + (if both then {b} else {}) - {a}
    ensures |e'| == |e|
  {
    if both {
      assert e' == e - {a} + {b};
    } else {
      assert e' == e;
    }
  }

  lemma MoveEntries(t: Tree, d1: nat, n1: string, d2: nat, n2: string, x: nat)
    requires Under(t, d1, n1, x) && IsDir(t, d2) && n2 !in t[d2].dir
    ensures forall y :: (d1, n1) in Entries(t, y) <==> y == x
    ensures forall y :: (d2, n2) !in Entries(t, y)
    ensures forall y :: (x, "..") in Entries(t, y) <==> IsDir(t, x) && Named(t, x, "..") == y
  {
  }

  lemma MoveClosed(t: Tree, d1: nat, n1: string, d2: nat, n2: string, x: nat)
    requires Closed(t) && Under(t, d1, n1, x) && IsDir(t, d2) && n2 !in t[d2].dir && x in t && Regular(n2)
    ensures Closed(Move(t, d1, n1, d2, n2, x))
  {
    hide Named, Move, Entries;
    Moved(t, d1, n1, d2, n2, x);
  }

  lemma MoveFileSame(t: Tree, d1: nat, n1: string, d2: nat, n2: string, x: nat)
    requires Under(t, d1, n1, x) && IsDir(t, d2) && n2 !in t[d2].dir && x in t && Regular(n2) && !IsDir(t, x)
    ensures SameDirs(t, Move(t, d1, n1, d2, n2, x))
  {
    hide Named, Move, Entries;
    Unnamed(t, d2, n2);
    Moved(t, d1, n1, d2, n2, x);
  }

  lemma MoveFileSound(t: Tree, root: nat, d1: nat, n1: string, d2: nat, n2: string, x: nat)
    requires Sound(t, root) && Under(t, d1, n1, x) && IsDir(t, d2) && n2 !in t[d2].dir && Regular(n2)
    requires x in t && !IsDir(t, x)
    ensures Sound(Move(t, d1, n1, d2, n2, x), root)
  {
    hide Named, Entries, OneParent, HasParent, Acyclic, Move, Dots, Counted, Closed;
    MoveCounted(t, d1, n1, d2, n2, x);
    MoveClosed(t, d1, n1, d2, n2, x);
    MoveFileSame(t, d1, n1, d2, n2, x);
    SameShape(t, Move(t, d1, n1, d2, n2, x), root);
  }

  /** Within one directory a directory can get another name. */
  lemma MoveDirSound(t: Tree, root: nat, d: nat, n1: string, n2: string, x: nat)
    requires Sound(t, root) && Under(t, d, n1, x) && n2 !in t[d].dir && Regular(n2) && IsDir(t, x)
    ensures Sound(Move(t, d, n1, d, n2, x), root)
  {
    hide Named, Entries, Acyclic, Move, Dots, Counted, Closed;
    var t' := Move(t, d, n1, d, n2, x);
    MoveCounted(t, d, n1, d, n2, x);
    MoveClosed(t, d, n1, d, n2, x);
    MoveDirShape(t, t', root, d, n1, n2, x);
  }

  lemma MoveDirShape(t: Tree, t': Tree, root: nat, d: nat, n1: string, n2: string, x: nat)
    requires Dots(t) && OneParent(t, root) && HasParent(t, root) && Acyclic(t)
    requires Under(t, d, n1, x) && n2 !in t[d].dir && Regular(n2) && IsDir(t, x) && t' == Move(t, d, n1, d, n2, x)
    ensures Dots(t') && OneParent(t', root) && HasParent(t', root) && Acyclic(t')
  {
    hide Named, Entries, Move;
    Unnamed(t, d, n2);
    Moved(t, d, n1, d, n2, x);
    assert forall e, m, y :: Under(t', e, m, y) <==>
                             (Under(t, e, m, y) && !(e == d && m == n1)) || (e == d && m == n2 && y == x);
    forall y | IsDir(t', y) && y != root ensures exists m :: Under(t', Named(t', y, ".."), m, y) {
      assert exists m :: Under(t, Named(t, y, ".."), m, y);
      var m :| Under(t, Named(t, y, ".."), m, y);
      assert Under(t', Named(t, y, ".."), if y == x then n2 else m, y);
    }
    var depth :| Ranked(t, depth);
    assert Ranked(t', depth);
  }

  /** A directory moved elsewhere leaves its old parent with one link too many. */
  lemma MoveAcrossUncounts(t: Tree, root: nat, d1: nat, n1: string, d2: nat, n2: string, x: nat)
    requires Sound(t, root) && Under(t, d1, n1, x) && IsDir(t, d2) && n2 !in t[d2].dir && Regular(n2)
    requires x in t && IsDir(t, x) && d1 != d2
    ensures !Counted(Move(t, d1, n1, d2, n2, x))
  {
    hide Named, Entries, Move, HasParent, Dots;
    var t' := Move(t, d1, n1, d2, n2, x);
    NotUnderItself(t, d1, n1, x);
    Moved(t, d1, n1, d2, n2, x);
    MoveEntries(t, d1, n1, d2, n2, x);
    assert Entries(t', d1) == Entries(t, d1) - {(x, "..")};
  }

  lemma NotUnderItself(t: Tree, d: nat, n: string, x: nat)
    requires Acyclic(t) && Under(t, d, n, x) && IsDir(t, x)
    ensures d != x
  {
    var depth :| Ranked(t, depth);
  }

  lemma Lost(t: Tree, d1: nat, n1: string, d2: nat, x: nat)
    requires Under(t, d1, n1, x) && x in t
    ensures var t' := Lose(t, d1, n1, d2, x);
            && (forall y :: y in t ==> t'[y].nlink == t[y].nlink)
            && (forall y :: Entries(t', y) ==
                  (if IsDir(t, x) then Entries(t, y) - {(x, "..")} + (if y == d2 then {(x, "..")} else {}) else Entries(t, y))
                  - {(d1, n1)})
  {
    hide Named, Entries;
    UnderHas(t, d1, n1, x);
    if IsDir(t, x) { Reparented(t, x, d2); }
    var v := if t[x].isDir then Reparent(t, x, d2) else t;
    assert n1 in v[d1].dir;
    Removed(v, d1, n1);
  }

  /** Losing the old name leaves some inode with one link too many. */
  lemma LoseUncounts(t: Tree, root: nat, d1: nat, n1: string, d2: nat, x: nat)
    requires Sound(t, root) && Under(t, d1, n1, x) && x in t
    ensures !Counted(Lose(t, d1, n1, d2, x))
  {
    hide Named, Entries, Lose, HasParent, Dots, Closed, OneParent, Acyclic, Under;
    ParentKnown(t, root, d1, n1, x);
    var off := if IsDir(t, x) && d1 != d2 then d1 else x;
    LoseOne(t, d1, n1, d2, x, off);
  }

  lemma LoseOne(t: Tree, d1: nat, n1: string, d2: nat, x: nat, off: nat)
    requires Under(t, d1, n1, x) && x in t && d1 in t && off == if IsDir(t, x) && d1 != d2 then d1 else x
    requires IsDir(t, x) ==> d1 != x && Named(t, x, "..") == d1
    ensures |Entries(Lose(t, d1, n1, d2, x), off)| == |Entries(t, off)| - 1
    ensures off in t && Lose(t, d1, n1, d2, x)[off].nlink == t[off].nlink
  {
    hide Named, Entries, Lose, Under;
    Lost(t, d1, n1, d2, x);
    LoseEntries(t, d1, n1, x);
    var e, e' := Entries(t, off), Entries(Lose(t, d1, n1, d2, x), off);
    if !IsDir(t, x) {
      assert e - {(d1, n1)} == e - {(d1, n1)} - {(d1, n1)};
      OneLess(e, e', (d1, n1), (d1, n1));
    } else {
      OneLess(e, e', (x, ".."), (d1, n1));
    }
  }

  lemma OneLess(e: set<(nat, string)>, e': set<(nat, string)>, a: (nat, string), b: (nat, string))
    requires e' == e - {a} - {b}
    requires a == b ==> a in e
    requires a != b ==> (a in e <==> b !in e)
    ensures |e'| == |e| - 1
  {
    assert e' == if a in e then e - {a} else e - {b};
  }

  lemma ParentKnown(t: Tree, root: nat, d: nat, n: string, x: nat)
    requires OneParent(t, root) && Acyclic(t) && Under(t, d, n, x)
    ensures d in t && (IsDir(t, x) ==> d != x && Named(t, x, "..") == d)
  {
    if IsDir(t, x) { NotUnderItself(t, d, n, x); }
  }

  lemma LoseEntries(t: Tree, d1: nat, n1: string, x: nat)
    requires Under(t, d1, n1, x)
    ensures forall y :: (d1, n1) in Entries(t, y) <==> y == x
    ensures forall y :: (x, "..") in Entries(t, y) <==> IsDir(t, x) && Named(t, x, "..") == y
  {
  }

  /** How the call of dir_creat in rename ends. */
  datatype Outcome = Made | Taken | Failed

  /** Rename does nothing when the new name is already there and names a directory or the same inode. */
  predicate Refused(t: Tree, d2: nat, n2: string, x: nat, outcome: Outcome) {
    outcome == Taken && d2 in t && n2 in t[d2].dir && (t[d2].dir[n2] == x || (t[d2].dir[n2] in t && t[t[d2].dir[n2]].isDir))
  }

  function Rename(t: Tree, d1: nat, n1: string, d2: nat, n2: string, x: nat, outcome: Outcome): Tree
    requires d1 in t && x in t
    requires outcome != Failed ==> d2 in t
    requires outcome == Taken ==> n2 in t[d2].dir && t[d2].dir[n2] in t && t[t[d2].dir[n2]].nlink > 0
  {
    if Refused(t, d2, n2, x, outcome) then t
    else if outcome == Failed then Lose(t, d1, n1, d2, x)
    else Move(if outcome == Taken then Unlink(t, d2, n2) else t, d1, n1, d2, n2, x)
  }

  /** Rename keeps the counts right if and only if it refuses, or has made the new name and, for a
      directory, made it in the same directory. */
  lemma RenameSoundIff(t: Tree, root: nat, d1: nat, n1: string, d2: nat, n2: string, x: nat, outcome: Outcome)
    requires Sound(t, root) && Under(t, d1, n1, x) && Regular(n2)
    requires outcome != Failed ==> IsDir(t, d2) && (outcome == Taken <==> n2 in t[d2].dir)
    ensures x in t && (outcome == Taken ==> t[d2].dir[n2] in t && t[t[d2].dir[n2]].nlink > 0)
    ensures Sound(Rename(t, d1, n1, d2, n2, x, outcome), root) <==>
              Refused(t, d2, n2, x, outcome) || (outcome != Failed && (IsDir(t, x) ==> d1 == d2))
  {
    hide Entries, OneParent, HasParent, Acyclic, Dots, Counted, Closed, Move, Lose, Unlink, Named;
    UnderExists(t, d1, n1, x);
    if outcome == Taken {
      Linkable(t, d2, n2);
    }
    if Refused(t, d2, n2, x, outcome) {
    } else if outcome == Failed {
      LoseUncounts(t, root, d1, n1, d2, x);
    } else if outcome == Taken {
      UnlinkSound(t, root, d2, n2);
      UnlinkUnder(t, d1, n1, d2, n2, x);
      MoveSoundIff(Unlink(t, d2, n2), root, d1, n1, d2, n2, x);
    } else {
      MoveSoundIff(t, root, d1, n1, d2, n2, x);
    }
  }

  /** Rename when dir_reparent may fail: then the ".." of a directory stays what it was. */
  function RenameUp(t: Tree, d1: nat, n1: string, d2: nat, n2: string, x: nat, outcome: Outcome, up: bool): Tree
    requires d1 in t && x in t
    requires outcome != Failed ==> d2 in t
    requires outcome == Taken ==> n2 in t[d2].dir && t[d2].dir[n2] in t && t[t[d2].dir[n2]].nlink > 0
  {
    if up || !t[x].isDir || Refused(t, d2, n2, x, outcome) then Rename(t, d1, n1, d2, n2, x, outcome)
    else if outcome == Failed then Remove(t, d1, n1)
    else MoveBare(if outcome == Taken then Unlink(t, d2, n2) else t, d1, n1, d2, n2, x)
  }

  function MoveBare(t: Tree, d1: nat, n1: string, d2: nat, n2: string, x: nat): (t': Tree)
    requires d1 in t && d2 in t
    ensures t'.Keys == t.Keys
  {
    Remove(Enter(t, d2, n2, x), d1, n1)
  }

  /** The graph when dir_creat, and the taking over of the new name if it was taken, are done. */
  function NewName(t: Tree, d2: nat, n2: string, x: nat, outcome: Outcome): (t': Tree)
    requires outcome != Failed ==> d2 in t
    requires outcome == Taken ==> n2 in t[d2].dir && t[d2].dir[n2] in t && t[t[d2].dir[n2]].nlink > 0
    ensures t'.Keys == t.Keys
  {
    if outcome == Failed then t else Enter(if outcome == Taken then Unlink(t, d2, n2) else t, d2, n2, x)
  }

  /** Rename in the order of the code. */
  lemma RenameInOrder(t: Tree, d1: nat, n1: string, d2: nat, n2: string, x: nat, outcome: Outcome, up: bool)
    requires d1 in t && x in t && (outcome != Failed ==> d2 in t) && !Refused(t, d2, n2, x, outcome)
    requires outcome == Taken ==> n2 in t[d2].dir && t[d2].dir[n2] in t && t[t[d2].dir[n2]].nlink > 0
    ensures var u := NewName(t, d2, n2, x, outcome);
            var w := if up && t[x].isDir then Reparent(u, x, d2) else u;
            && RenameUp(t, d1, n1, d2, n2, x, outcome, up) == Remove(w, d1, n1)
            && u[x].isDir == t[x].isDir && u[d1].isDir == w[d1].isDir == t[d1].isDir
  {
  }

  /** Whether dir_reparent succeeds does not matter for the graph being in order: where ".." has to change
      the graph is in order neither way. */
  lemma RenameUpSoundIff(t: Tree, root: nat, d1: nat, n1: string, d2: nat, n2: string, x: nat, outcome: Outcome,
                         up: bool)
    requires Sound(t, root) && Under(t, d1, n1, x) && Regular(n2)
    requires outcome != Failed ==> IsDir(t, d2) && (outcome == Taken <==> n2 in t[d2].dir)
    ensures x in t && (outcome == Taken ==> t[d2].dir[n2] in t && t[t[d2].dir[n2]].nlink > 0)
    ensures Sound(RenameUp(t, d1, n1, d2, n2, x, outcome, up), root) <==>
              Refused(t, d2, n2, x, outcome) || (outcome != Failed && (IsDir(t, x) ==> d1 == d2))
  {
    hide Sound, Move, Lose, MoveBare, Unlink, Remove;
    RenameSoundIff(t, root, d1, n1, d2, n2, x, outcome);
    if !up && t[x].isDir && !Refused(t, d2, n2, x, outcome) {
      if outcome == Failed {
        RemoveUnsound(t, root, d1, n1, x);
      } else if outcome == Taken {
        UnlinkSound(t, root, d2, n2);
        UnlinkUnder(t, d1, n1, d2, n2, x);
        MoveBareSoundIff(Unlink(t, d2, n2), root, d1, n1, d2, n2, x);
      } else {
        MoveBareSoundIff(t, root, d1, n1, d2, n2, x);
      }
    }
  }

  /** Only the name goes: one link too many. */
  lemma RemoveUnsound(t: Tree, root: nat, d1: nat, n1: string, x: nat)
    requires Sound(t, root) && Under(t, d1, n1, x) && x in t
    ensures !Sound(Remove(t, d1, n1), root)
  {
    hide Entries, OneParent, HasParent, Acyclic, Dots, Closed;
    UnderHas(t, d1, n1, x);
    Removed(t, d1, n1);
    LoseEntries(t, d1, n1, x);
    OneLess(Entries(t, x), Entries(Remove(t, d1, n1), x), (d1, n1), (d1, n1));
  }

  lemma MoveBareSoundIff(t: Tree, root: nat, d1: nat, n1: string, d2: nat, n2: string, x: nat)
    requires Sound(t, root) && Under(t, d1, n1, x) && IsDir(t, d2) && n2 !in t[d2].dir && Regular(n2) && x in t
    requires IsDir(t, x)
    ensures Sound(MoveBare(t, d1, n1, d2, n2, x), root) <==> d1 == d2
  {
    hide Entries, HasParent, Acyclic, Dots, Counted, Closed, Move, MoveBare;
    if d1 == d2 {
      UpIsThere(t, root, d1, n1, d2, n2, x);
      MoveDirSound(t, root, d1, n1, n2, x);
    } else {
      BareUnder(t, d1, n1, d2, n2, x);
    }
  }

  /** Within one directory the ".." is as it is to be already. */
  lemma UpIsThere(t: Tree, root: nat, d1: nat, n1: string, d2: nat, n2: string, x: nat)
    requires Sound(t, root) && Under(t, d1, n1, x) && IsDir(t, x) && x in t && d1 in t && d1 == d2 && n2 !in t[d2].dir
    requires Regular(n2)
    ensures MoveBare(t, d1, n1, d2, n2, x) == Move(t, d1, n1, d2, n2, x)
  {
    hide Entries, HasParent, Acyclic, Counted, Closed;
    NotUnderItself(t, d1, n1, x);
    var u := Enter(t, d2, n2, x);
    assert u[x].dir[".." := d2] == u[x].dir;
    assert Reparent(u, x, d2) == u;
  }

  /** Elsewhere it names the wrong directory. */
  lemma BareUnder(t: Tree, d1: nat, n1: string, d2: nat, n2: string, x: nat)
    requires Under(t, d1, n1, x) && IsDir(t, x) && x in t && IsDir(t, d2) && n2 !in t[d2].dir && Regular(n2) && d1 != d2
    requires Named(t, x, "..") == d1
    ensures var t' := MoveBare(t, d1, n1, d2, n2, x);
            Under(t', d2, n2, x) && IsDir(t', x) && Named(t', x, "..") != d2
  {
  }

  /** The graph is in order with a file without links if and only if it is without it. */
  lemma DropSoundIff(t: Tree, root: nat, y: nat)
    requires y in t && t[y] == Node(false, 0, map[])
    ensures Sound(t - {y}, root) <==> Sound(t, root)
  {
    hide Sound;
    if Sound(t, root) { DropSound(t, root, y); }
    if Sound(t - {y}, root) {
      FreshSound(t - {y}, root, y);
      assert Fresh(t - {y}, y) == t;
    }
  }

  lemma UnlinkUnder(t: Tree, d1: nat, n1: string, d2: nat, n2: string, x: nat)
    requires Under(t, d1, n1, x) && IsDir(t, d2) && n2 in t[d2].dir && t[d2].dir[n2] != x
    requires t[d2].dir[n2] in t && t[t[d2].dir[n2]].nlink > 0
    ensures var u := Unlink(t, d2, n2);
            Under(u, d1, n1, x) && IsDir(u, d2) && n2 !in u[d2].dir && (IsDir(u, x) <==> IsDir(t, x))
  {
  }

  lemma MoveSoundIff(t: Tree, root: nat, d1: nat, n1: string, d2: nat, n2: string, x: nat)
    requires Sound(t, root) && Under(t, d1, n1, x) && IsDir(t, d2) && n2 !in t[d2].dir && Regular(n2) && x in t
    ensures Sound(Move(t, d1, n1, d2, n2, x), root) <==> (IsDir(t, x) ==> d1 == d2)
  {
    hide Entries, OneParent, HasParent, Acyclic, Dots, Counted, Closed, Move, Named;
    if !IsDir(t, x) {
      MoveFileSound(t, root, d1, n1, d2, n2, x);
    } else if d1 == d2 {
      MoveDirSound(t, root, d1, n1, n2, x);
    } else {
      MoveAcrossUncounts(t, root, d1, n1, d2, n2, x);
    }
  }

  /** A root directory with one file in it. */
  lemma OneFileSound()
    ensures Sound(map[1 := Node(true, 2, map["." := 1, ".." := 1, "a" := 2]), 2 := Node(false, 1, map[])], 1)
  {
    var t: Tree := map[1 := Node(true, 2, map["." := 1, ".." := 1, "a" := 2]), 2 := Node(false, 1, map[])];
    assert Entries(t, 1) == {(1, "."), (1, "..")} && Entries(t, 2) == {(1, "a")};
    assert Ranked(t, map[1 := 0, 2 := 1]);
  }
}
