/** A change that inode_put of kern/fs/inode.c loses, from a disk in order on. */
module LostLink {
  import opened Dir
  import opened InodeTable
  import opened Links
  import opened Mknod
  import opened Paths

  /** An entry for which there is room. */
  method Add(dirs: Dirs, d: nat, name: string, ino: nat)
    requires dirs.Valid() && d in dirs.slots && d in dirs.binds && name !in dirs.binds[d]
    requires Text(name) && 0 < |name| <= NAME_MAX && ino != 0
    modifies dirs
    ensures dirs.Valid() && dirs.slots.Keys == old(dirs.slots.Keys)
    ensures dirs.binds == old(dirs.binds)[d := Bind(old(dirs.binds)[d], name, ino)]
  {
    hide Dirs.Valid, Bind, Entered, Raised, FirstFree, OnlyAt, Refusal;
    RefusalIs(name, NAME_MAX, true, false);
    var err, wrote := dirs.Creat(d, name, ino, true, NAME_MAX, true, dirs.Room(d));
  }

  const ONE_IMAGE: map<nat, Dnode> := map[1 := Dnode(true, 2), 2 := Dnode(false, 1)]
  const ONE_BINDS: map<nat, map<string, nat>> := map[1 := map["." := 1, ".." := 1, "a" := 2], 2 := map[]]

  /** The directories of a disk with one file, inode 2, named "a" in the root directory, inode 1. */
  method OneFile() returns (dirs: Dirs)
    ensures fresh(dirs) && dirs.Valid() && dirs.slots.Keys == {1, 2} && dirs.binds == ONE_BINDS
  {
    hide Dirs.Valid;
    dirs := new Dirs();
    BindsKeys(dirs);
    dirs.Make(1);
    dirs.Make(2);
    Add(dirs, 1, ".", 1);
    Add(dirs, 1, "..", 1);
    Add(dirs, 1, "a", 2);
    assert dirs.binds[1] == ONE_BINDS[1];
  }

  /** A file, inode 2, with as many links, under names of the root directory, inode 1. */
  ghost function OneFileTree(names: map<string, nat>, nlink: nat): Tree {
    map[1 := Node(true, 2, names), 2 := Node(false, nlink, map[])]
  }

  lemma OneTree()
    ensures TreeOf(ONE_IMAGE, ONE_BINDS) == OneFileTree(map["." := 1, ".." := 1, "a" := 2], 1)
    ensures var t := OneFileTree(map["." := 1, ".." := 1, "a" := 2], 1);
            && Sound(t, 1) && NoBlanks(t) && Step(t, 1, 1, "a") == 2
            && 1 in t && 2 in t && IsDir(t, 1) && !IsDir(t, 2) && "b" !in t[1].dir
            && Link(t, 1, "b", 2) == OneFileTree(map["." := 1, ".." := 1, "a" := 2, "b" := 2], 2)
  {
    OneFileSound();
    hide Sound;
    assert TreeOf(ONE_IMAGE, ONE_BINDS)
        == map[1 := Node(true, 2, map["." := 1, ".." := 1, "a" := 2]), 2 := Node(false, 1, map[])];
  }

  lemma RoomForTwo()
    ensures var refs := NoRefs(ONE_IMAGE)[1 := 3];
            !Crowded(refs, 0) && 2 in refs && More(refs, 2) == map[1 := 3, 2 := 1]
  {
    var refs := NoRefs(ONE_IMAGE)[1 := 3];
    assert Active(refs) == {1};
  }

  /** The file is looked up, and is held once. */
  method HoldOne() returns (n: Names, i: nat)
    ensures fresh(n) && fresh(n.ic) && fresh(n.ic.table) && fresh(n.ic.dirs)
    ensures n.rootDir == n.root == 1 && n.namlen == NAME_MAX && n.Valid()
    ensures i < MAXINODES == n.ic.table.Length && Holds(n.ic.table[..], i, 2)
    ensures n.ic.refs == map[1 := 3, 2 := 1] && n.Graph() == OneFileTree(map["." := 1, ".." := 1, "a" := 2], 1)
    ensures n.ic.disk == ONE_IMAGE && n.ic.answers == []
  {
    hide Orderly, Icore.Valid, Dirs.Valid, TreeOf, Sound, NoBlanks, Step, Link, Follows, StillHeld, SameDirt, NoRefs,
         More, Crowded, OneFileTree, IsDir;
    OneTree();
    RoomForTwo();
    var dirs := OneFile();
    n := new Names(ONE_IMAGE, dirs, 1, NAME_MAX, []);
    n.Inside(n.rootSlot);
    var err;
    ghost var before := n.ic.Buffers();
    err, i := n.SearchI(n.rootSlot, "a");
    FollowsNone(before, n.ic.Buffers());
  }

  /** It gets a second name "b". */
  method TwoNames() returns (n: Names, i: nat)
    ensures fresh(n) && fresh(n.ic) && fresh(n.ic.table) && fresh(n.ic.dirs)
    ensures n.rootDir == n.root == 1 && n.Valid() && i < MAXINODES && Holds(n.ic.table[..], i, 2)
    ensures n.ic.refs == map[1 := 3, 2 := 1] && n.Graph() == OneFileTree(map["." := 1, ".." := 1, "a" := 2, "b" := 2], 2)
    ensures n.ic.disk == ONE_IMAGE
  {
    hide Orderly, Icore.Valid, TreeOf, Sound, NoBlanks, Step, Link, Follows, StillHeld, FirstFree;
    OneTree();
    n, i := HoldOne();
    RefusalIs("b", NAME_MAX, true, false);
    ghost var before := n.ic.Buffers();
    ghost var was := n.ic.table[..];
    var err := n.Enroll(n.rootSlot, i, "b", true, 1, 2);
    StillAt(was, n.ic.table[..], i, 2);
    FollowsNone(before, n.ic.Buffers());
  }

  /** A link that is lost. The last reference to that file goes and no buffer can be had to write it: the
      graph has two entries for the file, which has one link. */
  method Loses() returns (n: Names)
    ensures n.root == 1 && n.Ready() && n.ic.lost && !Sound(n.Graph(), 1)
    ensures n.Graph() == OneFileTree(map["." := 1, ".." := 1, "a" := 2, "b" := 2], 1)
  {
    hide Orderly, Icore.Valid, TreeOf, Sound, NoBlanks, Step, Link, Follows, IsDir;
    var i;
    n, i := TwoNames();
    OneTree();
    n.Inside(i);
    n.OneEntry(i, n.rootSlot);
    n.ic.Unflagged(i);
    GraphAt(n.ic.nodes, n.ic.dirs.binds, 2);
    n.ic.Supply([0]);
    var err := n.Put(i, 2);
  }
}
