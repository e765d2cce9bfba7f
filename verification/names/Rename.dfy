/** Rename, do_rename in kern/fs/mknod.c, with what its call of dir_creat answers. */
module Rename {
  import opened Dir
  import opened Errors
  import opened Links

  /** How the call of dir_creat for the name n2 in d2 ends. The flags say whether the scan of d2 gets
      all its buffers, and whether a block can be had when the directory has to grow. */
  ghost function OutcomeOf(t: Tree, d2: nat, n2: string, namlen: nat, scan: bool, room: bool): Outcome
    requires d2 in t
  {
    var e := Refusal(n2, namlen, IsDir(t, d2), n2 in t[d2].dir);
    if e !in {OK, EEXIST} || !scan then Failed
    else if e == EEXIST then Taken
    else if room then Made
    else Failed
  }

  /** The new name can be made, or is already there. */
  ghost predicate Nameable(t: Tree, d2: nat, n2: string, namlen: nat, scan: bool, room: bool)
    requires d2 in t
  {
    0 < |n2| <= namlen && IsDir(t, d2) && scan && (n2 in t[d2].dir || room)
  }

  /** The new name is there and names a directory, or the inode to be renamed. */
  ghost predicate InTheWay(t: Tree, d2: nat, n2: string, x: nat)
    requires d2 in t
  {
    n2 in t[d2].dir && (t[d2].dir[n2] == x || IsDir(t, t[d2].dir[n2]))
  }

  /** Rename of x, which is n1 in d1, to n2 in d2 leaves the graph in order if and only if the new name
      can be had, and x is no directory, stays where it is, or is not moved for what has its new name. */
  lemma RenameSoundWhen(t: Tree, root: nat, d1: nat, n1: string, d2: nat, n2: string, x: nat, namlen: nat, scan: bool,
                        room: bool)
    requires Sound(t, root) && Under(t, d1, n1, x) && Regular(n2) && d2 in t
    ensures x in t
    ensures var o := OutcomeOf(t, d2, n2, namlen, scan, room);
            (o == Taken ==> n2 in t[d2].dir && t[d2].dir[n2] in t && t[t[d2].dir[n2]].nlink > 0)
    ensures Sound(Rename(t, d1, n1, d2, n2, x, OutcomeOf(t, d2, n2, namlen, scan, room)), root) <==>
              Nameable(t, d2, n2, namlen, scan, room) && (InTheWay(t, d2, n2, x) || !IsDir(t, x) || d1 == d2)
  {
    hide Sound, Links.Rename;
    var o := OutcomeOf(t, d2, n2, namlen, scan, room);
    RenameSoundIff(t, root, d1, n1, d2, n2, x, o);
  }

  /** An input that fails: "/a" renamed to "/" is found nowhere afterwards and keeps its link. */
  lemma RenameToSlashLoses()
    ensures var t: Tree := map[1 := Node(true, 2, map["." := 1, ".." := 1, "a" := 2]), 2 := Node(false, 1, map[])];
            && Sound(t, 1) && Under(t, 1, "a", 2) && OutcomeOf(t, 1, "", NAME_MAX, true, true) == Failed
            && !Sound(Rename(t, 1, "a", 1, "", 2, Failed), 1)
  {
    OneFileSound();
    var t: Tree := map[1 := Node(true, 2, map["." := 1, ".." := 1, "a" := 2]), 2 := Node(false, 1, map[])];
    hide Sound;
    assert Under(t, 1, "a", 2);
    RenameSoundWhen(t, 1, 1, "a", 1, "", 2, NAME_MAX, true, true);
  }
}
