/** What each of the system calls on names does, in terms of the graph and of what is open. */
module Calls {
  import opened Dir
  import opened Errors
  import opened InodeTable
  import opened Links
  import opened Mknod
  import opened Paths
  import opened RenameCall

  /** The calls of a run. Each but CallClose starts its walks at the inode places at a place in the list
      of those still open, or at the root directory; blk and room are what the allocator finds. */
  datatype Call =
    | CallOpen(from: nat, path: seq<string>, name: string, flags: Flags, blk: nat, room: bool)
    | CallClose(which: nat)
    | CallMknod(from: nat, path: seq<string>, name: string, blk: nat, room: bool)
    | CallMkdir(from: nat, path: seq<string>, name: string, blk: nat, room: bool, room2: bool)
    | CallUnlink(from: nat, path: seq<string>, name: string)
    | CallRmdir(from: nat, path: seq<string>, name: string)
    | CallLink(from: nat, path: seq<string>, from2: nat, path2: seq<string>, name: string, room: bool)
    | CallRename(from: nat, path: seq<string>, was: string, from2: nat, path2: seq<string>, name: string, room: bool)

  /** The calls that can leave a graph out of order: rmdir of "..", and rename. */
  predicate MayBreak(call: Call) {
    (call.CallRmdir? && call.name == "..") || call.CallRename?
  }

  /** What there is before and after a call: the graph, the references, the inodes that are open, and how often
      a buffer was missing. */
  datatype Scene = Scene(t: Tree, refs: map<nat, nat>, open: seq<nat>, misses: nat)

  /** What stays: the root directory of the process, that of the file system, and the longest name. */
  datatype Setting = Setting(dir: nat, root: nat, namlen: nat)

  ghost predicate Same(s: Scene, s': Scene) { s'.t == s.t && s'.open == s.open }

  ghost function StartAt(s: Scene, w: Setting, from: nat): nat {
    if from < |s.open| then s.open[from] else w.dir
  }

  ghost predicate Missed(s: Scene, s': Scene) { s'.misses > s.misses }

  /** A call with such arguments is made: names have no zero byte, the block is free, and the descriptor layer
      answers as it can. */
  ghost predicate Proper(call: Call, s: Scene) {
    match call
    case CallOpen(_, p, m, flags, x, _) => AllText(p + [m]) && x !in s.refs && flags.free in {OK, ENFILE, EMFILE}
    case CallClose(k) => k < |s.open|
    case CallMknod(_, p, m, x, _) => AllText(p + [m]) && x !in s.refs
    case CallMkdir(_, p, m, x, _, _) => AllText(p + [m]) && x !in s.refs
    case CallUnlink(_, p, m) => AllText(p + [m])
    case CallRmdir(_, p, m) => AllText(p + [m])
    case CallLink(_, p, _, q, m, _) => AllText(p) && AllText(q + [m])
    case CallRename(_, p, m, _, q, n, _) => AllText(p + [m]) && AllText(q + [n])
  }

  ghost predicate Linked(t: Tree, t': Tree, d: int, n: string, x: int) {
    d >= 0 && x >= 0 && d in t && x in t && t' == Link(t, d, n, x)
  }

  /** A new file is there, or there is a reason why not. */
  ghost predicate DidMknod(s: Scene, s': Scene, w: Setting, from: nat, p: seq<string>, m: string, x: nat, room: bool) {
    var i := StartAt(s, w, from);
    && s'.open == s.open
    && ((s'.t == s.t && exists e :: MakeError(e, s.t, s.refs, Missed(s, s'), w.dir, i, p, m, w.namlen, x, room))
        || Linked(Fresh(s.t, x), s'.t, Walk(s.t, w.dir, i, p), m, x))
  }

  ghost predicate Made(t: Tree, t': Tree, d: int, n: string, x: nat) {
    IsDir(t, d) && t' == Mkdir(t, d, n, x)
  }

  ghost predicate DidMkdir(s: Scene, s': Scene, w: Setting, from: nat, p: seq<string>, m: string, x: nat, room: bool) {
    var i := StartAt(s, w, from);
    var d := Walk(s.t, w.dir, i, p);
    && s'.open == s.open
    && ((s'.t == s.t && d >= 0 && d in s.t && s.t[d].nlink >= NLINK_MAX)
        || (s'.t == s.t && exists e :: MakeError(e, s.t, s.refs, Missed(s, s'), w.dir, i, p, m, w.namlen, x, room))
        || Made(s.t, s'.t, d, m, x))
  }

  /** The entry is gone with its links, and the inode if nothing is left of it. */
  ghost predicate CutTo(s: Scene, t': Tree, g: Tree, d: int, n: string, y: nat) {
    d >= 0 && IsCut(s.t, g, d, n, y) && y in s.refs && t' == Settled(g, s.refs, y)
  }

  ghost predicate DidUnlink(s: Scene, s': Scene, w: Setting, from: nat, p: seq<string>, m: string) {
    var i := StartAt(s, w, from);
    var d := Walk(s.t, w.dir, i, p);
    && s'.open == s.open
    && ((s'.t == s.t && exists e :: UnlinkError(e, s, s', w, i, p, m))
        || exists g: Tree, y: nat :: CutTo(s, s'.t, g, d, Clip(m), y) && !IsDir(s.t, y))
  }

  ghost predicate UnlinkError(e: Err, s: Scene, s': Scene, w: Setting, i: nat, p: seq<string>, m: string) {
    || PathError(e, s.t, s.refs, 1, Missed(s, s'), w.dir, i, p)
    || EntryError(e, s.t, s.refs, Missed(s, s'), Walk(s.t, w.dir, i, p), m)
  }

  ghost predicate DidRmdir(s: Scene, s': Scene, w: Setting, from: nat, p: seq<string>, m: string) {
    var i := StartAt(s, w, from);
    var d := Walk(s.t, w.dir, i, p);
    && s'.open == s.open
    && ((s'.t == s.t && (m == "." || exists e :: RmdirError(e, s, s', w, i, p, m)))
        || (exists g: Tree, y: nat :: CutTo(s, s'.t, g, d, m, y) && Empty(s.t, y))
        || (m == ".." && d in {w.dir as int, w.root as int} && Empty(s.t, d) && UpDone(s.t, s'.t, d)))
  }

  ghost predicate RmdirError(e: Err, s: Scene, s': Scene, w: Setting, i: nat, p: seq<string>, m: string) {
    || EmptyError(e, s.t, s.refs, Missed(s, s'), w.dir, i, p + [m])
    || UnlinkError(e, s, s', w, i, p, m)
  }

  ghost predicate DidLink(s: Scene, s': Scene, w: Setting, from: nat, p: seq<string>, from2: nat, q: seq<string>, m: string,
                          room: bool) {
    var i, j := StartAt(s, w, from), StartAt(s, w, from2);
    var x, d := Walk(s.t, w.dir, i, p), Walk(s.t, w.dir, j, q);
    && s'.open == s.open
    && ((s'.t == s.t && exists e :: PathError(e, s.t, s.refs, 1, Missed(s, s'), w.dir, i, p))
        || (s'.t == s.t && x >= 0 && x in s.t && (IsDir(s.t, x) || s.t[x].nlink >= NLINK_MAX))
        || (s'.t == s.t && x >= 0 && exists e :: LinkError(e, s, s', w, j, q, m, room))
        || (Linked(s.t, s'.t, d, m, x) && !IsDir(s.t, x)))
  }

  ghost predicate LinkError(e: Err, s: Scene, s': Scene, w: Setting, j: nat, q: seq<string>, m: string, room: bool) {
    || PathError(e, s.t, s.refs, 2, Missed(s, s'), w.dir, j, q)
    || NameErrorAt(e, s.t, Walk(s.t, w.dir, j, q), m, w.namlen, room, Missed(s, s'))
  }

  ghost predicate DidOpen(s: Scene, s': Scene, w: Setting, from: nat, p: seq<string>, m: string, flags: Flags, x: nat,
                          room: bool) {
    var i, missed := StartAt(s, w, from), Missed(s, s');
    || (Same(s, s') && !Creatable(s.t, s.refs, missed, w.dir, i, p, m, w.namlen, flags, x, room)
        && exists e :: OpenError(e, s, s', w, i, p, m, flags, x, room))
    || (s'.t == s.t && exists y: nat :: OpenedOld(s.t, w.dir, i, p + [m], flags, y) && s'.open == s.open + [y])
    || (flags.creat && Linked(Fresh(s.t, x), s'.t, Walk(s.t, w.dir, i, p), m, x)
        && s'.open == if flags.free == OK then s.open + [x] else s.open)
  }

  ghost predicate OpenError(e: Err, s: Scene, s': Scene, w: Setting, i: nat, p: seq<string>, m: string, flags: Flags, x: nat,
                            room: bool) {
    || (OldError(e, s.t, s.refs, Missed(s, s'), w.dir, i, p + [m], flags) && (e == ENOENT ==> !flags.creat))
    || (flags.creat && MakeError(e, s.t, s.refs, Missed(s, s'), w.dir, i, p, m, w.namlen, x, room))
  }

  ghost predicate DidClose(s: Scene, s': Scene, k: nat)
    requires k < |s.open|
  {
    var x := s.open[k];
    && s'.open == s.open[..k] + s.open[k + 1..]
    && x in s.t && x in s.refs && s'.t == PutNodes(s.t, s.t[x].nlink, s.refs, x)
  }

  /** The new name was made or not, and the old one is gone. */
  ghost predicate MovedTo(s: Scene, s': Scene, w: Setting, d1: int, n1: string, d2: int, n2: string, o: Outcome, e: Err, up: bool,
                          room: bool) {
    && d1 >= 0 && d2 >= 0 && d1 in s.t && n1 in s.t[d1].dir
    && var x := s.t[d1].dir[n1];
       && x in s.t && (o != Failed ==> d2 in s.t) && Outcomes(o, e, s.t, d2, n2, x, w.namlen, room, Missed(s, s'))
       && (o == Taken ==> n2 in s.t[d2].dir && s.t[d2].dir[n2] in s.t && s.t[s.t[d2].dir[n2]].nlink > 0)
       && var t', inos := RenameUp(s.t, d1, n1, d2, n2, x, o, up), Involved(s.t, d1, d2, n2, x, o);
          Known(inos, s.refs) && Known(inos, t') && (s'.t, s'.refs) == SettledAll(t', s.refs, inos)
  }

  ghost predicate DidRename(s: Scene, s': Scene, w: Setting, from: nat, p: seq<string>, m: string, from2: nat, q: seq<string>,
                            n: string, room: bool) {
    var i, j := StartAt(s, w, from), StartAt(s, w, from2);
    var d1, d2 := Walk(s.t, w.dir, i, p), Walk(s.t, w.dir, j, q);
    && s'.open == s.open
    && ((s'.t == s.t && (!Regular(m) || !Regular(n)))
        || (s'.t == s.t && exists e :: RenameError(e, s, s', w, i, p, m, j, q, n))
        || exists o, e, up :: MovedTo(s, s', w, d1, Clip(m), d2, n, o, e, up, room))
  }

  ghost predicate RenameError(e: Err, s: Scene, s': Scene, w: Setting, i: nat, p: seq<string>, m: string, j: nat, q: seq<string>,
                              n: string) {
    var d1, d2 := Walk(s.t, w.dir, i, p), Walk(s.t, w.dir, j, q);
    || PathError(e, s.t, s.refs, 1, Missed(s, s'), w.dir, i, p)
    || PathError(e, s.t, s.refs, 2, Missed(s, s'), w.dir, j, q)
    || (d1 >= 0 && d2 >= 0 && Unmoved(e, s.t, s.refs, Missed(s, s'), d1, m, d2, n))
  }

  /** What a call does: what its arguments ask for, or nothing for a reason. */
  ghost predicate Did(call: Call, s: Scene, s': Scene, w: Setting) {
    if !Proper(call, s) then s' == s
    else
      match call
      case CallOpen(from, p, m, flags, x, room) => DidOpen(s, s', w, from, p, m, flags, x, room)
      case CallClose(k) => DidClose(s, s', k)
      case CallMknod(from, p, m, x, room) => DidMknod(s, s', w, from, p, m, x, room)
      case CallMkdir(from, p, m, x, room, room2) => DidMkdir(s, s', w, from, p, m, x, room && room2)
      case CallUnlink(from, p, m) => DidUnlink(s, s', w, from, p, m)
      case CallRmdir(from, p, m) => DidRmdir(s, s', w, from, p, m)
      case CallLink(from, p, from2, q, m, room) => DidLink(s, s', w, from, p, from2, q, m, room)
      case CallRename(from, p, m, from2, q, n, room) => DidRename(s, s', w, from, p, m, from2, q, n, room)
  }
}
