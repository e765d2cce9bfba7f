/** Whole runs of the system calls on names, of kern/fs/mknod.c, kern/fs/open.c and kern/fs/file.c. */
module Runs {
  import opened Calls
  import opened Dir
  import opened Errors
  import opened InodeTable
  import opened Links
  import opened Mknod
  import opened Paths
  import opened RenameCall

  ghost function SceneOf(n: Names, inos: seq<nat>): Scene
    reads n.ic, n.ic.dirs
  {
    Scene(n.Graph(), n.ic.refs, inos, n.ic.misses)
  }

  ghost function SettingOf(n: Names): Setting { Setting(n.rootDir, n.root, n.namlen) }

  /** Each place in the list is an entry of the table for the inode beside it, and there are at least
      as many references to an inode as places, and one more to the root directory. */
  ghost predicate Backed(n: Names, places: seq<nat>, inos: seq<nat>)
    requires n.ic.table.Length == MAXINODES
    reads n.ic, n.ic.table
  {
    && |places| == |inos| && Covered(multiset(inos) + multiset{n.rootDir}, n.ic.refs)
    && forall k :: 0 <= k < |places| ==> places[k] < MAXINODES && Holds(n.ic.table[..], places[k], inos[k])
  }

  lemma SameLength(n: Names, places: seq<nat>, inos: seq<nat>)
    requires n.ic.table.Length == MAXINODES && Backed(n, places, inos)
    ensures |places| == |inos|
  {
  }

  /** Where a call starts: at the root directory if the place is not in the list. */
  method Start(n: Names, places: seq<nat>, from: nat, ghost inos: seq<nat>) returns (i: nat)
    requires n.Ready() && Backed(n, places, inos)
    ensures i < MAXINODES && n.ic.table[i].refcnt > 0
    ensures n.ic.table[i].ino == StartAt(SceneOf(n, inos), SettingOf(n), from)
  {
    i := if from < |places| then places[from] else n.rootSlot;
  }

  /** What a call that opens and closes nothing does to the list of what is open: nothing. */
  lemma StillBacked(n: Names, places: seq<nat>, inos: seq<nat>, was: seq<Slot>, refs: map<nat, nat>)
    requires n.ic.table.Length == MAXINODES == |was| && |places| == |inos|
    requires forall k :: 0 <= k < |places| ==> places[k] < MAXINODES && Holds(was, places[k], inos[k])
    requires Covered(multiset(inos) + multiset{n.rootDir}, refs)
    requires StillHeld(was, n.ic.table[..]) && Keeps(refs, n.ic.refs)
    ensures Backed(n, places, inos)
  {
    CoveredStill(multiset(inos) + multiset{n.rootDir}, refs, n.ic.refs);
  }

  /** close, or a process giving up its current directory: inode_put. */
  method SysClose(n: Names, places: seq<nat>, which: nat, ghost inos: seq<nat>)
    returns (left: seq<nat>, ghost leftInos: seq<nat>)
    requires n.Valid() && Backed(n, places, inos) && which < |places|
    modifies n.ic, n.ic.table, n.ic.dirs
    ensures Follows(old(n.ic.Buffers()), n.ic.Buffers())
    ensures n.Ready() && left == places[..which] + places[which + 1..] && leftInos == inos[..which] + inos[which + 1..]
    ensures var x := inos[which];
            && x in old(n.Graph()) && x in old(n.ic.refs) && old(n.ic.refs)[x] > 0
            && (!n.ic.lost ==>
                  && n.Valid() && Backed(n, left, leftInos)
                  && n.Graph() == PutNodes(old(n.Graph()), old(n.Graph())[x].nlink, old(n.ic.refs), x)
                  && n.ic.refs == PutRefs(old(n.Graph())[x].nlink, old(n.ic.refs), x))
    ensures !n.ic.lost ==> DidClose(old(SceneOf(n, inos)), SceneOf(n, leftInos), which)
  {
    hide Follows, Orderly, Icore.Valid, TreeOf, Sound, PutNodes, PutRefs, Covered;
    left := places[..which] + places[which + 1..];
    leftInos := inos[..which] + inos[which + 1..];
    ghost var x, was, refs, nlink := inos[which], n.ic.table[..], n.ic.refs, n.ic.table[places[which]].d.nlink;
    n.Inside(places[which]);
    GraphAt(n.ic.nodes, n.ic.dirs.binds, x);
    CoveredLess(inos, which, n.rootDir, refs, nlink);
    forall k | 0 <= k < |left| ensures left[k] < MAXINODES && Holds(was, left[k], leftInos[k]) {
      assert left[k] == places[if k < which then k else k + 1];
    }
    forall k | 0 <= k < |left| && left[k] == places[which] ensures was[left[k]].refcnt > 1 {
      CoveredTwice(inos, if k < which then k else k + 1, which, n.rootDir, refs);
    }
    var e := n.Put(places[which], x);
  }

  /** One call. */
  method Do(n: Names, call: Call, places: seq<nat>, ghost inos: seq<nat>)
    returns (broken: bool, now: seq<nat>, ghost nowInos: seq<nat>)
    requires n.Valid() && Backed(n, places, inos)
    modifies n.ic, n.ic.table, n.ic.dirs
    ensures n.Ready() && (!n.ic.lost ==> if broken then !Sound(n.Graph(), n.root) else n.Valid() && Backed(n, now, nowInos))
    ensures Follows(old(n.ic.Buffers()), n.ic.Buffers())
    ensures broken ==> MayBreak(call)
    ensures !n.ic.lost ==> Did(call, old(SceneOf(n, inos)), SceneOf(n, nowInos), SettingOf(n))
  {
    hide Follows, Orderly, Icore.Valid, TreeOf, Sound, Backed, DidOpen, DidClose, DidMknod, DidMkdir, DidUnlink, DidRmdir,
         DidLink, DidRename, AllText;
    broken, now, nowInos := false, places, inos;
    FollowsSame(n.ic.Buffers());
    n.InUse();
    SameLength(n, places, inos);
    match call
    case CallOpen(from, p, m, flags, x, room) =>
      if AllText(p + [m]) && x !in n.ic.used && flags.free in {OK, ENFILE, EMFILE} {
        now, nowInos := DoOpen(n, from, p, m, flags, x, room, places, inos);
      }
    case CallClose(k) =>
      if k < |places| {
        now, nowInos := SysClose(n, places, k, inos);
      }
    case CallMknod(_, p, m, x, _) =>
      if AllText(p + [m]) && x !in n.ic.used {
        Make(n, call, places, inos);
      }
    case CallMkdir(_, p, m, x, _, _) =>
      if AllText(p + [m]) && x !in n.ic.used {
        Make(n, call, places, inos);
      }
    case CallUnlink(_, p, m) =>
      if AllText(p + [m]) {
        broken := Unmake(n, call, places, inos);
      }
    case CallRmdir(_, p, m) =>
      if AllText(p + [m]) {
        broken := Unmake(n, call, places, inos);
      }
    case CallLink(from, p, from2, q, m, room) =>
      if AllText(p) && AllText(q + [m]) {
        DoLink(n, from, p, from2, q, m, room, places, inos);
      }
    case CallRename(from, p, was, from2, q, m, room) =>
      if AllText(p + [was]) && AllText(q + [m]) {
        broken := DoRename(n, from, p, was, from2, q, m, room, places, inos);
      }
  }

  /** mknod and mkdir. */
  method Make(n: Names, call: Call, places: seq<nat>, ghost inos: seq<nat>)
    requires n.Valid() && Backed(n, places, inos) && (call.CallMknod? || call.CallMkdir?)
    requires AllText(call.path + [call.name]) && call.blk !in n.ic.used
    modifies n.ic, n.ic.table, n.ic.dirs
    ensures n.Ready() && (!n.ic.lost ==> n.Valid() && Backed(n, places, inos)) && Follows(old(n.ic.Buffers()), n.ic.Buffers())
    ensures !n.ic.lost ==>
              var s, s', w := old(SceneOf(n, inos)), SceneOf(n, inos), SettingOf(n);
              match call
              case CallMknod(from, p, m, x, room) => DidMknod(s, s', w, from, p, m, x, room)
              case CallMkdir(from, p, m, x, room, room2) => DidMkdir(s, s', w, from, p, m, x, room && room2)
              case _ => false
  {
    hide Follows, Orderly, Icore.Valid, TreeOf, Sound, Walk, Covered, Keeps, Leaked, MakeError, Link, Fresh, Mkdir,
         StillHeld;
    TextParts(call.path, call.name);
    ghost var was, refs := n.ic.table[..], n.ic.refs;
    var start := Start(n, places, call.from, inos);
    match call {
      case CallMknod(_, p, m, x, room) =>
        var e, made, d, why := n.SysMknod(start, p, m, x, room);
        ghost var s, s', w := old(SceneOf(n, inos)), SceneOf(n, inos), SettingOf(n);
        assert !made ==> MakeError(why, s.t, s.refs, Missed(s, s'), w.dir, StartAt(s, w, call.from), p, m, w.namlen, x, room);
      case CallMkdir(_, p, m, x, room, room2) =>
        var e, d := n.SysMkdir(start, p, m, x, room, room2);
        ghost var s, s', w := old(SceneOf(n, inos)), SceneOf(n, inos), SettingOf(n);
        assert e !in {OK, EMLINK} ==>
            MakeError(e, s.t, s.refs, Missed(s, s'), w.dir, StartAt(s, w, call.from), p, m, w.namlen, x, room && room2);
    }
    if !n.ic.lost { StillBacked(n, places, inos, was, refs); }
  }

  /** unlink and rmdir; broken tells whether an rmdir of ".." has gone through. */
  method Unmake(n: Names, call: Call, places: seq<nat>, ghost inos: seq<nat>) returns (broken: bool)
    requires n.Valid() && Backed(n, places, inos) && (call.CallUnlink? || call.CallRmdir?)
    requires AllText(call.path + [call.name])
    modifies n.ic, n.ic.table, n.ic.dirs
    ensures n.Ready() && (!n.ic.lost ==> if broken then !Sound(n.Graph(), n.root) else n.Valid() && Backed(n, places, inos))
    ensures Follows(old(n.ic.Buffers()), n.ic.Buffers())
    ensures broken ==> MayBreak(call)
    ensures !n.ic.lost ==>
              var s, s', w := old(SceneOf(n, inos)), SceneOf(n, inos), SettingOf(n);
              match call
              case CallUnlink(from, p, m) => DidUnlink(s, s', w, from, p, m)
              case CallRmdir(from, p, m) => DidRmdir(s, s', w, from, p, m)
              case _ => false
  {
    hide Follows, Orderly, Icore.Valid, TreeOf, Sound, Walk, Covered, Keeps, Leaked, Settled, SettledRefs, PathError,
         EntryError, EmptyError, Clip, IsCut, IsDir, Empty, StillHeld, UpDone;
    TextParts(call.path, call.name);
    ghost var was, refs := n.ic.table[..], n.ic.refs;
    var start := Start(n, places, call.from, inos);
    broken := false;
    match call {
      case CallUnlink(_, p, m) =>
        var e, d, y, g := n.SysUnlink(start, p, m);
        ghost var s, s', w := old(SceneOf(n, inos)), SceneOf(n, inos), SettingOf(n);
        if !n.ic.lost {
          assert e != OK ==> UnlinkError(e, s, s', w, StartAt(s, w, call.from), p, m);
          assert e == OK ==> CutTo(s, s'.t, g, d, Clip(m), y);
        }
      case CallRmdir(_, p, m) =>
        var e;
        ghost var d, y, g;
        e, broken, d, y, g := n.SysRmdir(start, p, m);
        ghost var s, s', w := old(SceneOf(n, inos)), SceneOf(n, inos), SettingOf(n);
        if !n.ic.lost {
          assert e != OK && m != "." ==> RmdirError(e, s, s', w, StartAt(s, w, call.from), p, m);
          assert e == OK && !broken ==> CutTo(s, s'.t, g, d, m, y);
        }
    }
    if !n.ic.lost { StillBacked(n, places, inos, was, refs); }
  }

  method DoLink(n: Names, from: nat, path: seq<string>, from2: nat, path2: seq<string>, name: string, room: bool,
                places: seq<nat>, ghost inos: seq<nat>)
    requires n.Valid() && Backed(n, places, inos) && AllText(path) && AllText(path2 + [name])
    modifies n.ic, n.ic.table, n.ic.dirs
    ensures n.Ready() && (!n.ic.lost ==> n.Valid() && Backed(n, places, inos)) && Follows(old(n.ic.Buffers()), n.ic.Buffers())
    ensures !n.ic.lost ==>
              DidLink(old(SceneOf(n, inos)), SceneOf(n, inos), SettingOf(n), from, path, from2, path2, name, room)
  {
    hide Follows, Orderly, Icore.Valid, TreeOf, Sound, Walk, Covered, Keeps, Leaked, PathError, NameErrorAt, Link,
         StillHeld;
    TextParts(path2, name);
    ghost var was, refs := n.ic.table[..], n.ic.refs;
    var start := Start(n, places, from, inos);
    var start2 := Start(n, places, from2, inos);
    var e, x, d := n.SysLink(start, path, start2, path2, name, room);
    if !n.ic.lost {
      StillBacked(n, places, inos, was, refs);
      ghost var s, s', w := old(SceneOf(n, inos)), SceneOf(n, inos), SettingOf(n);
      assert e !in {OK, EMLINK, EISDIR} && !PathError(e, s.t, s.refs, 1, Missed(s, s'), w.dir, StartAt(s, w, from), path) ==>
          LinkError(e, s, s', w, StartAt(s, w, from2), path2, name, room);
    }
  }

  /** rename; broken tells whether it has left the graph out of order. */
  method DoRename(n: Names, from: nat, path: seq<string>, was: string, from2: nat, path2: seq<string>, name: string,
                  room: bool, places: seq<nat>, ghost inos: seq<nat>)
    returns (broken: bool)
    requires n.Valid() && Backed(n, places, inos) && AllText(path + [was]) && AllText(path2 + [name])
    modifies n.ic, n.ic.table, n.ic.dirs
    ensures n.Ready() && (!n.ic.lost ==> if broken then !Sound(n.Graph(), n.root) else n.Valid() && Backed(n, places, inos))
    ensures Follows(old(n.ic.Buffers()), n.ic.Buffers())
    ensures !n.ic.lost ==>
              DidRename(old(SceneOf(n, inos)), SceneOf(n, inos), SettingOf(n), from, path, was, from2, path2, name, room)
  {
    hide Follows, Orderly, Icore.Valid, TreeOf, Sound, Walk, Covered, Keeps, Leaked, PathError, Unmoved, RenameCall.Moved, IsDir,
         StillHeld, MovedTo;
    TextParts(path, was);
    TextParts(path2, name);
    ghost var table, refs := n.ic.table[..], n.ic.refs;
    OrderlySound(n.Graph(), refs, n.root);
    var start := Start(n, places, from, inos);
    var start2 := Start(n, places, from2, inos);
    var err, moved, fine, up;
    ghost var d1, d2, x, o, e;
    err, moved, fine, up, d1, d2, x, o, e := SysRename(n, start, path, was, start2, path2, name, room);
    broken := moved && !fine;
    if !n.ic.lost {
      StillBacked(n, places, inos, table, refs);
      ghost var s, s', w := old(SceneOf(n, inos)), SceneOf(n, inos), SettingOf(n);
      if moved {
        MovedIs(n, s, s', w, err, fine, d1, was, d2, name, x, o, e, up, room);
      } else {
        assert Regular(was) && Regular(name) ==>
            RenameError(err, s, s', w, StartAt(s, w, from), path, was, StartAt(s, w, from2), path2, name);
      }
    }
  }

  lemma MovedIs(n: Names, s: Scene, s': Scene, w: Setting, err: Err, fine: bool, d1: nat, n1: string, d2: nat, n2: string,
                x: nat, o: Outcome, e: Err, up: bool, room: bool)
    requires RenameCall.Moved(n, err, fine, s.t, d1, n1, d2, n2, x, o, e, up, room, Missed(s, s'), s.refs) && !n.ic.lost
    requires s'.t == n.Graph() && s'.refs == n.ic.refs && w.namlen == n.namlen && Sound(s.t, w.root)
    ensures MovedTo(s, s', w, d1, Clip(n1), d2, n2, o, e, up, room)
  {
    hide Sound, SettledAll, RenameUp, Known;
    UnderApart(s.t, w.root, d1, Clip(n1), x);
  }

  lemma OpenIs(s: Scene, s': Scene, w: Setting, from: nat, p: seq<string>, m: string, flags: Flags, x: nat, room: bool,
               err: Err, made: bool, y: nat, d: nat)
    requires made ==>
               && flags.creat && Walk(s.t, w.dir, StartAt(s, w, from), p) == d && d in Fresh(s.t, x) && x in Fresh(s.t, x)
               && s'.t == Link(Fresh(s.t, x), d, m, x) && err == flags.free
    requires !made ==> s'.t == s.t && (err == OK ==> OpenedOld(s.t, w.dir, StartAt(s, w, from), p + [m], flags, y))
    requires err != OK && !made ==>
               || (OldError(err, s.t, s.refs, Missed(s, s'), w.dir, StartAt(s, w, from), p + [m], flags)
                   && (err == ENOENT ==> !flags.creat))
               || (flags.creat
                   && MakeError(err, s.t, s.refs, Missed(s, s'), w.dir, StartAt(s, w, from), p, m, w.namlen, x, room))
    requires Creatable(s.t, s.refs, Missed(s, s'), w.dir, StartAt(s, w, from), p, m, w.namlen, flags, x, room) ==> made
    requires s'.open == if err == OK then s.open + [if made then x else y] else s.open
    ensures DidOpen(s, s', w, from, p, m, flags, x, room)
  {
    hide Walk, OldError, MakeError, OpenedOld, Creatable, Link, Fresh;
    if err != OK && !made {
      assert OpenError(err, s, s', w, StartAt(s, w, from), p, m, flags, x, room);
    }
  }

  method DoOpen(n: Names, from: nat, path: seq<string>, name: string, flags: Flags, x: nat, room: bool, places: seq<nat>,
                ghost inos: seq<nat>)
    returns (now: seq<nat>, ghost nowInos: seq<nat>)
    requires n.Valid() && Backed(n, places, inos) && AllText(path + [name]) && x !in n.ic.used
    requires flags.free in {OK, ENFILE, EMFILE}
    modifies n.ic, n.ic.table, n.ic.dirs
    ensures n.Ready() && (!n.ic.lost ==> n.Valid() && Backed(n, now, nowInos)) && Follows(old(n.ic.Buffers()), n.ic.Buffers())
    ensures !n.ic.lost ==>
              DidOpen(old(SceneOf(n, inos)), SceneOf(n, nowInos), SettingOf(n), from, path, name, flags, x, room)
  {
    hide Follows, Orderly, Icore.Valid, TreeOf, Sound, Walk, Covered, Keeps, Leaked, MakeError, PathError, IsDir, Link,
         Fresh, StillHeld, OldError, OpenedOld, Creatable, Dead, DidOpen, More;
    now, nowInos := places, inos;
    TextParts(path, name);
    ghost var was, refs := n.ic.table[..], n.ic.refs;
    var start := Start(n, places, from, inos);
    var err, i, made;
    ghost var y, d;
    err, i, made, y, d := n.SysOpen(start, path, name, flags, x, room);
    if n.ic.lost { return; }
    StillBacked(n, places, inos, was, refs);
    if err == OK {
      now, nowInos := places + [i], inos + [y];
      CoveredMore(inos, y, n.rootDir, refs, n.ic.refs);
    }
    ghost var s, s', w := old(SceneOf(n, inos)), SceneOf(n, nowInos), SettingOf(n);
    OpenIs(s, s', w, from, path, name, flags, x, room, err, made, y, d);
  }

  /** Whatever calls are made, and whatever the allocator and the buffer cache answer: every link count stays
      the number of entries, no entry names an inode that is gone, the directories stay a tree, and an inode
      that is open is there, linked or not; until a changed inode cannot be written when its last reference
      goes, or an rmdir of ".." or a rename has ended that, which broken tells. trace is what there was before
      each call until then, and after the last one. */
  method Run(n: Names, calls: seq<Call>)
    returns (broken: bool, places: seq<nat>, ghost inos: seq<nat>, ghost trace: seq<Scene>)
    requires n.Valid()
    modifies n.ic, n.ic.table, n.ic.dirs
    ensures n.Ready() && Follows(old(n.ic.Buffers()), n.ic.Buffers())
    ensures Ample(old(n.ic.answers)) ==> !n.ic.lost
    ensures !n.ic.lost && broken ==> !Sound(n.Graph(), n.root)
    ensures !n.ic.lost && !broken ==>
              && n.Valid() && Backed(n, places, inos)
              && forall k :: 0 <= k < |inos| ==> inos[k] in n.Graph() && inos[k] in n.ic.refs && n.ic.refs[inos[k]] > 0
    ensures broken ==> exists k :: 0 <= k < |calls| && MayBreak(calls[k])
    ensures 0 < |trace| <= |calls| + 1 && trace[0] == old(SceneOf(n, []))
    ensures forall k :: 0 <= k < |trace| - 1 ==> Did(calls[k], trace[k], trace[k + 1], SettingOf(n))
    ensures !n.ic.lost ==> trace[|trace| - 1] == SceneOf(n, inos) && (broken || |trace| == |calls| + 1)
  {
    hide Follows, Orderly, Icore.Valid, TreeOf, Sound, Covered, Did;
    broken, places, inos := false, [], [];
    trace := [SceneOf(n, [])];
    n.Inside(n.rootSlot);
    CoveredOne(n.rootDir, n.ic.refs);
    var k := 0;
    FollowsSame(n.ic.Buffers());
    while k < |calls| && !n.ic.lost && !broken
      invariant k <= |calls| && n.Ready() && Follows(old(n.ic.Buffers()), n.ic.Buffers())
      invariant !n.ic.lost ==> if broken then !Sound(n.Graph(), n.root) else n.Valid() && Backed(n, places, inos)
      invariant broken ==> k > 0 && MayBreak(calls[k - 1])
      invariant 0 < |trace| <= k + 1 && trace[0] == old(SceneOf(n, [])) && (!n.ic.lost ==> |trace| == k + 1)
      invariant !n.ic.lost ==> trace[|trace| - 1] == SceneOf(n, inos)
      invariant forall j :: 0 <= j < |trace| - 1 ==> Did(calls[j], trace[j], trace[j + 1], SettingOf(n))
    {
      ghost var b := n.ic.Buffers();
      broken, places, inos := Do(n, calls[k], places, inos);
      if !n.ic.lost { trace := trace + [SceneOf(n, inos)]; }
      FollowsBoth(old(n.ic.Buffers()), b, n.ic.Buffers());
      k := k + 1;
    }
    if Ample(old(n.ic.answers)) { FollowsAmple(old(n.ic.Buffers()), n.ic.Buffers()); }
    if !n.ic.lost && !broken {
      n.InUse();
      CoveredEach(inos, n.rootDir, n.ic.refs);
    }
  }
}
