/** The system call rename, do_rename in kern/fs/mknod.c, over the table of inodes and the directories. */
module RenameCall {
  import opened Dir
  import opened Errors
  import opened InodeTable
  import opened Links
  import opened Mknod
  import opened Paths

  /** Several entries of the table, each for the inode beside it, held since the references were as given. */
  ghost predicate HoldingAll(n: Names, cs: seq<nat>, inos: seq<nat>, held: seq<Slot>, refs: map<nat, nat>)
    reads n, n.ic, n.ic.table, n.ic.dirs
  {
    && n.Ready() && ListHeld(n.ic.table[..], cs, inos) && Known(inos, refs) && Known(inos, n.Graph())
    && n.ic.refs == AllMore(refs, inos)
    && StillHeld(held, n.ic.table[..]) && HeldCounted(held, refs) && n.RootHeld(held)
  }

  /** Whoever had the first of them before, or has it again, still has it when it has been let go of. */
  lemma HeldBeside(n: Names, cs: seq<nat>, inos: seq<nat>, held: seq<Slot>, refs: map<nat, nat>)
    requires HoldingAll(n, cs, inos, held, refs) && cs != []
    ensures var c, x := cs[0], inos[0];
            && c < MAXINODES == n.ic.table.Length && n.ic.table[c].refcnt > 0 && n.ic.table[c].ino == x
            && (Holds(held, c, x) || c == n.rootSlot || x in inos[1..] ==> n.ic.table[c].refcnt > 1)
  {
    hide Icore.Valid, TreeOf, AllMore, More, Settled, SettledRefs, PutNodes, PutRefs;
    n.Inside(cs[0]);
    PutOfAll(n.Graph(), refs, inos);
  }

  /** The first block of directory x has an entry "..". */
  ghost predicate UpFirst(slots: map<nat, seq<Dirent>>, x: nat) {
    x in slots && exists k: nat :: k < PER_BLOCK && k < |slots[x]| && Live(slots[x], k, "..")
  }

  lemma FewerUp(was: map<nat, seq<Dirent>>, now: map<nat, seq<Dirent>>, x: nat)
    requires Fewer(was, now) && x in now
    ensures UpFirst(was, x) <==> UpFirst(now, x)
  {
    hide Live;
  }

  lemma FewerAt(was: map<nat, seq<Dirent>>, now: map<nat, seq<Dirent>>, x: nat)
    requires Fewer(was, now) && x in now
    ensures x in was
  {
  }

  lemma LivesUp(was: map<nat, seq<Dirent>>, now: map<nat, seq<Dirent>>, x: nat)
    requires LivesOn(was, now) && UpFirst(was, x)
    ensures UpFirst(now, x)
  {
    hide Live, LivesOn;
    var k: nat :| k < PER_BLOCK && k < |was[x]| && Live(was[x], k, "..");
    StillLive(was, now, x, k, "..");
  }

  lemma TakenUp(was: map<nat, seq<Dirent>>, d: nat, k: nat, n: string, e: Dirent, x: nat)
    requires d in was && k < |was[d]| && Live(was[d], k, n) && n != ".." && UpFirst(was, x)
    ensures UpFirst(was[d := was[d][k := e]], x)
  {
    hide Live;
    var j: nat :| j < PER_BLOCK && j < |was[x]| && Live(was[x], j, "..");
    if x == d { LiveBeside(was[d], j, "..", k, n, e); }
    assert Live(was[d := was[d][k := e]][x], j, "..");
  }

  /** The calls of inode_put at the end of the call. */
  method PutAll(n: Names, cs: seq<nat>, ghost inos: seq<nat>, ghost held: seq<Slot>, ghost refs: map<nat, nat>)
    requires HoldingAll(n, cs, inos, held, refs)
    modifies n.ic, n.ic.table, n.ic.dirs
    ensures n.Ready() && StillHeld(held, n.ic.table[..]) && Follows(old(n.ic.Buffers()), n.ic.Buffers())
    ensures !n.ic.lost ==> (n.Graph(), n.ic.refs) == SettledAll(old(n.Graph()), refs, inos)
    ensures old(n.Valid()) && !n.ic.lost ==> n.Valid()
    decreases |cs|
  {
    hide Follows, Orderly, Icore.Valid, TreeOf, More, PutRefs, PutNodes, Settled, SettledRefs, Sound, HeldBut,
         HeldCounted, StillHeld;
    FollowsSame(n.ic.Buffers());
    if |cs| > 0 {
      var c := cs[0];
      ghost var x, g, was := inos[0], n.Graph(), n.ic.table[..];
      n.Inside(c);
      HeldBeside(n, cs, inos, held, refs);
      PutOfAll(g, refs, inos);
      var e := n.Put(c, x);
      HeldOn(held, was, n.ic.table[..], c, x);
      ListRest(was, n.ic.table[..], cs, inos);
      SettledCounted(held, g, refs, x);
      ghost var b, refs' := n.ic.Buffers(), if x in inos[1..] then refs else SettledRefs(g, refs, x);
      PutAll(n, cs[1..], inos[1..], held, refs');
      FollowsBoth(old(n.ic.Buffers()), b, n.ic.Buffers());
    }
  }

  /** dir_creat without the count: x gets a name more in d. */
  method EnterNew(n: Names, c: nat, i: nat, name: string, room: bool, ghost d: nat, ghost x: nat) returns (err: Err)
    requires n.Ready() && c < MAXINODES && i < MAXINODES && Holds(n.ic.table[..], c, d) && Holds(n.ic.table[..], i, x)
    requires Text(name)
    modifies n.ic`answers, n.ic`misses, n.ic.table, n.ic.dirs
    ensures n.Ready() && StillHeld(old(n.ic.table[..]), n.ic.table[..]) && Follows(old(n.ic.Buffers()), n.ic.Buffers())
    ensures LivesOn(old(n.ic.dirs.slots), n.ic.dirs.slots) && d in old(n.Graph())
    ensures err == OK ==> IsDir(old(n.Graph()), d) && name !in old(n.Graph())[d].dir && 0 < |name| <= n.namlen
    ensures err == EEXIST ==> IsDir(old(n.Graph()), d) && name in old(n.Graph())[d].dir && 0 < |name| <= n.namlen
    ensures err != OK ==> NameError(err, old(n.Graph()), d, name, n.namlen, room, n.ic.misses > old(n.ic.misses))
    ensures err == ENOSPC ==> Packed(old(n.ic.dirs.slots), d)
    ensures n.Graph() == if err == OK then Enter(old(n.Graph()), d, name, x) else old(n.Graph())
  {
    hide Icore.Valid, TreeOf, Enter, Bind, FirstFree, Refusal, Follows, StillHeld, LivesOn, Packed, OnlyAt;
    n.Inside(c);
    n.Inside(i);
    ghost var nodes, binds, was := n.ic.nodes, n.ic.dirs.binds, n.ic.table[..];
    GraphAt(nodes, binds, d);
    var s := n.ic.table[c].d;
    RefusalIs(name, n.namlen, s.isDir, s.isDir && name in binds[d]);
    if s.isDir { TreeEnter(nodes, binds, d, name, x); }
    err := n.ic.Creat(c, name, n.ic.table[i].ino, n.namlen, room);
    StillAt(was, n.ic.table[..], n.rootSlot, n.rootDir);
  }

  /** The entry under the new name gets x in place of y, which has a link less. */
  method TakeOver(n: Names, c: nat, j: nat, i: nat, k: nat, name: string, ghost d: nat, ghost y: nat, ghost x: nat)
    requires n.Ready() && c < MAXINODES && j < MAXINODES && i < MAXINODES && Text(name) && |name| <= NAME_MAX
    requires Holds(n.ic.table[..], c, d) && Holds(n.ic.table[..], j, y) && Holds(n.ic.table[..], i, x)
    requires d in n.ic.dirs.slots && k < |n.ic.dirs.slots[d]| && Live(n.ic.dirs.slots[d], k, name)
    requires IsDir(n.Graph(), d) && name in n.Graph()[d].dir && n.Graph()[d].dir[name] == y && y in n.Graph()
    requires !IsDir(n.Graph(), y) && n.Graph()[y].nlink > 0
    modifies n.ic`nodes, n.ic.table, n.ic.dirs
    ensures n.Ready() && StillHeld(old(n.ic.table[..]), n.ic.table[..])
    ensures d in old(n.Graph()) && name in old(n.Graph())[d].dir && old(n.Graph())[d].dir[name] == y
    ensures y in old(n.Graph()) && old(n.Graph())[y].nlink > 0
    ensures n.Graph() == Enter(Unlink(old(n.Graph()), d, name), d, name, x)
    ensures n.ic.dirs.slots == old(n.ic.dirs.slots)[d := old(n.ic.dirs.slots)[d][k := Dirent(x, Strncpy(name))]]
  {
    hide Icore.Valid, TreeOf, Enter, Unlink, Bind, Live, StillHeld, Strncpy;
    n.Inside(c);
    n.Inside(j);
    n.Inside(i);
    ghost var nodes, binds, was := n.ic.nodes, n.ic.dirs.binds, n.ic.table[..];
    GraphAt(nodes, binds, d);
    GraphAt(nodes, binds, y);
    TreeTakeOver(nodes, binds, d, name, y, x);
    var s := n.ic.table[j].d;
    n.ic.Set(j, Dnode(s.isDir, s.nlink - 1), 2);
    StillAt(was, n.ic.table[..], n.rootSlot, n.rootDir);
    StillAt(was, n.ic.table[..], c, d);
    StillAt(was, n.ic.table[..], i, x);
    n.ic.Replace(n.ic.table[c].ino, k, name, n.ic.table[i].ino);
    assert n.ic.nodes == nodes[y := Dnode(false, nodes[y].nlink - 1)];
  }

  /** dir_reparent. */
  method PointUp(n: Names, i: nat, c: nat, ghost x: nat, ghost d: nat) returns (err: Err)
    requires n.Ready() && i < MAXINODES && c < MAXINODES && Holds(n.ic.table[..], i, x) && Holds(n.ic.table[..], c, d)
    requires IsDir(n.Graph(), x)
    modifies n.ic`answers, n.ic`misses, n.ic.dirs
    ensures n.Ready() && Follows(old(n.ic.Buffers()), n.ic.Buffers()) && x in old(n.Graph())
    ensures err in {OK, EINVAL, ENOMEM}
    ensures (err == ENOMEM ==> n.ic.misses > old(n.ic.misses)) && (err == EINVAL ==> !UpFirst(old(n.ic.dirs.slots), x))
    ensures n.Graph() == if err == OK then Links.Reparent(old(n.Graph()), x, d) else old(n.Graph())
    ensures OnlyAt(old(n.ic.dirs.slots), n.ic.dirs.slots, x) && n.ic.dirs.slots.Keys == old(n.ic.dirs.slots.Keys)
  {
    hide Icore.Valid, TreeOf, Links.Reparent, Bind, Live, Follows, OnlyAt;
    n.Inside(i);
    n.Inside(c);
    GraphAt(n.ic.nodes, n.ic.dirs.binds, x);
    TreeReparent(n.ic.nodes, n.ic.dirs.binds, x, d);
    err := n.ic.Reparent(n.ic.table[i].ino, n.ic.table[c].ino);
  }

  /** The old name goes. */
  method DropOld(n: Names, c: nat, k: nat, ghost d: nat, ghost from: string)
    requires n.Ready() && c < MAXINODES && Holds(n.ic.table[..], c, d) && IsDir(n.Graph(), d)
    requires d in n.ic.dirs.slots && k < |n.ic.dirs.slots[d]| && Live(n.ic.dirs.slots[d], k, from)
    modifies n.ic.dirs
    ensures n.Ready() && d in old(n.Graph()) && n.Graph() == Remove(old(n.Graph()), d, from)
  {
    hide Icore.Valid, TreeOf, Remove, Live;
    n.Inside(c);
    GraphAt(n.ic.nodes, n.ic.dirs.binds, d);
    TreeRemove(n.ic.nodes, n.ic.dirs.binds, d, from);
    n.ic.Clear(n.ic.table[c].ino, k, from);
  }

  /** The end of do_rename: the "..", the old name, and the calls of inode_put. */
  method Conclude(n: Names, cs: seq<nat>, k: nat, ghost t: Tree, ghost d1: nat, ghost n1: string, ghost d2: nat,
                  ghost n2: string, ghost x: nat, ghost o: Outcome, ghost inos: seq<nat>, ghost held: seq<Slot>,
                  ghost refs: map<nat, nat>)
    returns (err: Err, up: bool)
    requires HoldingAll(n, cs, inos, held, refs) && |cs| >= 3 && inos[0] == d1 && inos[1] == d2 && inos[2] == x
    requires d1 in t && x in t && (o != Failed ==> d2 in t) && !Refused(t, d2, n2, x, o) && IsDir(t, d1) && d1 != x
    requires o == Taken ==> n2 in t[d2].dir && t[d2].dir[n2] in t && t[t[d2].dir[n2]].nlink > 0
    requires n.Graph() == NewName(t, d2, n2, x, o)
    requires d1 in n.ic.dirs.slots && k < |n.ic.dirs.slots[d1]| && Live(n.ic.dirs.slots[d1], k, n1)
    modifies n.ic, n.ic.table, n.ic.dirs
    ensures n.Ready() && StillHeld(held, n.ic.table[..]) && Follows(old(n.ic.Buffers()), n.ic.Buffers())
    ensures err in {OK, EINVAL, ENOMEM} && (IsDir(t, x) ==> (up <==> err == OK)) && (!IsDir(t, x) ==> err == OK)
    ensures (err == ENOMEM ==> n.ic.misses > old(n.ic.misses)) && (err == EINVAL ==> !UpFirst(old(n.ic.dirs.slots), x))
    ensures Known(inos, refs) && Known(inos, RenameUp(t, d1, n1, d2, n2, x, o, up))
    ensures !n.ic.lost ==> (n.Graph(), n.ic.refs) == SettledAll(RenameUp(t, d1, n1, d2, n2, x, o, up), refs, inos)
    ensures !n.ic.lost && Orderly(RenameUp(t, d1, n1, d2, n2, x, o, up), AllMore(refs, inos), n.root) ==> n.Valid()
  {
    hide Follows, Orderly, Icore.Valid, TreeOf, Sound, NewName, RenameUp, Remove, Links.Reparent, SettledAll, AllMore,
         StillHeld, HeldCounted, OnlyAt, Live, Known, ListHeld, UpFirst;
    RenameInOrder(t, d1, n1, d2, n2, x, o, true);
    RenameInOrder(t, d1, n1, d2, n2, x, o, false);
    ListAt(n.ic.table[..], cs, inos, 0);
    ListAt(n.ic.table[..], cs, inos, 1);
    ListAt(n.ic.table[..], cs, inos, 2);
    n.Inside(cs[2]);
    GraphAt(n.ic.nodes, n.ic.dirs.binds, x);
    ghost var g, slots := n.Graph(), n.ic.dirs.slots;
    err, up := OK, false;
    if n.ic.table[cs[2]].d.isDir {
      err := PointUp(n, cs[2], cs[1], x, d2);
      up := err == OK;
      OnlyAtOther(slots, n.ic.dirs.slots, x, d1);
    }
    DropOld(n, cs[0], k, d1, n1);
    KnownStill(inos, g, n.Graph());
    ghost var b := n.ic.Buffers();
    PutAll(n, cs, inos, held, refs);
    FollowsBoth(old(n.ic.Buffers()), b, n.ic.Buffers());
  }

  /** Why rename stops once it has all three inodes: the two names are one inode's, the new one is that of a
      directory, or what it names cannot be had. */
  ghost predicate Stopped(err: Err, t: Tree, refs: map<nat, nat>, missed: bool, d2: nat, n2: string, x: nat) {
    match err
    case OK => IsDir(t, d2) && n2 in t[d2].dir && t[d2].dir[n2] == x
    case EISDIR => IsDir(t, d2) && n2 in t[d2].dir && IsDir(t, t[d2].dir[n2])
    case ENOMEM => NoRoom(refs, 3, missed)
    case _ => false
  }

  /** How the new name was made, or not: e is what dir_creat answered. */
  ghost predicate Outcomes(o: Outcome, e: Err, t: Tree, d2: nat, n2: string, x: nat, namlen: nat, room: bool, missed: bool) {
    match o
    case Made => IsDir(t, d2) && n2 !in t[d2].dir && 0 < |n2| <= namlen
    case Taken =>
      && IsDir(t, d2) && n2 in t[d2].dir && 0 < |n2| <= namlen
      && var y := t[d2].dir[n2]; y in t && t[y].nlink > 0 && !IsDir(t, y) && y != x
    case Failed => e !in {OK, EEXIST} && NameError(e, t, d2, n2, namlen, room, missed)
  }

  /** One inode more is held. */
  lemma HoldOneMore(n: Names, cs: seq<nat>, inos: seq<nat>, j: nat, y: nat, was: seq<Slot>, held: seq<Slot>, refs: map<nat, nat>)
    requires n.Ready() && j < MAXINODES && Holds(n.ic.table[..], j, y) && y in refs && y in n.Graph()
    requires ListHeld(was, cs, inos) && StillHeld(was, n.ic.table[..]) && StillHeld(held, was)
    requires Known(inos, refs) && Known(inos, n.Graph()) && HeldCounted(held, refs) && n.RootHeld(held)
    requires n.ic.refs == More(AllMore(refs, inos), y)
    ensures HoldingAll(n, cs + [j], inos + [y], held, refs)
  {
    hide Icore.Valid, TreeOf, More, AllMore, StillHeld, HeldCounted, ListHeld;
    AllMoreEnd(refs, inos, y);
    ListStill(was, n.ic.table[..], cs, inos);
    ListMore(n.ic.table[..], cs, inos, j, y);
    HeldThrough(held, was, n.ic.table[..]);
  }

  /** Letting go of inodes that all stay. */
  method PutSame(n: Names, cs: seq<nat>, ghost inos: seq<nat>, ghost held: seq<Slot>, ghost refs: map<nat, nat>)
    requires n.Valid() && HoldingAll(n, cs, inos, held, refs) && Lasting(n.Graph(), refs, inos)
    modifies n.ic, n.ic.table, n.ic.dirs
    ensures n.Ready() && StillHeld(held, n.ic.table[..]) && Follows(old(n.ic.Buffers()), n.ic.Buffers())
    ensures !n.ic.lost ==> n.Valid() && n.Graph() == old(n.Graph()) && n.ic.refs == refs
  {
    hide Follows, Orderly, Icore.Valid, TreeOf, AllMore, StillHeld, HeldCounted, ListHeld, Lasting, SettledAll;
    SettledAllSame(n.Graph(), refs, inos);
    PutAll(n, cs, inos, held, refs);
  }

  /** dir_search and inode_get in do_rename. */
  method Look(n: Names, c: nat, name: string, ghost d: nat) returns (err: Err, i: nat, k: nat, ghost x: nat)
    requires n.Valid() && c < MAXINODES && Holds(n.ic.table[..], c, d) && Text(name)
    modifies n.ic`refs, n.ic`answers, n.ic`misses, n.ic.table
    ensures n.Valid() && StillHeld(old(n.ic.table[..]), n.ic.table[..]) && Follows(old(n.ic.Buffers()), n.ic.Buffers())
    ensures match err
            case OK =>
              && IsDir(n.Graph(), d) && Clip(name) in n.Graph()[d].dir && x == n.Graph()[d].dir[Clip(name)]
              && x in n.Graph() && n.Graph()[x].nlink > 0 && x in old(n.ic.refs)
              && i < MAXINODES && Holds(n.ic.table[..], i, x) && n.ic.refs == More(old(n.ic.refs), x)
              && d in n.ic.dirs.slots && k < |n.ic.dirs.slots[d]| && Live(n.ic.dirs.slots[d], k, Clip(name))
            case ENOTDIR => !IsDir(n.Graph(), d)
            case ENOENT => IsDir(n.Graph(), d) && Clip(name) !in n.Graph()[d].dir
            case ENOMEM => NoRoom(old(n.ic.refs), 0, n.ic.misses > old(n.ic.misses))
            case _ => false
    ensures err != OK ==> n.ic.refs == old(n.ic.refs)
  {
    hide Follows, Orderly, Icore.Valid, TreeOf, Live, More, Clip, Sound, Crowded, SameDirt, StillHeld;
    n.Inside(c);
    i, k, x := 0, 0, 0;
    GraphAt(n.ic.nodes, n.ic.dirs.binds, d);
    FollowsSame(n.ic.Buffers());
    ghost var was := n.ic.table[..];
    HeldSelf(was);
    if !n.ic.table[c].d.isDir { return ENOTDIR, i, k, x; }
    NamedMore(n.ic.nodes, n.ic.dirs.binds, n.ic.refs, n.root, d, Clip(name));
    if Clip(name) in n.Graph()[d].dir { NamedExists(n.Graph(), n.root, d, Clip(name)); }
    err, i, k := n.ic.GetNamed(n.ic.table[c].ino, name);
    StillAt(was, n.ic.table[..], n.rootSlot, n.rootDir);
    if err == OK { x := n.ic.dirs.binds[d][Clip(name)]; }
  }

  /** The old entry stays as it is while another one is changed. */
  lemma LiveBeside(es: seq<Dirent>, k: nat, n: string, j: nat, m: string, e: Dirent)
    requires k < |es| && j < |es| && Live(es, k, n) && Live(es, j, m) && n != m
    ensures Live(es[j := e], k, n)
  {
  }

  /** What is held stays held while neither references nor inodes come or go. */
  lemma HoldingStill(n: Names, cs: seq<nat>, inos: seq<nat>, was: seq<Slot>, g: Tree, held: seq<Slot>, refs: map<nat, nat>)
    requires n.Ready() && ListHeld(was, cs, inos) && Known(inos, refs) && Known(inos, g) && n.Graph().Keys == g.Keys
    requires n.ic.refs == AllMore(refs, inos) && StillHeld(was, n.ic.table[..]) && StillHeld(held, was)
    requires HeldCounted(held, refs) && n.RootHeld(held)
    ensures HoldingAll(n, cs, inos, held, refs)
  {
    hide Icore.Valid, TreeOf, More, AllMore, StillHeld, HeldCounted, ListHeld, Known;
    ListStill(was, n.ic.table[..], cs, inos);
    HeldThrough(held, was, n.ic.table[..]);
    KnownStill(inos, g, n.Graph());
  }

  /** The entry under the new name gets x, with what is known of it. */
  method Exchange(n: Names, cs: seq<nat>, k: nat, k2: nat, name: string, ghost d1: nat, ghost n1: string, ghost d2: nat,
                  ghost x: nat, ghost y: nat, ghost held: seq<Slot>, ghost refs: map<nat, nat>)
    requires n.Valid() && |cs| == 4 && HoldingAll(n, cs, [d1, d2, x, y], held, refs) && x != y
    requires Under(n.Graph(), d1, n1, x) && IsDir(n.Graph(), d2) && name in n.Graph()[d2].dir && Text(name) && |name| <= NAME_MAX
    requires y == n.Graph()[d2].dir[name] && y in n.Graph() && n.Graph()[y].nlink > 0 && !IsDir(n.Graph(), y) && name != ".."
    requires d1 in n.ic.dirs.slots && k < |n.ic.dirs.slots[d1]| && Live(n.ic.dirs.slots[d1], k, n1)
    requires d2 in n.ic.dirs.slots && k2 < |n.ic.dirs.slots[d2]| && Live(n.ic.dirs.slots[d2], k2, name)
    modifies n.ic`nodes, n.ic.table, n.ic.dirs
    ensures d2 in old(n.Graph()) && name in old(n.Graph())[d2].dir && old(n.Graph())[d2].dir[name] == y
    ensures y in old(n.Graph()) && old(n.Graph())[y].nlink > 0
    ensures n.Graph() == NewName(old(n.Graph()), d2, name, x, Taken) && HoldingAll(n, cs, [d1, d2, x, y], held, refs)
    ensures d1 in n.ic.dirs.slots && k < |n.ic.dirs.slots[d1]| && Live(n.ic.dirs.slots[d1], k, n1)
    ensures UpFirst(old(n.ic.dirs.slots), x) ==> UpFirst(n.ic.dirs.slots, x)
  {
    hide Orderly, Icore.Valid, TreeOf, AllMore, More, StillHeld, HeldCounted, ListHeld, Known, Live, Sound, Strncpy, Enter,
         Unlink, UpFirst;
    ghost var inos, was, g, slots := [d1, d2, x, y], n.ic.table[..], n.Graph(), n.ic.dirs.slots;
    ListAt(was, cs, inos, 1);
    ListAt(was, cs, inos, 2);
    ListAt(was, cs, inos, 3);
    TakeOver(n, cs[1], cs[3], cs[2], k2, name, d2, y, x);
    if d1 == d2 {
      LiveBeside(slots[d1], k, n1, k2, name, Dirent(x, Strncpy(name)));
    }
    if UpFirst(slots, x) { TakenUp(slots, d2, k2, name, Dirent(x, Strncpy(name)), x); }
    HoldingStill(n, cs, inos, was, g, held, refs);
  }

  /** The entry under the new name gets x, unless that is x already or a directory. */
  method Overtake(n: Names, cs: seq<nat>, k: nat, k2: nat, name: string, ghost d1: nat, ghost n1: string, ghost d2: nat,
                  ghost x: nat, ghost y: nat, ghost held: seq<Slot>, ghost refs: map<nat, nat>)
    returns (go: bool, err: Err)
    requires n.Valid() && |cs| == 4 && HoldingAll(n, cs, [d1, d2, x, y], held, refs)
    requires Lasting(n.Graph(), refs, [d1, d2, x, y])
    requires Under(n.Graph(), d1, n1, x) && IsDir(n.Graph(), d2) && name in n.Graph()[d2].dir && Text(name) && |name| <= NAME_MAX
    requires y == n.Graph()[d2].dir[name] && y in n.Graph() && n.Graph()[y].nlink > 0 && name != ".."
    requires d1 in n.ic.dirs.slots && k < |n.ic.dirs.slots[d1]| && Live(n.ic.dirs.slots[d1], k, n1)
    requires d2 in n.ic.dirs.slots && k2 < |n.ic.dirs.slots[d2]| && Live(n.ic.dirs.slots[d2], k2, name)
    modifies n.ic, n.ic.table, n.ic.dirs
    ensures n.Ready() && StillHeld(held, n.ic.table[..]) && Follows(old(n.ic.Buffers()), n.ic.Buffers())
    ensures !go ==>
              && ((err == OK && y == x) || (err == EISDIR && IsDir(old(n.Graph()), y)))
              && (!n.ic.lost ==> n.Valid() && n.Graph() == old(n.Graph()) && n.ic.refs == refs)
    ensures go ==>
              && !IsDir(old(n.Graph()), y) && y != x && !n.ic.lost && err == OK
              && n.Graph() == NewName(old(n.Graph()), d2, name, x, Taken) && HoldingAll(n, cs, [d1, d2, x, y], held, refs)
              && (UpFirst(old(n.ic.dirs.slots), x) ==> UpFirst(n.ic.dirs.slots, x))
              && d1 in n.ic.dirs.slots && k < |n.ic.dirs.slots[d1]| && Live(n.ic.dirs.slots[d1], k, n1)
  {
    hide Follows, Orderly, Icore.Valid, TreeOf, AllMore, More, StillHeld, HeldCounted, ListHeld, Known, Lasting, Live,
         Sound, NewName, UpFirst;
    ghost var inos := [d1, d2, x, y];
    ListAt(n.ic.table[..], cs, inos, 2);
    ListAt(n.ic.table[..], cs, inos, 3);
    n.Inside(cs[3]);
    GraphAt(n.ic.nodes, n.ic.dirs.binds, y);
    FollowsSame(n.ic.Buffers());
    if n.ic.table[cs[3]].ino == n.ic.table[cs[2]].ino || n.ic.table[cs[3]].d.isDir {
      err := if n.ic.table[cs[3]].ino == n.ic.table[cs[2]].ino then OK else EISDIR;
      PutSame(n, cs, inos, held, refs);
      return false, err;
    }
    Exchange(n, cs, k, k2, name, d1, n1, d2, x, y, held, refs);
    go, err := true, OK;
  }

  /** The new name is taken: it gets x, or rename stops. */
  method TakeName(n: Names, cs: seq<nat>, k: nat, name: string, ghost d1: nat, ghost n1: string, ghost d2: nat,
                  ghost x: nat, ghost held: seq<Slot>, ghost refs: map<nat, nat>)
    returns (go: bool, err: Err, now: seq<nat>, ghost y: nat)
    requires n.Valid() && |cs| == 3 && HoldingAll(n, cs, [d1, d2, x], held, refs) && Lasting(n.Graph(), refs, [d1, d2, x])
    requires Under(n.Graph(), d1, n1, x) && IsDir(n.Graph(), d2) && name in n.Graph()[d2].dir && Text(name) && |name| <= NAME_MAX
    requires d1 in n.ic.dirs.slots && k < |n.ic.dirs.slots[d1]| && Live(n.ic.dirs.slots[d1], k, n1) && name != ".."
    modifies n.ic, n.ic.table, n.ic.dirs
    ensures n.Ready() && StillHeld(held, n.ic.table[..]) && Follows(old(n.ic.Buffers()), n.ic.Buffers())
    ensures !go ==>
              && Stopped(err, old(n.Graph()), refs, n.ic.misses > old(n.ic.misses), d2, name, x)
              && (!n.ic.lost ==> n.Valid() && n.Graph() == old(n.Graph()) && n.ic.refs == refs)
    ensures go ==>
              && d2 in old(n.Graph()) && name in old(n.Graph())[d2].dir && y == old(n.Graph())[d2].dir[name]
              && y in old(n.Graph()) && old(n.Graph())[y].nlink > 0 && !IsDir(old(n.Graph()), y) && y != x
              && n.Graph() == NewName(old(n.Graph()), d2, name, x, Taken) && !n.ic.lost && err == OK
              && |now| == 4 && HoldingAll(n, now, [d1, d2, x, y], held, refs)
              && (UpFirst(old(n.ic.dirs.slots), x) ==> UpFirst(n.ic.dirs.slots, x))
              && d1 in n.ic.dirs.slots && k < |n.ic.dirs.slots[d1]| && Live(n.ic.dirs.slots[d1], k, n1)
  {
    hide Follows, Orderly, Icore.Valid, TreeOf, AllMore, More, StillHeld, HeldCounted, ListHeld, Known, Lasting, NoRoom,
         Live, NewName, Crowded, Sound, UpFirst;
    ghost var inos, was, g := [d1, d2, x], n.ic.table[..], n.Graph();
    ListAt(was, cs, inos, 1);
    ListAt(was, cs, inos, 2);
    var j, k2;
    err, j, k2, y := Look(n, cs[1], name, d2);
    ghost var b, missed := n.ic.Buffers(), n.ic.misses > old(n.ic.misses);
    if err != OK {
      NoRoomAll(refs, inos, 0, missed);
      HoldingStill(n, cs, inos, was, g, held, refs);
      PutSame(n, cs, inos, held, refs);
      go, now := false, cs;
      FollowsBoth(old(n.ic.Buffers()), b, n.ic.Buffers());
      NoRoomStill(refs, 3, missed, n.ic.misses > old(n.ic.misses));
      return;
    }
    now := cs + [j];
    HoldOneMore(n, cs, inos, j, y, was, held, refs);
    LastingMore(g, refs, inos, y);
    assert inos + [y] == [d1, d2, x, y];
    go, err := Overtake(n, now, k, k2, name, d1, n1, d2, x, y, held, refs);
    FollowsBoth(old(n.ic.Buffers()), b, n.ic.Buffers());
  }

  lemma UnderApart(t: Tree, root: nat, d: nat, n: string, x: nat)
    requires Sound(t, root) && Under(t, d, n, x)
    ensures d in t && x in t && d != x && IsDir(t, d) && n in t[d].dir && t[d].dir[n] == x && t[x].nlink > 0
  {
    hide Counted, HasParent, Dots;
    UnderExists(t, d, n, x);
    NamedExists(t, root, d, n);
    if IsDir(t, x) { NotUnderItself(t, d, n, x); }
  }

  /** The inodes that rename holds in the end. */
  ghost function Involved(t: Tree, d1: nat, d2: nat, n2: string, x: nat, o: Outcome): seq<nat>
    requires o == Taken ==> d2 in t && n2 in t[d2].dir
  {
    [d1, d2, x] + if o == Taken then [t[d2].dir[n2]] else []
  }

  /** What holds once the old name is gone: the graph is that of rename, and in order if it is to be. */
  ghost predicate Renamed(n: Names, t: Tree, d1: nat, n1: string, d2: nat, n2: string, x: nat, o: Outcome, up: bool,
                          refs: map<nat, nat>)
    reads n, n.ic, n.ic.table, n.ic.dirs
  {
    && d1 in t && x in t && (o != Failed ==> d2 in t)
    && (o == Taken ==> n2 in t[d2].dir && t[d2].dir[n2] in t && t[t[d2].dir[n2]].nlink > 0)
    && var t', inos := RenameUp(t, d1, n1, d2, n2, x, o, up), Involved(t, d1, d2, n2, x, o);
       && Known(inos, refs) && Known(inos, t')
       && (!n.ic.lost ==> (n.Graph(), n.ic.refs) == SettledAll(t', refs, inos))
       && (!n.ic.lost && o != Failed && (IsDir(t, x) ==> d1 == d2) ==> n.Valid())
  }

  /** The new name is there, or could not be made, and the old one is there still. */
  ghost predicate Given(n: Names, cs: seq<nat>, k: nat, t: Tree, d1: nat, n1: string, d2: nat, n2: string, x: nat,
                        o: Outcome, held: seq<Slot>, refs: map<nat, nat>)
    reads n, n.ic, n.ic.table, n.ic.dirs
  {
    && (o != Failed ==> d2 in t)
    && (o == Taken ==> n2 in t[d2].dir && t[d2].dir[n2] in t && t[t[d2].dir[n2]].nlink > 0)
    && var inos := Involved(t, d1, d2, n2, x, o);
       && |cs| >= 3 && HoldingAll(n, cs, inos, held, refs) && Orderly(t, AllMore(refs, inos), n.root)
       && n.Graph() == NewName(t, d2, n2, x, o) && !n.ic.lost
       && d1 in n.ic.dirs.slots && k < |n.ic.dirs.slots[d1]| && Live(n.ic.dirs.slots[d1], k, n1)
  }

  /** The end of do_rename once the new name is there, or could not be made. */
  method Clear(n: Names, cs: seq<nat>, k: nat, ghost t: Tree, ghost d1: nat, ghost n1: string, ghost d2: nat,
               ghost n2: string, ghost x: nat, ghost o: Outcome, ghost held: seq<Slot>, ghost refs: map<nat, nat>)
    returns (err: Err, up: bool)
    requires Sound(t, n.root) && Under(t, d1, n1, x) && Regular(n2)
    requires o != Failed ==> IsDir(t, d2) && (o == Taken <==> n2 in t[d2].dir) && n2 != ""
    requires o == Taken ==> var y := t[d2].dir[n2]; y in t && t[y].nlink > 0 && !IsDir(t, y) && y != x
    requires Given(n, cs, k, t, d1, n1, d2, n2, x, o, held, refs)
    modifies n.ic, n.ic.table, n.ic.dirs
    ensures n.Ready() && StillHeld(held, n.ic.table[..]) && Follows(old(n.ic.Buffers()), n.ic.Buffers())
    ensures d1 in t && x in t && err in {OK, EINVAL, ENOMEM}
    ensures (IsDir(t, x) ==> (up <==> err == OK)) && (!IsDir(t, x) ==> err == OK)
    ensures (err == ENOMEM ==> n.ic.misses > old(n.ic.misses)) && (err == EINVAL ==> !UpFirst(old(n.ic.dirs.slots), x))
    ensures Renamed(n, t, d1, n1, d2, n2, x, o, up, refs)
  {
    hide Follows, Orderly, Icore.Valid, TreeOf, AllMore, More, StillHeld, HeldCounted, ListHeld, Known, Sound, Live,
         NewName, RenameUp, SettledAll, UpFirst;
    ghost var inos := Involved(t, d1, d2, n2, x, o);
    UnderApart(t, n.root, d1, n1, x);
    err, up := Conclude(n, cs, k, t, d1, n1, d2, n2, x, o, inos, held, refs);
    if o != Failed && (IsDir(t, x) ==> d1 == d2) {
      if o == Taken { InvolvedHeld(t, refs, d1, d2, n2, x); }
      RenameOrderly(t, AllMore(refs, inos), n.root, d1, n1, d2, n2, x, o, up);
    }
  }

  lemma InvolvedHeld(t: Tree, refs: map<nat, nat>, d1: nat, d2: nat, n2: string, x: nat)
    requires d2 in t && n2 in t[d2].dir && Known(Involved(t, d1, d2, n2, x, Taken), refs)
    ensures var y := t[d2].dir[n2]; y in refs && AllMore(refs, Involved(t, d1, d2, n2, x, Taken))[y] > 0
  {
    var y, inos := t[d2].dir[n2], Involved(t, d1, d2, n2, x, Taken);
    assert inos[3] == y;
    AllMoreAt(refs, inos, y);
  }

  /** The call of dir_creat in do_rename, and what follows when the name is taken. */
  method GiveName(n: Names, cs: seq<nat>, k: nat, name: string, room: bool, ghost d1: nat, ghost n1: string,
                  ghost d2: nat, ghost x: nat, ghost held: seq<Slot>, ghost refs: map<nat, nat>)
    returns (go: bool, err: Err, now: seq<nat>, ghost o: Outcome)
    requires n.Valid() && |cs| == 3 && HoldingAll(n, cs, [d1, d2, x], held, refs) && Lasting(n.Graph(), refs, [d1, d2, x])
    requires Under(n.Graph(), d1, n1, x) && Regular(name) && Text(name)
    requires d1 in n.ic.dirs.slots && k < |n.ic.dirs.slots[d1]| && Live(n.ic.dirs.slots[d1], k, n1)
    modifies n.ic, n.ic.table, n.ic.dirs
    ensures n.Ready() && StillHeld(held, n.ic.table[..]) && Follows(old(n.ic.Buffers()), n.ic.Buffers())
    ensures !go ==>
              && Stopped(err, old(n.Graph()), refs, n.ic.misses > old(n.ic.misses), d2, name, x)
              && (!n.ic.lost ==> n.Valid() && n.Graph() == old(n.Graph()) && n.ic.refs == refs)
    ensures go ==>
              && Outcomes(o, err, old(n.Graph()), d2, name, x, n.namlen, room, n.ic.misses > old(n.ic.misses))
              && (o != Failed ==> err == OK)
              && Given(n, now, k, old(n.Graph()), d1, n1, d2, name, x, o, held, refs)
              && (err == ENOSPC ==> Packed(old(n.ic.dirs.slots), d2))
              && (UpFirst(old(n.ic.dirs.slots), x) ==> UpFirst(n.ic.dirs.slots, x))
  {
    hide Follows, Orderly, Icore.Valid, TreeOf, AllMore, More, StillHeld, HeldCounted, ListHeld, Known, Lasting, Sound,
         Live, NewName, Stopped, LivesOn, NameError, Enter, Links.Reparent, UpFirst, Packed;
    ghost var inos, was, t, slots := [d1, d2, x], n.ic.table[..], n.Graph(), n.ic.dirs.slots;
    ListAt(was, cs, inos, 1);
    ListAt(was, cs, inos, 2);
    err := EnterNew(n, cs[1], cs[2], name, room, d2, x);
    StillLive(slots, n.ic.dirs.slots, d1, k, n1);
    if UpFirst(slots, x) { LivesUp(slots, n.ic.dirs.slots, x); }
    HoldingStill(n, cs, inos, was, t, held, refs);
    NewNameIs(t, d1, d2, name, x);
    ghost var b, m := n.ic.Buffers(), n.ic.misses;
    if err == EEXIST {
      ghost var y;
      go, err, now, y := TakeName(n, cs, k, name, d1, n1, d2, x, held, refs);
      FollowsBoth(old(n.ic.Buffers()), b, n.ic.Buffers());
      o := Taken;
      if go {
        KnownAt([d1, d2, x, y], refs, 3);
        InvolvedMore(t, refs, n.root, d1, d2, name, x);
      } else {
        StoppedStill(err, t, refs, n.ic.misses > m, n.ic.misses > old(n.ic.misses), d2, name, x);
      }
    } else {
      go, now := true, cs;
      o := if err == OK then Made else Failed;
    }
  }

  /** do_rename from its call of dir_creat on; moved says whether the old name goes. */
  method RenameAt(n: Names, cs: seq<nat>, k: nat, name: string, room: bool, ghost d1: nat, ghost n1: string,
                  ghost d2: nat, ghost x: nat, ghost held: seq<Slot>, ghost refs: map<nat, nat>)
    returns (err: Err, moved: bool, fine: bool, up: bool, ghost o: Outcome, ghost e: Err)
    requires n.Valid() && |cs| == 3 && HoldingAll(n, cs, [d1, d2, x], held, refs) && Lasting(n.Graph(), refs, [d1, d2, x])
    requires Under(n.Graph(), d1, n1, x) && Regular(name) && Text(name)
    requires d1 in n.ic.dirs.slots && k < |n.ic.dirs.slots[d1]| && Live(n.ic.dirs.slots[d1], k, n1)
    modifies n.ic, n.ic.table, n.ic.dirs
    ensures n.Ready() && StillHeld(held, n.ic.table[..]) && Follows(old(n.ic.Buffers()), n.ic.Buffers())
    ensures !moved ==>
              && Stopped(err, old(n.Graph()), refs, n.ic.misses > old(n.ic.misses), d2, name, x)
              && (!n.ic.lost ==> n.Valid() && n.Graph() == old(n.Graph()) && n.ic.refs == refs)
    ensures moved ==>
              && Outcomes(o, e, old(n.Graph()), d2, name, x, n.namlen, room, n.ic.misses > old(n.ic.misses))
              && Renamed(n, old(n.Graph()), d1, n1, d2, name, x, o, up, refs)
              && (e == ENOSPC ==> Packed(old(n.ic.dirs.slots), d2))
              && (fine <==> o != Failed && (IsDir(old(n.Graph()), x) ==> d1 == d2))
              && (if IsDir(old(n.Graph()), x) then
                    && err in {OK, EINVAL, ENOMEM} && (up <==> err == OK) && (err == ENOMEM ==> n.ic.misses > old(n.ic.misses))
                    && (err == EINVAL ==> !UpFirst(old(n.ic.dirs.slots), x))
                  else err == if o == Failed then e else OK)
  {
    hide Follows, Orderly, Icore.Valid, TreeOf, AllMore, More, StillHeld, HeldCounted, ListHeld, Known, Lasting, Sound,
         Live, NewName, RenameUp, Stopped, Renamed, NameError, Involved, Given, UpFirst, Packed;
    ghost var t := n.Graph();
    OrderlySound(t, n.ic.refs, n.root);
    UnderApart(t, n.root, d1, n1, x);
    ListAt(n.ic.table[..], cs, [d1, d2, x], 0);
    ListAt(n.ic.table[..], cs, [d1, d2, x], 1);
    ListAt(n.ic.table[..], cs, [d1, d2, x], 2);
    n.Inside(cs[2]);
    GraphAt(n.ic.nodes, n.ic.dirs.binds, x);
    var isDir, same := n.ic.table[cs[2]].d.isDir, n.ic.table[cs[0]].ino == n.ic.table[cs[1]].ino;
    var now;
    moved, err, now, o := GiveName(n, cs, k, name, room, d1, n1, d2, x, held, refs);
    e, up, fine := err, false, err == OK && (isDir ==> same);
    if moved {
      ghost var b, missed := n.ic.Buffers(), n.ic.misses > old(n.ic.misses);
      NamedOutcome(o, e, t, d2, name, x, n.namlen, room, missed);
      var answer;
      answer, up := Clear(n, now, k, t, d1, n1, d2, name, x, o, held, refs);
      FollowsBoth(old(n.ic.Buffers()), b, n.ic.Buffers());
      NameErrorMore(e, t, d2, name, n.namlen, room, missed, n.ic.misses > old(n.ic.misses));
      if isDir { err := answer; }
    }
  }

  lemma NamedOutcome(o: Outcome, e: Err, t: Tree, d2: nat, n2: string, x: nat, namlen: nat, room: bool, missed: bool)
    requires Outcomes(o, e, t, d2, n2, x, namlen, room, missed)
    ensures o != Failed ==> IsDir(t, d2) && (o == Taken <==> n2 in t[d2].dir) && n2 != ""
  {
  }

  /** The graph as it is when dir_creat has answered and the name was not taken. */
  lemma NewNameIs(t: Tree, d1: nat, d2: nat, n2: string, x: nat)
    ensures NewName(t, d2, n2, x, Failed) == t && (d2 in t ==> NewName(t, d2, n2, x, Made) == Enter(t, d2, n2, x))
    ensures Involved(t, d1, d2, n2, x, Failed) == Involved(t, d1, d2, n2, x, Made) == [d1, d2, x]
  {
  }

  lemma InvolvedMore(t: Tree, refs: map<nat, nat>, root: nat, d1: nat, d2: nat, n2: string, x: nat)
    requires Known([d1, d2, x], refs) && Orderly(t, AllMore(refs, [d1, d2, x]), root) && IsDir(t, d2) && n2 in t[d2].dir
    requires t[d2].dir[n2] in t && t[d2].dir[n2] in refs
    ensures var inos := Involved(t, d1, d2, n2, x, Taken);
            inos == [d1, d2, x, t[d2].dir[n2]] && Known(inos, refs) && Orderly(t, AllMore(refs, inos), root)
  {
    hide Orderly, More;
    AllMoreEnd(refs, [d1, d2, x], t[d2].dir[n2]);
    MoreKept(t, AllMore(refs, [d1, d2, x]), root, t[d2].dir[n2]);
    assert [d1, d2, x] + [t[d2].dir[n2]] == [d1, d2, x, t[d2].dir[n2]];
  }

  lemma StoppedStill(err: Err, t: Tree, refs: map<nat, nat>, missed: bool, missed': bool, d2: nat, n2: string, x: nat)
    requires missed ==> missed'
    ensures Stopped(err, t, refs, missed, d2, n2, x) ==> Stopped(err, t, refs, missed', d2, n2, x)
  {
  }

  /** Why rename stops once it has both directories, with everything as before. */
  ghost predicate Unmoved(err: Err, t: Tree, refs: map<nat, nat>, missed: bool, d1: nat, n1: string, d2: nat, n2: string) {
    || (err == ENOTDIR && !IsDir(t, d1))
    || (err == ENOENT && IsDir(t, d1) && Clip(n1) !in t[d1].dir)
    || (err == ENOMEM && NoRoom(refs, 2, missed))
    || (IsDir(t, d1) && Clip(n1) in t[d1].dir && Stopped(err, t, refs, missed, d2, n2, t[d1].dir[Clip(n1)]))
  }

  lemma UnmovedStill(err: Err, t: Tree, refs: map<nat, nat>, missed: bool, missed': bool, d1: nat, n1: string, d2: nat,
                     n2: string)
    requires missed ==> missed'
    ensures Unmoved(err, t, refs, missed, d1, n1, d2, n2) ==> Unmoved(err, t, refs, missed', d1, n1, d2, n2)
  {
  }

  /** What rename has done when it has moved a name. */
  ghost predicate Moved(n: Names, err: Err, fine: bool, t: Tree, d1: nat, n1: string, d2: nat, n2: string, x: nat,
                        o: Outcome, e: Err, up: bool, room: bool, missed: bool, refs: map<nat, nat>)
    reads n, n.ic, n.ic.table, n.ic.dirs
  {
    && Under(t, d1, Clip(n1), x) && Regular(n2) && Outcomes(o, e, t, d2, n2, x, n.namlen, room, missed)
    && Renamed(n, t, d1, Clip(n1), d2, n2, x, o, up, refs)
    && (fine <==> o != Failed && (IsDir(t, x) ==> d1 == d2))
    && if IsDir(t, x) then err in {OK, EINVAL, ENOMEM} && (up <==> err == OK) && (err == ENOMEM ==> missed) else err == if o == Failed then e else OK
  }

  lemma OutcomesStill(o: Outcome, e: Err, t: Tree, d2: nat, n2: string, x: nat, namlen: nat, room: bool, missed: bool,
                      missed': bool)
    requires missed ==> missed'
    ensures Outcomes(o, e, t, d2, n2, x, namlen, room, missed) ==> Outcomes(o, e, t, d2, n2, x, namlen, room, missed')
  {
  }

  lemma ClipRegular(n: string)
    requires Regular(n)
    ensures Regular(Clip(n))
  {
  }

  /** do_rename once it has both directories. */
  method RenameIn(n: Names, cs: seq<nat>, name1: string, name2: string, room: bool, ghost d1: nat, ghost d2: nat,
                  ghost held: seq<Slot>, ghost refs: map<nat, nat>)
    returns (err: Err, moved: bool, fine: bool, up: bool, ghost x: nat, ghost o: Outcome, ghost e: Err)
    requires n.Valid() && |cs| == 2 && HoldingAll(n, cs, [d1, d2], held, refs) && Lasting(n.Graph(), refs, [d1, d2])
    requires Regular(name1) && Regular(name2) && Text(name1) && Text(name2)
    modifies n.ic, n.ic.table, n.ic.dirs
    ensures n.Ready() && StillHeld(held, n.ic.table[..]) && Follows(old(n.ic.Buffers()), n.ic.Buffers())
    ensures !moved ==>
              && Unmoved(err, old(n.Graph()), refs, n.ic.misses > old(n.ic.misses), d1, name1, d2, name2)
              && (!n.ic.lost ==> n.Valid() && n.Graph() == old(n.Graph()) && n.ic.refs == refs)
    ensures moved ==>
              Moved(n, err, fine, old(n.Graph()), d1, name1, d2, name2, x, o, e, up, room, n.ic.misses > old(n.ic.misses), refs)
    ensures moved && e == ENOSPC ==> Packed(old(n.ic.dirs.slots), d2)
    ensures moved && IsDir(old(n.Graph()), x) ==>
              x in old(n.ic.dirs.slots) && (err == EINVAL ==> !UpFirst(old(n.ic.dirs.slots), x))
  {
    hide Follows, Orderly, Icore.Valid, TreeOf, AllMore, More, StillHeld, HeldCounted, ListHeld, Known, Lasting, Sound,
         Live, Stopped, Renamed, Clip, Crowded, Outcomes, SameDirt, UpFirst, Packed;
    ghost var inos, was, t := [d1, d2], n.ic.table[..], n.Graph();
    ListAt(was, cs, inos, 0);
    moved, fine, up, o, e := false, false, false, Failed, OK;
    var i, k;
    err, i, k, x := Look(n, cs[0], name1, d1);
    ghost var b, missed := n.ic.Buffers(), n.ic.misses > old(n.ic.misses);
    if err == OK {
      ClipRegular(name1);
      HoldOneMore(n, cs, inos, i, x, was, held, refs);
      LastingMore(t, refs, inos, x);
      assert inos + [x] == [d1, d2, x];
      DirHasSlots(n, x);
      err, moved, fine, up, o, e := RenameAt(n, cs + [i], k, name2, room, d1, Clip(name1), d2, x, held, refs);
    } else {
      if err == ENOMEM { NoRoomAll(refs, inos, 0, missed); }
      HoldingStill(n, cs, inos, was, t, held, refs);
      PutSame(n, cs, inos, held, refs);
    }
    FollowsBoth(old(n.ic.Buffers()), b, n.ic.Buffers());
    SettleErrors(err, t, refs, n.ic.misses > b.misses, n.ic.misses > old(n.ic.misses), d2, name2, x, o, e, n.namlen, room);
  }

  lemma DirHasSlots(n: Names, x: nat)
    requires n.Ready() && x in n.Graph()
    ensures x in n.ic.dirs.slots
  {
    hide Dirs.Valid;
    n.InUse();
    BindsKeys(n.ic.dirs);
  }

  lemma SettleErrors(err: Err, t: Tree, refs: map<nat, nat>, missed: bool, missed': bool, d2: nat, n2: string, x: nat,
                     o: Outcome, e: Err, namlen: nat, room: bool)
    requires missed ==> missed'
    ensures Stopped(err, t, refs, missed, d2, n2, x) ==> Stopped(err, t, refs, missed', d2, n2, x)
    ensures Outcomes(o, e, t, d2, n2, x, namlen, room, missed) ==> Outcomes(o, e, t, d2, n2, x, namlen, room, missed')
  {
  }

  /** Both directories are held. */
  lemma TwoHeld(n: Names, c1: nat, c2: nat, d1: nat, d2: nat, was: seq<Slot>, held: seq<Slot>, refs: map<nat, nat>)
    requires d1 in refs && n.Holding(c2, d2, was, More(refs, d1)) && c1 < |was| && Holds(was, c1, d1) && d1 in n.Graph()
    requires StillHeld(held, was) && HeldCounted(held, refs) && n.RootHeld(held) && (n.Graph()[d1].nlink > 0 || refs[d1] > 0)
    ensures HoldingAll(n, [c1, c2], [d1, d2], held, refs) && Lasting(n.Graph(), refs, [d1, d2])
  {
    hide Icore.Valid, Orderly, TreeOf, StillHeld, HeldCounted;
    var inos := [d1, d2];
    assert Known(inos, refs) && inos[1..] == [d2] && AllMore(refs, [d2]) == More(refs, d2);
    MoreCommutes(refs, d1, d2);
    StillAt(was, n.ic.table[..], c1, d1);
    HeldThrough(held, was, n.ic.table[..]);
  }

  /** do_rename once it has the first directory. */
  method RenameFrom(n: Names, c1: nat, name1: string, start: nat, path: seq<string>, name2: string, room: bool,
                    ghost d1: nat, ghost held: seq<Slot>, ghost refs: map<nat, nat>)
    returns (err: Err, moved: bool, fine: bool, up: bool, ghost d2: nat, ghost x: nat, ghost o: Outcome, ghost e: Err)
    requires n.Holding(c1, d1, held, refs) && Regular(name1) && Regular(name2) && Text(name1) && Text(name2)
    requires start < MAXINODES && n.ic.table[start].refcnt > 0 && AllText(path)
    modifies n.ic, n.ic.table, n.ic.dirs
    ensures n.Ready() && StillHeld(held, n.ic.table[..]) && Follows(old(n.ic.Buffers()), n.ic.Buffers())
    ensures var t, s, missed := old(n.Graph()), old(n.ic.table[start]).ino, n.ic.misses > old(n.ic.misses);
            && (!moved ==>
                  || PathError(err, t, refs, 2, missed, n.rootDir, s, path)
                  || (Walk(t, n.rootDir, s, path) == d2 && Unmoved(err, t, refs, missed, d1, name1, d2, name2)))
            && (!moved && !n.ic.lost ==>
                  && n.Valid() && n.Graph() == t
                  && (n.ic.refs == refs || (err == ENAMETOOLONG && Leaked(t, n.rootDir, s, path, refs, n.ic.refs))))
            && (moved ==>
                  && Walk(t, n.rootDir, s, path) == d2
                  && Moved(n, err, fine, t, d1, name1, d2, name2, x, o, e, up, room, missed, refs)
                  && (IsDir(t, x) && err == EINVAL ==> !UpFirst(old(n.ic.dirs.slots), x)))
    ensures moved && e == ENOSPC ==> Packed(old(n.ic.dirs.slots), d2)
    ensures moved && IsDir(old(n.Graph()), x) ==> x in old(n.ic.dirs.slots)
  {
    hide Follows, Orderly, Icore.Valid, TreeOf, Sound, Walk, HeldCounted, Leaked, Crowded, Clean, PathError, Unmoved, Moved,
         StillHeld, More, AllMore, UpFirst, Fewer, Packed;
    ghost var t, s, was := n.Graph(), n.ic.table[start].ino, n.ic.table[..];
    moved, fine, up, x, o, e := false, false, false, 0, Failed, OK;
    var c2;
    err, c2, d2 := n.Traverse(start, path);
    ghost var missed, b := n.ic.misses > old(n.ic.misses), n.ic.Buffers();
    StillAt(was, n.ic.table[..], c1, d1);
    HeldThrough(held, was, n.ic.table[..]);
    if err != OK {
      PathErrorLess(err, t, refs, d1, missed, n.rootDir, s, path);
      if err == ENAMETOOLONG {
        LeakedLess(t, n.rootDir, s, path, refs, d1, d2);
        n.PutFirst(c1, d1, d2, held, refs);
      } else {
        n.PutBack(c1, d1, held, refs);
      }
    } else {
      TwoHeld(n, c1, c2, d1, d2, was, held, refs);
      ghost var slots := n.ic.dirs.slots;
      err, moved, fine, up, x, o, e := RenameIn(n, [c1, c2], name1, name2, room, d1, d2, held, refs);
      if moved && e == ENOSPC { PackedBefore(old(n.ic.dirs.slots), slots, d2); }
      if moved && IsDir(t, x) { FewerUp(old(n.ic.dirs.slots), slots, x); FewerAt(old(n.ic.dirs.slots), slots, x); }
    }
    FollowsBoth(old(n.ic.Buffers()), b, n.ic.Buffers());
    PathErrorMore(err, t, refs, 2, missed, n.ic.misses > old(n.ic.misses), n.rootDir, s, path);
    UnmovedStill(err, t, refs, n.ic.misses > b.misses, n.ic.misses > old(n.ic.misses), d1, name1, d2, name2);
    MovedStill(n, err, fine, t, d1, name1, d2, name2, x, o, e, up, room, n.ic.misses > b.misses, n.ic.misses > old(n.ic.misses), refs);
  }

  lemma MovedStill(n: Names, err: Err, fine: bool, t: Tree, d1: nat, n1: string, d2: nat, n2: string, x: nat, o: Outcome, e: Err,
                   up: bool, room: bool, missed: bool, missed': bool, refs: map<nat, nat>)
    requires missed ==> missed'
    ensures Moved(n, err, fine, t, d1, n1, d2, n2, x, o, e, up, room, missed, refs) ==>
              Moved(n, err, fine, t, d1, n1, d2, n2, x, o, e, up, room, missed', refs)
  {
    hide Renamed, Outcomes;
    OutcomesStill(o, e, t, d2, n2, x, n.namlen, room, missed, missed');
  }

  lemma FilesHaveNoEntries(t: Tree, root: nat, y: nat)
    requires Sound(t, root) && y in t && !IsDir(t, y)
    ensures t[y].dir == map[]
  {
    assert forall n :: n in t[y].dir ==> Named(t, y, n) >= 0;
  }

  /** What has no links is an empty file, before and after. */
  lemma EmptyFiles(t: Tree, root: nat)
    requires Sound(t, root)
    ensures forall z :: z in t && t[z].nlink == 0 ==> t[z] == Node(false, 0, map[])
  {
    forall z | z in t && t[z].nlink == 0 ensures t[z] == Node(false, 0, map[]) {
      if IsDir(t, z) { DirLinked(t, root, z); } else { FilesHaveNoEntries(t, root, z); }
    }
  }

  lemma EmptyNewName(t: Tree, d2: nat, n2: string, x: nat, o: Outcome)
    requires forall z :: z in t && t[z].nlink == 0 ==> t[z] == Node(false, 0, map[])
    requires o != Failed ==> IsDir(t, d2)
    requires o == Taken ==>
               && n2 in t[d2].dir && t[d2].dir[n2] in t && t[t[d2].dir[n2]].nlink > 0
               && !IsDir(t, t[d2].dir[n2]) && t[t[d2].dir[n2]].dir == map[]
    ensures var v := NewName(t, d2, n2, x, o);
            forall z :: z in v ==> v[z].isDir == t[z].isDir && (v[z].nlink == 0 ==> v[z] == Node(false, 0, map[]))
  {
  }

  lemma EmptyFilesStill(t: Tree, d1: nat, n1: string, d2: nat, n2: string, x: nat, o: Outcome, up: bool)
    requires forall z :: z in t && t[z].nlink == 0 ==> t[z] == Node(false, 0, map[])
    requires IsDir(t, d1) && x in t && (o != Failed ==> IsDir(t, d2)) && !Refused(t, d2, n2, x, o)
    requires o == Taken ==>
               && n2 in t[d2].dir && t[d2].dir[n2] in t && t[t[d2].dir[n2]].nlink > 0
               && !IsDir(t, t[d2].dir[n2]) && t[t[d2].dir[n2]].dir == map[]
    ensures var t' := RenameUp(t, d1, n1, d2, n2, x, o, up);
            t'.Keys == t.Keys && forall z :: z in t' && t'[z].nlink == 0 ==> t'[z] == Node(false, 0, map[])
  {
    hide RenameUp;
    RenameInOrder(t, d1, n1, d2, n2, x, o, up);
    var v := NewName(t, d2, n2, x, o);
    EmptyNewName(t, d2, n2, x, o);
    hide NewName;
    var w := if up && t[x].isDir then Links.Reparent(v, x, d2) else v;
    EmptyReparented(v, x, d2);
    hide Links.Reparent;
    EmptyRemoved(w, d1, n1);
  }

  lemma EmptyReparented(t: Tree, x: nat, d: nat)
    requires x in t && forall z :: z in t && t[z].nlink == 0 ==> t[z] == Node(false, 0, map[])
    ensures t[x].isDir ==>
              var w := Links.Reparent(t, x, d);
              && w.Keys == t.Keys
              && forall z :: z in w ==>
                   w[z].isDir == t[z].isDir && (w[z].nlink == 0 ==> w[z] == Node(false, 0, map[]))
  {
  }

  lemma EmptyRemoved(t: Tree, d: nat, n: string)
    requires IsDir(t, d) && forall z :: z in t && t[z].nlink == 0 ==> t[z] == Node(false, 0, map[])
    ensures var w := Remove(t, d, n);
            w.Keys == t.Keys && forall z :: z in w && w[z].nlink == 0 ==> w[z] == Node(false, 0, map[])
  {
  }

  /** The graph after rename, and what follows for the one once the inodes have been let go of. */
  lemma RenamedSoundIff(n: Names, t: Tree, root: nat, d1: nat, n1: string, d2: nat, n2: string, x: nat, o: Outcome,
                        e: Err, namlen: nat, room: bool, missed: bool, up: bool, refs: map<nat, nat>)
    requires Sound(t, root) && Under(t, d1, n1, x) && Regular(n2) && Outcomes(o, e, t, d2, n2, x, namlen, room, missed)
    requires Renamed(n, t, d1, n1, d2, n2, x, o, up, refs) && !n.ic.lost
    ensures Sound(n.Graph(), root) <==> o != Failed && (IsDir(t, x) ==> d1 == d2)
    ensures Keeps(refs, n.ic.refs)
  {
    hide Sound, RenameUp, SettledAll, Orderly, Icore.Valid, TreeOf;
    UnderApart(t, root, d1, n1, x);
    EmptyFiles(t, root);
    if o == Taken { FilesHaveNoEntries(t, root, t[d2].dir[n2]); }
    EmptyFilesStill(t, d1, n1, d2, n2, x, o, up);
    RenameUpSoundIff(t, root, d1, n1, d2, n2, x, o, up);
    SettledAllSound(RenameUp(t, d1, n1, d2, n2, x, o, up), refs, Involved(t, d1, d2, n2, x, o), root);
  }

  /** rename. The old name goes also when the new one could not be made; where a directory moves, its ".."
      follows if dir_reparent succeeds, but no count does. So the graph is in order afterwards if and only
      if the new name is there, and a directory stays where it is. */
  method SysRename(n: Names, start1: nat, path1: seq<string>, name1: string, start2: nat, path2: seq<string>,
                   name2: string, room: bool)
    returns (err: Err, moved: bool, fine: bool, up: bool, ghost d1: nat, ghost d2: nat, ghost x: nat, ghost o: Outcome,
             ghost e: Err)
    requires n.Valid() && start1 < MAXINODES && start2 < MAXINODES
    requires n.ic.table[start1].refcnt > 0 && n.ic.table[start2].refcnt > 0
    requires AllText(path1) && AllText(path2) && Text(name1) && Text(name2)
    modifies n.ic, n.ic.table, n.ic.dirs
    ensures n.Ready() && StillHeld(old(n.ic.table[..]), n.ic.table[..]) && Follows(old(n.ic.Buffers()), n.ic.Buffers())
    ensures var t, r, refs := old(n.Graph()), n.rootDir, old(n.ic.refs);
            var s1, s2, missed := old(n.ic.table[start1]).ino, old(n.ic.table[start2]).ino, n.ic.misses > old(n.ic.misses);
            && (!moved ==>
                  || (err == EINVAL && (!Regular(name1) || !Regular(name2)))
                  || PathError(err, t, refs, 1, missed, r, s1, path1)
                  || (Walk(t, r, s1, path1) == d1 && d1 in t && PathError(err, t, refs, 2, missed, r, s2, path2))
                  || (Walk(t, r, s1, path1) == d1 && Walk(t, r, s2, path2) == d2
                        && Unmoved(err, t, refs, missed, d1, name1, d2, name2)))
            && (!moved && !n.ic.lost ==>
                  && n.Valid() && n.Graph() == t
                  && (|| n.ic.refs == refs
                      || (err == ENAMETOOLONG && Leaked(t, r, s1, path1, refs, n.ic.refs))
                      || (err == ENAMETOOLONG && Leaked(t, r, s2, path2, refs, n.ic.refs))))
            && (moved ==>
                  && Walk(t, r, s1, path1) == d1 && Walk(t, r, s2, path2) == d2
                  && Moved(n, err, fine, t, d1, name1, d2, name2, x, o, e, up, room, missed, refs)
                  && (IsDir(t, x) && err == EINVAL ==> !UpFirst(old(n.ic.dirs.slots), x)))
    ensures moved && e == ENOSPC ==> Packed(old(n.ic.dirs.slots), d2)
    ensures moved && !n.ic.lost ==>
              && (Sound(n.Graph(), n.root) <==> fine) && (fine <==> o != Failed && (IsDir(old(n.Graph()), x) ==> d1 == d2))
              && (fine ==> n.Valid())
    ensures !n.ic.lost ==> Keeps(old(n.ic.refs), n.ic.refs)
  {
    hide Follows, Orderly, Icore.Valid, TreeOf, Sound, Walk, HeldCounted, Leaked, Crowded, Clean, PathError, Unmoved, Moved,
         StillHeld, More, AllMore, Keeps, UpFirst, Fewer, Packed;
    moved, fine, up, d1, d2, x, o, e := false, false, false, 0, 0, 0, Failed, OK;
    FollowsSame(n.ic.Buffers());
    HeldSelf(n.ic.table[..]);
    KeepsSame(n.ic.refs);
    if name1 == "." || name1 == ".." || name2 == "." || name2 == ".." {
      return EINVAL, moved, fine, up, d1, d2, x, o, e;
    }
    ghost var t, refs, held, s1, s2 := n.Graph(), n.ic.refs, n.ic.table[..], n.ic.table[start1].ino, n.ic.table[start2].ino;
    OrderlySound(t, refs, n.root);
    assert Holds(held, start2, s2);
    var c1;
    err, c1, d1 := n.Traverse(start1, path1);
    if err == OK {
      ghost var b, m, slots := n.ic.Buffers(), n.ic.misses, n.ic.dirs.slots;
      StillAt(held, n.ic.table[..], start2, s2);
      err, moved, fine, up, d2, x, o, e := RenameFrom(n, c1, name1, start2, path2, name2, room, d1, held, refs);
      FollowsBoth(old(n.ic.Buffers()), b, n.ic.Buffers());
      if moved && e == ENOSPC { PackedBefore(old(n.ic.dirs.slots), slots, d2); }
      if moved && IsDir(t, x) { FewerUp(old(n.ic.dirs.slots), slots, x); }
      PathErrorMore(err, t, refs, 2, n.ic.misses > m, n.ic.misses > old(n.ic.misses), n.rootDir, s2, path2);
      UnmovedStill(err, t, refs, n.ic.misses > m, n.ic.misses > old(n.ic.misses), d1, name1, d2, name2);
      MovedStill(n, err, fine, t, d1, name1, d2, name2, x, o, e, up, room, n.ic.misses > m, n.ic.misses > old(n.ic.misses), refs);
      if !n.ic.lost {
        if moved {
          MovedSoundIff(n, err, fine, t, d1, name1, d2, name2, x, o, e, up, room, n.ic.misses > m, refs);
        } else {
          LeakedKeeps(t, n.rootDir, s2, path2, refs, n.ic.refs);
        }
      }
    }
  }

  lemma MovedSoundIff(n: Names, err: Err, fine: bool, t: Tree, d1: nat, n1: string, d2: nat, n2: string, x: nat, o: Outcome, e: Err,
                      up: bool, room: bool, missed: bool, refs: map<nat, nat>)
    requires Sound(t, n.root) && Moved(n, err, fine, t, d1, n1, d2, n2, x, o, e, up, room, missed, refs) && !n.ic.lost
    ensures (Sound(n.Graph(), n.root) <==> fine) && (fine <==> o != Failed && (IsDir(t, x) ==> d1 == d2))
    ensures Sound(n.Graph(), n.root) ==> n.Valid()
    ensures Keeps(refs, n.ic.refs)
  {
    hide Sound, RenameUp, SettledAll, Orderly, Icore.Valid, TreeOf, Outcomes, Keeps, Clip;
    RenamedSoundIff(n, t, n.root, d1, Clip(n1), d2, n2, x, o, e, n.namlen, room, missed, up, refs);
  }
}
