/** The process table of the kernel: who is in it, who is whose child, and which pages belong to whom. */
module ProcTable {
  import opened Errors
  import opened Pages

  const MAXPROCS := 50
  const MAXUPROC := 25
  const MAXPID := 9999
  const NULL := -1

  /** init always occupies the first slot and is its own parent; its kernel stack is not a pool page. */
  const INIT := 0

  const KSTK_PAGE := 8

  datatype Proc = Proc(pid: nat, psid: nat, ruid: nat, euid: nat, parent: int, exited: bool, status: int,
                       kstk: nat, ptab: nat, table: Table)

  function None(): Proc { Proc(0, 0, 0, 0, NULL, false, 0, 0, 0, Empty()) }

  /** The contents of the process table. */
  type Procs = s: seq<Proc> | |s| == MAXPROCS witness seq(MAXPROCS, i => None())

  /** The list of active slots has exactly the slots in use, each once; the others are blank. */
  ghost predicate Listed(procs: Procs, act: seq<nat>) {
    && Distinct(act) && (forall k :: 0 <= k < |act| ==> act[k] < MAXPROCS)
    && (forall i :: 0 <= i < MAXPROCS ==> (procs[i].pid != 0 <==> i in act))
    && (forall i :: 0 <= i < MAXPROCS && procs[i].pid == 0 ==> procs[i] == None())
  }

  ghost predicate Unique(procs: Procs) {
    forall i, j :: 0 <= i < j < MAXPROCS && procs[i].pid != 0 ==> procs[i].pid != procs[j].pid
  }

  ghost predicate Alive(procs: Procs, i: int) {
    0 <= i < MAXPROCS && procs[i].pid != 0 && !procs[i].exited
  }

  /** Every process but init has a live parent, one closer to init than itself. */
  ghost predicate Family(procs: Procs, depth: seq<nat>) {
    && |depth| == MAXPROCS && depth[INIT] == 0 && Alive(procs, INIT) && procs[INIT].pid == 1
    && (forall i :: 0 < i < MAXPROCS && procs[i].pid != 0 ==>
          Alive(procs, procs[i].parent) && depth[procs[i].parent] < depth[i])
  }

  /** The process reached from i by n parent links. */
  ghost function Ancestor(procs: Procs, i: nat, n: nat): (a: int)
    requires i < MAXPROCS
    decreases n
  {
    if n == 0 || i == INIT || !(0 <= procs[i].parent < MAXPROCS) then i else Ancestor(procs, procs[i].parent, n - 1)
  }

  /** Parent links have no cycles: following them from any process leads to init. */
  lemma {:induction false} RootedAtInit(procs: Procs, depth: seq<nat>, i: nat)
    requires Family(procs, depth) && i < MAXPROCS && procs[i].pid != 0
    ensures Ancestor(procs, i, depth[i]) == INIT
    decreases depth[i]
  {
    if i != INIT {
      var p := procs[i].parent;
      RootedAtInit(procs, depth, p);
      AncestorStays(procs, p, depth[p], depth[i] - 1);
    }
  }

  lemma {:induction false} AncestorStays(procs: Procs, i: nat, n: nat, m: nat)
    requires i < MAXPROCS && n <= m && Ancestor(procs, i, n) == INIT
    ensures Ancestor(procs, i, m) == INIT
    decreases n
  {
    if n > 0 && i != INIT && 0 <= procs[i].parent < MAXPROCS {
      AncestorStays(procs, procs[i].parent, n - 1, m - 1);
    } else {
      assert i == INIT;
    }
  }

  /** The pool pages of the process in slot i. */
  function PagesOf(i: nat, p: Proc): seq<nat> {
    if p.pid == 0 then [] else
      (if i == INIT then [] else [p.kstk]) + if p.exited then [] else [p.ptab] + Mapped(p.table, PTES)
  }

  const FREE := -1

  /** Every page of the pool has one owner, the free list or one process, and is held there once. */
  ghost predicate OwnedOnce(procs: Procs, free: seq<nat>, pool: set<nat>, owner: map<nat, int>) {
    && owner.Keys == pool && (forall pg :: pg in free ==> pg in pool)
    && (forall pg :: pg in pool ==> (pg in free <==> owner[pg] == FREE))
    && (forall i :: 0 <= i < MAXPROCS ==> Holds(PagesOf(i, procs[i]), i, pool, owner))
    && (forall pg :: pg in pool && owner[pg] != FREE ==>
          0 <= owner[pg] < MAXPROCS && pg in PagesOf(owner[pg], procs[owner[pg]]))
  }

  ghost predicate Holds(pages: seq<nat>, i: nat, pool: set<nat>, owner: map<nat, int>) {
    Distinct(pages) && forall pg :: pg in pages ==> pg in pool && pg in owner && owner[pg] == i
  }

  /** Pages that move between the free list and one process are still owned once. */
  lemma PagesMove(procs: Procs, procs': Procs, c: nat, free: seq<nat>, free': seq<nat>, pool: set<nat>,
                  owner: map<nat, int>)
    returns (owner': map<nat, int>)
    requires c < MAXPROCS && OwnedOnce(procs, free, pool, owner)
    requires forall j :: 0 <= j < MAXPROCS && j != c ==> PagesOf(j, procs'[j]) == PagesOf(j, procs[j])
    requires Distinct(free' + PagesOf(c, procs'[c]))
    requires forall pg :: pg in free' + PagesOf(c, procs'[c]) <==> pg in free + PagesOf(c, procs[c])
    ensures OwnedOnce(procs', free', pool, owner')
  {
    hide PagesOf;
    var mine := PagesOf(c, procs'[c]);
    owner' := map pg | pg in pool :: if pg in free' then FREE else if pg in mine then c else owner[pg];
    forall pg | pg in free' + mine ensures pg in pool && (owner[pg] == FREE || owner[pg] == c) {
      assert pg in free + PagesOf(c, procs[c]);
    }
    DistinctParts(free', mine);
    forall j | 0 <= j < MAXPROCS ensures Holds(PagesOf(j, procs'[j]), j, pool, owner') {
      if j != c {
        assert Holds(PagesOf(j, procs[j]), j, pool, owner);
      }
    }
    forall pg | pg in pool && owner'[pg] != FREE
      ensures 0 <= owner'[pg] < MAXPROCS && pg in PagesOf(owner'[pg], procs'[owner'[pg]])
    {
      if pg !in mine {
        assert pg !in free + PagesOf(c, procs[c]);
        assert owner[pg] != c;
      }
    }
    forall pg | pg in pool && owner'[pg] == FREE ensures pg in free' {
      if pg in free { assert pg in free + PagesOf(c, procs[c]); }
    }
  }

  lemma DistinctParts(s: seq<nat>, t: seq<nat>)
    requires Distinct(s + t)
    ensures Distinct(s) && Distinct(t) && forall x :: x in s ==> x !in t
  {
    forall i, j | 0 <= i < |s| && 0 <= j < |t| ensures s[i] != t[j] {
      assert (s + t)[i] != (s + t)[|s| + j];
    }
    forall i, j | 0 <= i < j < |t| ensures t[i] != t[j] {
      assert (s + t)[|s| + i] != (s + t)[|s| + j];
    }
    assert forall i :: 0 <= i < |s| ==> s[i] == (s + t)[i];
  }

  lemma DistinctJoin(s: seq<nat>, t: seq<nat>)
    requires Distinct(s) && Distinct(t) && forall x :: x in s ==> x !in t
    ensures Distinct(s + t)
  {
    forall i, j | 0 <= i < j < |s + t| ensures (s + t)[i] != (s + t)[j] {
      if i < |s| <= j {
        assert s[i] in s && t[j - |s|] in t;
      }
    }
  }

  /** The pids and session ids of the active processes. */
  ghost function Used(procs: Procs, act: seq<nat>): set<nat>
    requires forall k :: 0 <= k < |act| ==> act[k] < MAXPROCS
  {
    (set i | i in act :: procs[i].pid) + (set i | i in act :: procs[i].psid)
  }

  lemma {:induction false} UsedBound(procs: Procs, act: seq<nat>)
    requires forall k :: 0 <= k < |act| ==> act[k] < MAXPROCS
    ensures |Used(procs, act)| <= 2 * |act|
  {
    if act == [] {
      assert Used(procs, act) == {};
    } else {
      UsedBound(procs, act[..|act| - 1]);
      UsedSplit(procs, act, act[..|act| - 1], act[|act| - 1]);
    }
  }

  lemma UsedSplit(procs: Procs, act: seq<nat>, rest: seq<nat>, i: nat)
    requires i < MAXPROCS && act == rest + [i] && forall k :: 0 <= k < |act| ==> act[k] < MAXPROCS
    ensures forall k :: 0 <= k < |rest| ==> rest[k] < MAXPROCS
    ensures Used(procs, act) == Used(procs, rest) + {procs[i].pid, procs[i].psid}
  {
    assert forall k :: 0 <= k < |rest| ==> rest[k] == act[k];
    assert forall j :: j in act <==> j in rest || j == i;
    assert (set j | j in act :: procs[j].pid) == (set j | j in rest :: procs[j].pid) + {procs[i].pid};
    assert (set j | j in act :: procs[j].psid) == (set j | j in rest :: procs[j].psid) + {procs[i].psid};
  }

  lemma UsedAt(procs: Procs, act: seq<nat>, k: nat)
    requires k < |act| && forall k :: 0 <= k < |act| ==> act[k] < MAXPROCS
    ensures procs[act[k]].pid in Used(procs, act) && procs[act[k]].psid in Used(procs, act)
  {
    assert act[k] in act;
  }

  lemma NotUsed(procs: Procs, act: seq<nat>, x: nat)
    requires forall k :: 0 <= k < |act| ==> act[k] < MAXPROCS && procs[act[k]].pid != x && procs[act[k]].psid != x
    ensures x !in Used(procs, act)
  {
  }

  lemma RunBound(lo: nat, hi: nat, u: set<nat>)
    requires lo <= hi && forall q :: lo <= q < hi ==> q in u
    ensures hi - lo <= |u|
  {
    if lo < hi {
      RunBound(lo, hi - 1, u - {hi - 1});
    }
  }

  /** Where allocpid starts to look. */
  function Start(last: nat): nat { if last + 1 > MAXPID then 2 else last + 1 }

  /** The number of active processes of a user. */
  function Running(procs: Procs, act: seq<nat>, ruid: nat): nat
    requires forall k :: 0 <= k < |act| ==> act[k] < MAXPROCS
  {
    if act == [] then 0
    else Running(procs, act[..|act| - 1], ruid) + if procs[act[|act| - 1]].ruid == ruid then 1 else 0
  }

  /** It is the number of the slots that the user's processes are in. */
  lemma RunningIs(procs: Procs, act: seq<nat>, ruid: nat)
    requires Listed(procs, act)
    ensures forall k :: 0 <= k < |act| ==> act[k] < MAXPROCS
    ensures Running(procs, act, ruid) == |UserSlots(procs, ruid)|
  {
    RunningCounts(procs, act, ruid);
    assert UserSlots(procs, ruid) == SlotsIn(procs, act, ruid);
  }

  ghost function UserSlots(procs: Procs, ruid: nat): set<nat> {
    set i: nat | i < MAXPROCS && procs[i].pid != 0 && procs[i].ruid == ruid
  }

  ghost function SlotsIn(procs: Procs, act: seq<nat>, ruid: nat): set<nat> {
    set i | i in act && i < MAXPROCS && procs[i].ruid == ruid
  }

  lemma {:induction false} RunningCounts(procs: Procs, act: seq<nat>, ruid: nat)
    requires Distinct(act) && forall k :: 0 <= k < |act| ==> act[k] < MAXPROCS
    ensures Running(procs, act, ruid) == |SlotsIn(procs, act, ruid)|
  {
    hide Distinct, SlotsIn;
    if act == [] {
      NoSlots(procs, ruid);
    } else {
      var rest, i := act[..|act| - 1], act[|act| - 1];
      TopIsOut(act, |rest|);
      assert act[..|act|] == act;
      RunningCounts(procs, rest, ruid);
      SlotsMore(procs, rest, i, ruid);
    }
  }

  lemma NoSlots(procs: Procs, ruid: nat)
    ensures |SlotsIn(procs, [], ruid)| == 0
  {
    assert SlotsIn(procs, [], ruid) == {};
  }

  lemma SlotsMore(procs: Procs, rest: seq<nat>, i: nat, ruid: nat)
    requires i < MAXPROCS && i !in rest
    ensures |SlotsIn(procs, rest + [i], ruid)| ==
            |SlotsIn(procs, rest, ruid)| + if procs[i].ruid == ruid then 1 else 0
  {
    var some := SlotsIn(procs, rest, ruid);
    assert SlotsIn(procs, rest + [i], ruid) == if procs[i].ruid == ruid then some + {i} else some;
  }

  datatype ForkResult = Forked(pid: nat) | ForkFailed(errno: Err)

  /** The table after a successful fork into slot i. */
  ghost predicate ChildOf(procs: Procs, procs': Procs, parent: nat, i: nat, pid: nat)
    requires i < MAXPROCS && parent < MAXPROCS
  {
    var c := procs'[i];
    && procs' == procs[i := c] && procs[i].pid == 0
    && c == procs[parent].(pid := pid, parent := parent, kstk := c.kstk, ptab := c.ptab, table := c.table)
  }

  /** A full table has a full list. */
  lemma ListedFull(procs: Procs, act: seq<nat>)
    requires Listed(procs, act)
    ensures forall k :: 0 <= k < |act| ==> act[k] < MAXPROCS
    ensures |act| <= MAXPROCS && (|act| == MAXPROCS <==> forall i :: 0 <= i < MAXPROCS ==> procs[i].pid != 0)
  {
    Pigeonhole(act, MAXPROCS);
    if i :| 0 <= i < MAXPROCS && procs[i].pid == 0 {
      DistinctJoin(act, [i]);
      Pigeonhole(act + [i], MAXPROCS);
    } else {
      Onto(act, MAXPROCS);
    }
  }

  lemma {:induction false} Onto(s: seq<nat>, n: nat)
    requires forall i :: 0 <= i < n ==> i in s
    ensures |s| >= n
  {
    if n > 0 {
      assert n - 1 in s;
      var k :| 0 <= k < |s| && s[k] == n - 1;
      var rest := s[..k] + s[k + 1..];
      forall i | 0 <= i < n - 1 ensures i in rest {
        assert i in s;
        var j :| 0 <= j < |s| && s[j] == i;
        assert j < k ==> rest[j] == i;
        assert j > k ==> rest[j - 1] == i;
      }
      Onto(rest, n - 1);
    }
  }

  /** What a fork does to the table and the list keeps the table in order. */
  lemma ForkKeeps(procs: Procs, procs': Procs, act: seq<nat>, depth: seq<nat>, parent: nat, i: nat, pid: nat)
    requires Listed(procs, act) && Unique(procs) && Family(procs, depth)
    requires Alive(procs, parent) && i < MAXPROCS && ChildOf(procs, procs', parent, i, pid)
    requires pid != 0 && pid !in Used(procs, act)
    ensures |depth| == MAXPROCS
    ensures Listed(procs', act + [i]) && Unique(procs') && Family(procs', depth[i := depth[parent] + 1])
    ensures |act| < MAXPROCS
  {
    hide Listed, Unique, Used;
    ListedGrows(procs, procs', act, i);
    UniqueGrows(procs, procs', act, i);
    FamilyGrows(procs, procs', depth, parent, i);
  }

  lemma ListedGrows(procs: Procs, procs': Procs, act: seq<nat>, i: nat)
    requires Listed(procs, act) && i < MAXPROCS && procs[i].pid == 0
    requires procs' == procs[i := procs'[i]] && procs'[i].pid != 0
    ensures Listed(procs', act + [i]) && |act| < MAXPROCS
  {
    ListedFull(procs, act);
    DistinctJoin(act, [i]);
    assert forall j :: j in act + [i] <==> j in act || j == i;
  }

  lemma UniqueGrows(procs: Procs, procs': Procs, act: seq<nat>, i: nat)
    requires Listed(procs, act) && Unique(procs) && i < MAXPROCS && procs[i].pid == 0
    requires procs' == procs[i := procs'[i]] && procs'[i].pid !in Used(procs, act)
    ensures Unique(procs')
  {
    forall j | 0 <= j < MAXPROCS && procs[j].pid != 0 ensures procs[j].pid != procs'[i].pid {
      assert j in act;
    }
  }

  lemma FamilyGrows(procs: Procs, procs': Procs, depth: seq<nat>, parent: nat, i: nat)
    requires Family(procs, depth) && Alive(procs, parent) && i < MAXPROCS && procs[i].pid == 0
    requires procs' == procs[i := procs'[i]] && procs'[i].pid != 0 && procs'[i].parent == parent
    ensures Family(procs', depth[i := depth[parent] + 1])
  {
  }

  lemma ReversedSame(s: seq<nat>, t: seq<nat>)
    requires Distinct(s + Reversed(t))
    ensures Distinct(s + t) && forall x :: x in s + t <==> x in s + Reversed(t)
  {
    var r := Reversed(t);
    DistinctParts(s, r);
    forall x ensures x in t <==> x in r {
      if x in t {
        var i :| 0 <= i < |t| && t[i] == x;
        assert r[|t| - 1 - i] == x;
      }
    }
    forall i, j | 0 <= i < j < |t| ensures t[i] != t[j] {
      assert r[|t| - 1 - i] == t[i] && r[|t| - 1 - j] == t[j];
    }
    DistinctJoin(s, t);
  }

  lemma KeysKept(free: seq<nat>, was: map<nat, Data>, now: map<nat, Data>)
    requires OthersKept(free, was, now)
    ensures now.Keys == was.Keys
  {
  }

  lemma OthersKeptSame(free: seq<nat>, data: map<nat, Data>)
    ensures OthersKept(free, data, data)
  {
  }

  lemma BlankSlot(procs: Procs, act: seq<nat>, i: nat)
    requires Listed(procs, act) && i < MAXPROCS && procs[i].pid == 0
    ensures procs[i] == None()
  {
  }

  /** The pages a live process maps are in the pool and not free. */
  lemma TableHeld(procs: Procs, c: nat, free: seq<nat>, pool: set<nat>, owner: map<nat, int>)
    requires OwnedOnce(procs, free, pool, owner) && Alive(procs, c)
    ensures forall i :: 0 <= i < PTES && procs[c].table[i] != 0 ==>
              PageOf(procs[c].table[i]) in pool && PageOf(procs[c].table[i]) !in free
  {
    hide PageOf;
    var t := procs[c].table;
    forall i | 0 <= i < PTES && t[i] != 0 ensures PageOf(t[i]) in pool && PageOf(t[i]) !in free {
      MappedHas(t, i);
      assert PageOf(t[i]) in PagesOf(c, procs[c]);
      assert Holds(PagesOf(c, procs[c]), c, pool, owner);
    }
  }

  lemma MappedHas(t: Pages.Table, i: nat)
    requires i < PTES && t[i] != 0
    ensures PageOf(t[i]) in Mapped(t, PTES)
  {
    hide PageOf;
    MappedPrefix(t, i + 1, PTES);
    assert Mapped(t, i + 1)[|Mapped(t, i)|] == PageOf(t[i]);
  }

  lemma UsedSame(procs: Procs, procs': Procs, act: seq<nat>, i: nat)
    requires i < MAXPROCS && Listed(procs, act) && procs[i].pid == 0 && procs' == procs[i := procs'[i]]
    ensures (forall k :: 0 <= k < |act| ==> act[k] < MAXPROCS) && Used(procs', act) == Used(procs, act)
  {
    assert i !in act;
    assert forall j :: j in act ==> procs'[j] == procs[j];
  }

  lemma ForkPages(procs: Procs, procs': Procs, i: nat, free: seq<nat>, free': seq<nat>)
    requires 0 < i < MAXPROCS && procs[i].pid == 0 && procs' == procs[i := procs'[i]]
    requires procs'[i].pid != 0 && !procs'[i].exited
    requires Distinct(free)
    requires free == free' + Reversed([procs'[i].kstk, procs'[i].ptab] + Mapped(procs'[i].table, PTES))
    ensures free == free' + Reversed(PagesOf(i, procs'[i]))
    ensures forall j :: 0 <= j < MAXPROCS && j != i ==> PagesOf(j, procs'[j]) == PagesOf(j, procs[j])
    ensures Distinct(free' + PagesOf(i, procs'[i]))
    ensures forall pg :: pg in free' + PagesOf(i, procs'[i]) <==> pg in free + PagesOf(i, procs[i])
  {
    hide Mapped, Reversed, Distinct;
    var p := procs'[i];
    assert PagesOf(i, p) == [p.kstk, p.ptab] + Mapped(p.table, PTES);
    ReversedSame(free', PagesOf(i, p));
    assert free + PagesOf(i, procs[i]) == free;
  }

  /** The children of a process that exits go to init, and its session is dissolved. */
  function Orphaned(p: Proc, c: nat, pid: nat): Proc {
    p.(parent := if p.parent == c then INIT else p.parent, psid := if p.psid == pid then 0 else p.psid)
  }

  function Zombie(p: Proc, status: int): Proc {
    p.(exited := true, status := status, ptab := 0, table := Empty())
  }

  function AfterExit(p: Proc, i: nat, c: nat, pid: nat, status: int): Proc {
    if p.pid == 0 then p
    else if i == c then Zombie(Orphaned(p, c, pid), status)
    else Orphaned(p, c, pid)
  }

  /** The table after process c has exited. */
  ghost predicate Exited(procs: Procs, procs': Procs, c: nat, status: int)
    requires c < MAXPROCS
  {
    forall i :: 0 <= i < MAXPROCS ==> procs'[i] == AfterExit(procs[i], i, c, procs[c].pid, status)
  }

  /** What exit leaves in the table, field by field: the process has exited with that status and has its
      pid, parent and kernel stack; of the others those of its session have none, and its children are init's. */
  ghost predicate Left(procs: Procs, procs': Procs, c: nat, status: int)
    requires c < MAXPROCS
  {
    && procs'[c].exited && procs'[c].status == status
    && procs'[c].pid == procs[c].pid && procs'[c].kstk == procs[c].kstk && procs'[c].parent == procs[c].parent
    && procs'[c].ruid == procs[c].ruid && procs'[c].euid == procs[c].euid
    && procs'[c].ptab == 0 && (forall k :: 0 <= k < PTES ==> procs'[c].table[k] == 0)
    && (forall i :: 0 <= i < MAXPROCS && i != c ==>
          procs'[i] == procs[i].(parent := procs'[i].parent, psid := procs'[i].psid))
    && (forall i :: 0 <= i < MAXPROCS && i != c ==>
          procs'[i].parent == if procs[i].pid != 0 && procs[i].parent == c then INIT else procs[i].parent)
    && (forall i :: 0 <= i < MAXPROCS ==>
          procs'[i].psid == if procs[i].psid == procs[c].pid then 0 else procs[i].psid)
  }

  lemma ExitedLeft(procs: Procs, procs': Procs, act: seq<nat>, depth: seq<nat>, c: nat, status: int)
    requires Listed(procs, act) && Family(procs, depth) && Alive(procs, c) && c != INIT && Exited(procs, procs', c, status)
    ensures Left(procs, procs', c, status)
  {
  }

  lemma ExitKeeps(procs: Procs, procs': Procs, act: seq<nat>, depth: seq<nat>, c: nat, status: int)
    requires Listed(procs, act) && Unique(procs) && Family(procs, depth)
    requires Alive(procs, c) && c != INIT && Exited(procs, procs', c, status)
    ensures Listed(procs', act) && Unique(procs') && Family(procs', depth)
  {
    hide Empty;
    forall i | 0 <= i < MAXPROCS ensures procs'[i].pid == procs[i].pid && (i != c ==> procs'[i].exited == procs[i].exited) {
    }
    FamilyExits(procs, procs', depth, c, status);
  }

  lemma FamilyExits(procs: Procs, procs': Procs, depth: seq<nat>, c: nat, status: int)
    requires Family(procs, depth) && Alive(procs, c) && c != INIT && Exited(procs, procs', c, status)
    ensures Family(procs', depth)
  {
    hide Empty;
    forall i | 0 < i < MAXPROCS && procs'[i].pid != 0
      ensures Alive(procs', procs'[i].parent) && depth[procs'[i].parent] < depth[i]
    {
      assert Alive(procs, procs[i].parent) && depth[procs[i].parent] < depth[i];
    }
  }

  lemma ExitPages(procs: Procs, procs': Procs, c: nat, status: int, free: seq<nat>, pool: set<nat>,
                  owner: map<nat, int>)
    requires OwnedOnce(procs, free, pool, owner) && Distinct(free)
    requires Alive(procs, c) && c != INIT && Exited(procs, procs', c, status)
    ensures var given := Mapped(procs[c].table, PTES) + [procs[c].ptab];
            && Distinct(free + given) && (forall pg :: pg in given ==> pg in pool)
            && Distinct(free + given + PagesOf(c, procs'[c]))
            && (forall pg :: pg in free + given + PagesOf(c, procs'[c]) <==> pg in free + PagesOf(c, procs[c]))
    ensures forall j :: 0 <= j < MAXPROCS && j != c ==> PagesOf(j, procs'[j]) == PagesOf(j, procs[j])
  {
    hide Mapped, Empty, Distinct, OwnedOnce, PagesOf;
    var p, m := procs[c], Mapped(procs[c].table, PTES);
    HolderFacts(procs, c, free, pool, owner);
    ExitedPages(procs, procs', c, status);
    Given(free, [p.kstk], [p.ptab], m);
  }

  lemma HolderFacts(procs: Procs, c: nat, free: seq<nat>, pool: set<nat>, owner: map<nat, int>)
    requires OwnedOnce(procs, free, pool, owner) && c < MAXPROCS
    ensures Distinct(PagesOf(c, procs[c])) && forall pg :: pg in PagesOf(c, procs[c]) ==> pg in pool && pg !in free
  {
    hide PagesOf;
    assert Holds(PagesOf(c, procs[c]), c, pool, owner);
  }

  lemma ExitedPages(procs: Procs, procs': Procs, c: nat, status: int)
    requires Alive(procs, c) && c != INIT && Exited(procs, procs', c, status)
    ensures PagesOf(c, procs[c]) == [procs[c].kstk] + [procs[c].ptab] + Mapped(procs[c].table, PTES)
    ensures PagesOf(c, procs'[c]) == [procs[c].kstk]
    ensures forall j :: 0 <= j < MAXPROCS && j != c ==> PagesOf(j, procs'[j]) == PagesOf(j, procs[j])
  {
    hide Mapped, Empty;
  }

  /** Pages b and c given back, a kept. */
  lemma Given(free: seq<nat>, a: seq<nat>, b: seq<nat>, c: seq<nat>)
    requires Distinct(free) && Distinct(a + b + c) && forall x :: x in a + b + c ==> x !in free
    ensures Distinct(free + (c + b)) && Distinct(free + (c + b) + a)
    ensures forall x :: x in free + (c + b) + a <==> x in free + (a + b + c)
  {
    hide Distinct;
    Rotate(a, b, c);
    DistinctJoin(free, c + b + a);
    assert free + (c + b + a) == free + (c + b) + a;
    DistinctParts(free + (c + b), a);
  }

  lemma Rotate(a: seq<nat>, b: seq<nat>, c: seq<nat>)
    requires Distinct(a + b + c)
    ensures Distinct(c + b + a) && forall x :: x in c + b + a <==> x in a + b + c
  {
    DistinctParts(a + b, c);
    DistinctParts(a, b);
    DistinctJoin(c, b);
    DistinctJoin(c + b, a);
  }

  datatype WaitResult = Reaped(pid: nat, status: int) | NoChildren | NotYet | Blocked

  /** A child of process c as sys_waitpid sees it. */
  predicate Child(p: Proc, c: nat) {
    p.pid != 0 && p.pid != 1 && p.parent == c
  }

  /** A child that has exited and that is waited for. Waiting for 0 matches any child, because the
      session compared is the child's own. */
  predicate Waited(p: Proc, c: nat, wpid: int) {
    Child(p, c) && p.exited && (wpid < 0 || p.pid == wpid || wpid == 0)
  }

  /** The list without its entry k, whose place the last entry takes. */
  function Dropped(act: seq<nat>, k: nat): seq<nat>
    requires k < |act|
  {
    act[k := act[|act| - 1]][..|act| - 1]
  }

  /** The table and the list once the process in entry k has left. */
  ghost predicate Gone(procs: Procs, procs': Procs, act: seq<nat>, act': seq<nat>, k: nat) {
    k < |act| && act[k] < MAXPROCS && procs' == procs[act[k] := None()] && act' == Dropped(act, k)
  }

  lemma DroppedHas(act: seq<nat>, k: nat)
    requires Distinct(act) && k < |act|
    ensures Distinct(Dropped(act, k)) && forall i :: i in Dropped(act, k) <==> i in act && i != act[k]
  {
    var act' := Dropped(act, k);
    forall i ensures i in act' <==> i in act && i != act[k] {
      if i in act && i != act[k] {
        var j :| 0 <= j < |act| && act[j] == i;
        assert act'[if j == |act| - 1 then k else j] == i;
      }
    }
  }

  lemma ReapKeeps(procs: Procs, procs': Procs, act: seq<nat>, act': seq<nat>, depth: seq<nat>, k: nat)
    requires Listed(procs, act) && Unique(procs) && Family(procs, depth)
    requires Gone(procs, procs', act, act', k) && procs[act[k]].exited
    ensures Listed(procs', act') && Unique(procs') && Family(procs', depth)
  {
    hide Empty, Dropped, Distinct;
    DroppedHas(act, k);
    forall i | 0 <= i < |act'| ensures act'[i] < MAXPROCS {
      assert act'[i] in act';
    }
    FamilyShrinks(procs, procs', depth, act[k]);
  }

  lemma FamilyShrinks(procs: Procs, procs': Procs, depth: seq<nat>, z: nat)
    requires Family(procs, depth) && z < MAXPROCS && procs[z].exited && procs' == procs[z := None()]
    ensures Family(procs', depth)
  {
    hide Empty;
  }

  /** The loop over the list sees the children of process c, and those that it may report, wherever they are. */
  /** The child i of process c can be reported when it waits for wpid. */
  ghost predicate Reapable(procs: Procs, c: nat, wpid: int, i: nat) {
    i < MAXPROCS && procs[i].pid > 1 && procs[i].parent == c && procs[i].exited && (wpid <= 0 || procs[i].pid == wpid)
  }

  lemma ListedWaited(procs: Procs, act: seq<nat>, c: nat, wpid: int)
    requires Listed(procs, act) && forall j :: 0 <= j < |act| ==> act[j] < MAXPROCS
    ensures (exists j :: 0 <= j < |act| && Child(procs[act[j]], c)) <==>
            (exists i :: 0 <= i < MAXPROCS && procs[i].pid > 1 && procs[i].parent == c)
    ensures (exists j :: 0 <= j < |act| && Waited(procs[act[j]], c, wpid)) <==>
            (exists i: nat :: Reapable(procs, c, wpid, i))
  {
    forall j | 0 <= j < |act| && Waited(procs[act[j]], c, wpid) ensures Reapable(procs, c, wpid, act[j]) {}
    forall i | 0 <= i < MAXPROCS && procs[i].pid > 1 ensures exists j :: 0 <= j < |act| && act[j] == i {
      assert i in act;
    }
  }

  lemma WaitedEnded(procs: Procs, c: nat, wpid: int, i: nat)
    requires i < MAXPROCS && Waited(procs[i], c, wpid)
    ensures procs[i].pid > 1 && procs[i].parent == c && procs[i].exited && (wpid > 0 ==> procs[i].pid == wpid)
  {
  }

  ghost predicate LastWaited(procs: Procs, act: seq<nat>, c: nat, wpid: int, k: nat)
    requires forall j :: 0 <= j < |act| ==> act[j] < MAXPROCS
  {
    && k < |act| && Waited(procs[act[k]], c, wpid)
    && forall j :: k < j < |act| ==> !Waited(procs[act[j]], c, wpid)
  }

  /** A child that has exited and is in the session of process c, which is what waiting for 0 is for. */
  predicate Own(procs: Procs, p: Proc, c: nat)
    requires c < MAXPROCS
  {
    Child(p, c) && p.exited && p.psid == procs[c].psid
  }

  ghost predicate LastOwn(procs: Procs, act: seq<nat>, c: nat, k: nat)
    requires c < MAXPROCS && forall j :: 0 <= j < |act| ==> act[j] < MAXPROCS
  {
    k < |act| && Own(procs, procs[act[k]], c) && forall j :: k < j < |act| ==> !Own(procs, procs[act[j]], c)
  }

  /** Waiting for 0 matches the children of one's session and no others if and only if no child of
      another session has exited. */
  lemma WaitedOwnIff(procs: Procs, c: nat)
    requires c < MAXPROCS
    ensures (forall i :: 0 <= i < MAXPROCS ==> (Waited(procs[i], c, 0) <==> Own(procs, procs[i], c))) <==>
            (forall i :: 0 <= i < MAXPROCS && Child(procs[i], c) && procs[i].exited ==> procs[i].psid == procs[c].psid)
  {
    if i :| 0 <= i < MAXPROCS && Child(procs[i], c) && procs[i].exited && procs[i].psid != procs[c].psid {
      assert Waited(procs[i], c, 0) && !Own(procs, procs[i], c);
    }
  }

  /** And it reports the child that it is to report, or none if there is none, if and only if the last
      child in the list that has exited is of one's session. */
  lemma ReportsOwnIff(procs: Procs, act: seq<nat>, c: nat)
    requires c < MAXPROCS && forall j :: 0 <= j < |act| ==> act[j] < MAXPROCS
    ensures (forall k: nat :: LastWaited(procs, act, c, 0, k) <==> LastOwn(procs, act, c, k)) <==>
            (forall k: nat :: LastWaited(procs, act, c, 0, k) ==> procs[act[k]].psid == procs[c].psid)
  {
    if forall k: nat :: LastWaited(procs, act, c, 0, k) ==> procs[act[k]].psid == procs[c].psid {
      forall k: nat | LastOwn(procs, act, c, k) ensures LastWaited(procs, act, c, 0, k) {
        var m := LastIs(procs, act, c, k);
        assert procs[act[m]].psid == procs[c].psid;
      }
    }
  }

  /** Where there is a child to report there is a last one. */
  lemma {:induction false} LastIs(procs: Procs, act: seq<nat>, c: nat, k: nat) returns (m: nat)
    requires (forall j :: 0 <= j < |act| ==> act[j] < MAXPROCS) && k < |act| && Waited(procs[act[k]], c, 0)
    ensures k <= m && LastWaited(procs, act, c, 0, m)
    decreases |act| - k
  {
    if j :| k < j < |act| && Waited(procs[act[j]], c, 0) {
      m := LastIs(procs, act, c, j);
    } else {
      m := k;
    }
  }

  /** A table where the child that waiting for 0 reports is of another session than its parent, init. */
  lemma ReportsOther()
    ensures var none: Proc := None();
            var init, child := none.(pid := 1, psid := 1, parent := 0), none.(pid := 2, psid := 2, parent := 0, exited := true);
            var procs: Procs := seq<Proc>(MAXPROCS, i => if i == 0 then init else if i == 1 then child else none);
            && Listed(procs, [0, 1]) && Unique(procs) && Family(procs, seq<nat>(MAXPROCS, i => if i == 0 then 0 else 1))
            && LastWaited(procs, [0, 1], 0, 0, 1) && procs[1].psid != procs[0].psid
            && forall k: nat :: !LastOwn(procs, [0, 1], 0, k)
  {
    assert Distinct([0, 1]);
  }

  lemma ReapPages(procs: Procs, z: nat, free: seq<nat>, pool: set<nat>, owner: map<nat, int>)
    requires OwnedOnce(procs, free, pool, owner) && Distinct(free)
    requires 0 < z < MAXPROCS && procs[z].pid != 0 && procs[z].exited
    ensures procs[z].kstk in pool && procs[z].kstk !in free && Distinct(free + [procs[z].kstk])
    ensures PagesOf(z, None()) == [] && PagesOf(z, procs[z]) == [procs[z].kstk]
  {
    assert Holds(PagesOf(z, procs[z]), z, pool, owner) && procs[z].kstk in PagesOf(z, procs[z]);
    DistinctJoin(free, [procs[z].kstk]);
  }

  /** The steps of a run: a system call or exit of the running process, or the choice of another
      process to run. What is not possible in the state at hand does nothing. */
  datatype Step = CallFork | CallExit(status: int) | CallWaitpid(wpid: int, nohang: bool) | Choose(slot: nat)

  /** What there is before and after a step of a run. */
  datatype Scene = Scene(procs: Procs, active: nat, free: nat, curr: nat)

  /** What a step does: whether it does anything depends on what there is, and nothing else. */
  ghost predicate Taken(step: Step, s: Scene, s': Scene) {
    match step
    case CallFork =>
      if CanFork(s) then
        s'.curr == s.curr && s'.active == s.active + 1
        && exists i: nat, pid: nat :: i < MAXPROCS && ChildOf(s.procs, s'.procs, s.curr, i, pid)
      else s' == s
    case CallExit(status) =>
      if Alive(s.procs, s.curr) && s.curr != INIT then
        s'.curr == s.curr && s'.active == s.active && Left(s.procs, s'.procs, s.curr, status)
      else s' == s
    case CallWaitpid(wpid, nohang) =>
      if Alive(s.procs, s.curr) && exists i: nat :: Reapable(s.procs, s.curr, wpid, i) then
        s'.curr == s.curr && s'.active + 1 == s.active
        && exists i: nat :: Reapable(s.procs, s.curr, wpid, i) && s'.procs == s.procs[i := None()]
      else s' == s
    case Choose(slot) =>
      s' == if Alive(s.procs, slot) then s.(curr := slot) else s
  }

  /** The running process may have one more process, and there is a slot and the pages for it. */
  ghost predicate CanFork(s: Scene) {
    && Alive(s.procs, s.curr) && s.active < MAXPROCS
    && (|UserSlots(s.procs, s.procs[s.curr].ruid)| < MAXUPROC || s.procs[s.curr].euid == 0)
    && Rank(s.procs[s.curr].table, PTES) + 2 <= s.free
  }

  /** What a run does to processes: one is born, leaves with a status, or is reported with one. */
  datatype Event = Born(pid: nat) | Died(pid: nat, status: int) | Reported(pid: nat, status: int)

  /** The last event of process pid is that it died with that status. */
  ghost predicate LastDied(log: seq<Event>, pid: nat, status: int) {
    exists j :: 0 <= j < |log| && log[j] == Died(pid, status) && forall m :: j < m < |log| ==> log[m].pid != pid
  }

  /** Each report is of a process whose last event until then is that it died, with the status reported. */
  ghost predicate Truthful(log: seq<Event>) {
    forall k :: 0 <= k < |log| && log[k].Reported? ==> LastDied(log[..k], log[k].pid, log[k].status)
  }

  /** The processes that have exited are those that died last, with the status they have. */
  ghost predicate Remembered(log: seq<Event>, procs: Procs) {
    forall i :: 0 <= i < MAXPROCS && procs[i].pid != 0 && procs[i].exited ==> LastDied(log, procs[i].pid, procs[i].status)
  }

  /** What has happened before a run starts: the processes that have exited have died. */
  ghost function Deaths(procs: Procs): seq<Event> {
    seq<Event>(MAXPROCS, i requires 0 <= i < MAXPROCS =>
      if procs[i].pid != 0 && procs[i].exited then Died(procs[i].pid, procs[i].status) else Born(0))
  }

  lemma DeathsRemembered(procs: Procs)
    requires Unique(procs)
    ensures Truthful(Deaths(procs)) && Remembered(Deaths(procs), procs)
  {
    var log := Deaths(procs);
    forall i | 0 <= i < MAXPROCS && procs[i].pid != 0 && procs[i].exited
      ensures LastDied(log, procs[i].pid, procs[i].status)
    {
      assert log[i] == Died(procs[i].pid, procs[i].status);
    }
  }

  lemma TruthfulMore(log: seq<Event>, e: Event)
    requires Truthful(log) && (e.Reported? ==> LastDied(log, e.pid, e.status))
    ensures Truthful(log + [e])
  {
    hide LastDied;
    forall k | 0 <= k < |log + [e]| && (log + [e])[k].Reported?
      ensures LastDied((log + [e])[..k], (log + [e])[k].pid, (log + [e])[k].status)
    {
      assert (log + [e])[..k] == log[..k];
      assert log[..|log|] == log;
    }
  }

  lemma LastDiedMore(log: seq<Event>, e: Event, pid: nat, status: int)
    requires if e.pid == pid then e == Died(pid, status) else LastDied(log, pid, status)
    ensures LastDied(log + [e], pid, status)
  {
    if e.pid == pid {
      assert (log + [e])[|log|] == e;
    } else {
      var j :| 0 <= j < |log| && log[j] == Died(pid, status) && forall m :: j < m < |log| ==> log[m].pid != pid;
      assert (log + [e])[j] == log[j];
    }
  }

  lemma BornRemembered(log: seq<Event>, procs: Procs, procs': Procs, act: seq<nat>, parent: nat, i: nat, pid: nat)
    requires Remembered(log, procs) && parent < MAXPROCS && i < MAXPROCS && ChildOf(procs, procs', parent, i, pid)
    requires Alive(procs, parent) && Unique(procs')
    ensures Remembered(log + [Born(pid)], procs')
  {
    hide LastDied;
    forall j | 0 <= j < MAXPROCS && procs'[j].pid != 0 && procs'[j].exited
      ensures LastDied(log + [Born(pid)], procs'[j].pid, procs'[j].status)
    {
      LastDiedMore(log, Born(pid), procs[j].pid, procs[j].status);
    }
  }

  lemma DiedRemembered(log: seq<Event>, procs: Procs, procs': Procs, c: nat, status: int)
    requires Remembered(log, procs) && Alive(procs, c) && Left(procs, procs', c, status) && Unique(procs')
    ensures Remembered(log + [Died(procs[c].pid, status)], procs')
  {
    hide LastDied;
    forall j | 0 <= j < MAXPROCS && procs'[j].pid != 0 && procs'[j].exited
      ensures LastDied(log + [Died(procs[c].pid, status)], procs'[j].pid, procs'[j].status)
    {
      LastDiedMore(log, Died(procs[c].pid, status), procs'[j].pid, procs'[j].status);
    }
  }

  lemma ReportedRemembered(log: seq<Event>, procs: Procs, procs': Procs, act: seq<nat>, act': seq<nat>, k: nat)
    requires Remembered(log, procs) && Unique(procs) && Gone(procs, procs', act, act', k)
    requires procs[act[k]].pid != 0 && procs[act[k]].exited
    ensures var e := Reported(procs[act[k]].pid, procs[act[k]].status);
            LastDied(log, e.pid, e.status) && Remembered(log + [e], procs')
  {
    hide LastDied, Dropped, Empty;
    var e := Reported(procs[act[k]].pid, procs[act[k]].status);
    forall j | 0 <= j < MAXPROCS && procs'[j].pid != 0 && procs'[j].exited
      ensures LastDied(log + [e], procs'[j].pid, procs'[j].status)
    {
      LastDiedMore(log, e, procs[j].pid, procs[j].status);
    }
  }

  function Zeros(): (s: seq<nat>)
    ensures |s| == MAXPROCS && forall i :: 0 <= i < MAXPROCS ==> s[i] == 0
  {
    seq(MAXPROCS, i => 0)
  }

  function BootOwner(pool: set<nat>, free: seq<nat>): map<nat, int> {
    map p | p in pool :: if p in free then FREE else INIT
  }

  /** The table that proc_init sets up is in order. */
  lemma Boot(procs: Procs, was: seq<nat>, free: seq<nat>, pg: nat, depth: seq<nat>, pool: set<nat>,
             owner: map<nat, int>)
    requires procs[INIT] == Proc(1, 1, 0, 0, INIT, false, 0, KSTK_PAGE, pg, Empty())
    requires forall i :: 0 < i < MAXPROCS ==> procs[i] == None()
    requires was == free + [pg] && pg !in free && (forall p :: p in pool <==> p in was) && depth == Zeros()
    requires owner == BootOwner(pool, free)
    ensures Listed(procs, [INIT]) && Unique(procs) && Family(procs, depth) && OwnedOnce(procs, free, pool, owner)
    ensures PagesOf(INIT, procs[INIT]) == [pg]
  {
    NothingMapped(PTES);
    assert PagesOf(INIT, procs[INIT]) == [pg];
    forall i | 0 <= i < MAXPROCS ensures Holds(PagesOf(i, procs[i]), i, pool, owner) {
    }
  }

  lemma {:induction false} NothingMapped(n: nat)
    requires n <= PTES
    ensures Mapped(Empty(), n) == []
  {
    if n > 0 { NothingMapped(n - 1); }
  }

  lemma FreeInPool(mem: Memory)
    requires mem.Valid()
    ensures mem.fcount <= mem.flist.Length && forall pg :: pg in mem.Free() ==> pg in mem.data
  {
  }

  class Kernel {
    const procs: array<Proc>
    const pact: array<nat>
    const mem: Memory
    var npact: nat
    var curr: nat
    var nextpid: nat
    ghost var depth: seq<nat>
    ghost var owner: map<nat, int>

    constructor (memory: Memory)
      ensures mem == memory && fresh(procs) && fresh(pact) && nextpid == 1
      ensures procs.Length == MAXPROCS && pact.Length == MAXPROCS && forall i :: 0 <= i < MAXPROCS ==> procs[i] == None()
    {
      mem := memory;
      procs := new Proc[MAXPROCS](i => None());
      pact := new nat[MAXPROCS];
      npact, curr, nextpid := 0, INIT, 1;
      depth, owner := [], map[];
    }

    /** proc_init: init alone, with a fresh page table, and all other pages free. */
    method ProcInit()
      requires procs.Length == MAXPROCS && pact.Length == MAXPROCS && pact != mem.flist
      requires forall i :: 0 <= i < MAXPROCS ==> procs[i] == None()
      requires mem.Valid() && mem.Free() != [] && forall pg :: pg in mem.data ==> pg in mem.Free()
      modifies this`npact, this`curr, this`depth, this`owner, procs, pact, mem
      ensures Valid() && Active() == [INIT] && curr == INIT && Alive(procs[..], INIT)
      ensures PagesOf(INIT, procs[INIT]) == [procs[INIT].ptab] && old(mem.Free()) == mem.Free() + [procs[INIT].ptab]
    {
      hide Listed, Unique, Family, OwnedOnce, PagesOf, Distinct, Empty, Zeros, Memory.Valid, BootOwner;
      FreeInPool(mem);
      ghost var was := mem.Free();
      var pg := mem.Zpalloc();
      procs[INIT] := Proc(1, 1, 0, 0, INIT, false, 0, KSTK_PAGE, pg, Empty());
      pact[0] := INIT;
      npact, curr := 1, INIT;
      depth := Zeros();
      owner := BootOwner(mem.data.Keys, mem.Free());
      assert Active() == [INIT];
      Boot(procs[..], was, mem.Free(), pg, depth, mem.data.Keys, owner);
    }

    ghost predicate Valid()
      reads this, procs, pact, mem, mem.flist
    {
      && procs.Length == MAXPROCS && pact.Length == MAXPROCS && npact <= MAXPROCS
      && pact != mem.flist && mem.Valid() && curr < MAXPROCS
      && Listed(procs[..], Active()) && Unique(procs[..]) && Family(procs[..], depth)
      && OwnedOnce(procs[..], mem.Free(), mem.data.Keys, owner)
    }

    /** pact[0..npact). */
    ghost function Active(): seq<nat>
      requires npact <= pact.Length
      reads this`npact, pact
    {
      pact[..npact]
    }

    /** allocpid: the first number from where it left off that is neither the pid nor the session of
        an active process. */
    method Allocpid() returns (pid: nat)
      requires procs.Length == MAXPROCS && pact.Length == MAXPROCS && npact <= MAXPROCS
      requires forall k :: 0 <= k < npact ==> pact[k] < MAXPROCS
      modifies this`nextpid
      ensures pid == nextpid
      ensures pid !in Used(procs[..], Active())
      ensures forall q :: Start(old(nextpid)) <= q < pid ==> q in Used(procs[..], Active())
      ensures Start(old(nextpid)) <= pid <= MAXPID + 2 * npact
    {
      hide Used;
      ghost var used := Used(procs[..], Active());
      UsedBound(procs[..], Active());
      nextpid := nextpid + 1;
      if nextpid > MAXPID {
        nextpid := 2;
      }
      ghost var first := nextpid;
      var i := 0;
      while i < npact
        invariant i <= npact
        invariant first <= nextpid && forall q :: first <= q < nextpid ==> q in used
        invariant forall k :: 0 <= k < i ==> procs[pact[k]].pid != nextpid && procs[pact[k]].psid != nextpid
        invariant nextpid - first <= |used|
        decreases |used| - (nextpid - first), npact - i
      {
        if procs[pact[i]].pid == nextpid || procs[pact[i]].psid == nextpid {
          UsedAt(procs[..], Active(), i);
          RunBound(first, nextpid + 1, used);
          nextpid := nextpid + 1;
          i := 0;
        } else {
          i := i + 1;
        }
      }
      NotUsed(procs[..], Active(), nextpid);
      pid := nextpid;
    }

    /** The number of active processes of the user, the loop that opens sys_fork. */
    method CountUser(ruid: nat) returns (cnt: nat)
      requires procs.Length == MAXPROCS && pact.Length == MAXPROCS && npact <= MAXPROCS
      requires forall k :: 0 <= k < npact ==> pact[k] < MAXPROCS
      ensures cnt == Running(procs[..], Active(), ruid)
    {
      cnt := 0;
      for i := 0 to npact
        invariant cnt == Running(procs[..], pact[..i], ruid)
      {
        assert pact[..i + 1][..i] == pact[..i];
        if procs[pact[i]].ruid == ruid {
          cnt := cnt + 1;
        }
      }
    }

    method FreeSlot() returns (i: nat)
      requires procs.Length == MAXPROCS
      ensures i <= MAXPROCS && (i < MAXPROCS ==> procs[i].pid == 0)
      ensures forall j :: 0 <= j < i ==> procs[j].pid != 0
    {
      i := 0;
      while i < MAXPROCS && procs[i].pid != 0
        invariant i <= MAXPROCS && forall j :: 0 <= j < i ==> procs[j].pid != 0
      {
        i := i + 1;
      }
    }

    /** The start of sys_fork: the two limits and the choice of the slot. */
    method MayFork() returns (may: bool, i: nat)
      requires Valid()
      ensures !may <==>
                (|UserSlots(procs[..], procs[curr].ruid)| >= MAXUPROC && procs[curr].euid != 0) || npact == MAXPROCS
      ensures may ==> i < MAXPROCS && procs[i].pid == 0 && forall j :: 0 <= j < i ==> procs[j].pid != 0
    {
      hide Running, UserSlots, Unique, Family, OwnedOnce, Listed, Distinct;
      ListedFull(procs[..], Active());
      RunningIs(procs[..], Active(), procs[curr].ruid);
      assert forall k :: 0 <= k < npact ==> pact[k] == Active()[k];
      var cnt := CountUser(procs[curr].ruid);
      if cnt >= MAXUPROC && procs[curr].euid != 0 { return false, 0; }
      i := FreeSlot();
      may := i < MAXPROCS;
      assert !may ==> forall j :: 0 <= j < MAXPROCS ==> procs[..][j].pid != 0;
    }

    /** The end of sys_fork: the new process, so far a copy of its parent, gets its pages and its pid
        and enters the list. */
    method Admit(i: nat, kstk: nat, ptab: nat, tab: Pages.Table, ghost was: Procs, ghost free: seq<nat>)
      returns (pid: nat)
      requires procs.Length == MAXPROCS && pact.Length == MAXPROCS && npact <= MAXPROCS && pact != mem.flist
      requires mem.Valid() && i < MAXPROCS && was[i].pid == 0 && curr < MAXPROCS && Alive(was, curr)
      requires Listed(was, Active()) && Unique(was) && Family(was, depth)
      requires OwnedOnce(was, free, mem.data.Keys, owner) && Distinct(free)
      requires procs[..] == was[i := was[curr].(parent := curr)]
      requires free == mem.Free() + Reversed([kstk, ptab] + Mapped(tab, PTES))
      modifies this, procs, pact
      ensures Valid() && curr == old(curr) && Active() == old(Active()) + [i]
      ensures ChildOf(was, procs[..], curr, i, pid) && procs[i].table == tab
      ensures (forall k :: 0 <= k < |old(Active())| ==> old(Active())[k] < MAXPROCS) && pid !in Used(was, old(Active()))
      ensures pid == nextpid >= Start(old(nextpid)) && free == mem.Free() + Reversed(PagesOf(i, procs[i]))
      ensures forall q :: Start(old(nextpid)) <= q < pid ==> q in Used(was, old(Active()))
    {
      hide Used, Unique, OwnedOnce, PagesOf, Listed, Reversed, Distinct, Mapped, Rank;
      ListedFull(was, Active());
      pid := Enlist(i, kstk, ptab, tab, was);
      ForkKeeps(was, procs[..], old(Active()), depth, curr, i, pid);
      depth := depth[i := depth[curr] + 1];
      ForkPages(was, procs[..], i, free, mem.Free());
      owner := PagesMove(was, procs[..], i, free, mem.Free(), mem.data.Keys, owner);
    }

    method Enlist(i: nat, kstk: nat, ptab: nat, tab: Pages.Table, ghost was: Procs) returns (pid: nat)
      requires procs.Length == MAXPROCS && pact.Length == MAXPROCS && npact < MAXPROCS
      requires i < MAXPROCS && was[i].pid == 0 && procs[..] == was[i := procs[i]] && Listed(was, Active())
      modifies this`npact, this`nextpid, procs, pact
      ensures npact == old(npact) + 1 && Active() == old(Active()) + [i]
      ensures procs[..] == was[i := old(procs[i]).(pid := pid, kstk := kstk, ptab := ptab, table := tab)]
      ensures forall k :: 0 <= k < |old(Active())| ==> old(Active())[k] < MAXPROCS
      ensures pid == nextpid >= Start(old(nextpid)) && pid !in Used(was, old(Active()))
      ensures forall q :: Start(old(nextpid)) <= q < pid ==> q in Used(was, old(Active()))
    {
      hide Used, Listed;
      ListedFull(was, Active());
      assert forall k :: 0 <= k < npact ==> pact[k] == Active()[k];
      UsedSame(was, procs[..], Active(), i);
      pid := Allocpid();
      procs[i] := procs[i].(pid := pid, kstk := kstk, ptab := ptab, table := tab);
      pact[npact] := i;
      npact := npact + 1;
      assert Active() == old(Active()) + [i];
    }

    /** sys_fork. It fails when the user or the table has too many processes or there are too few
        pages, and then nothing has changed; otherwise there is one new process, a child of the
        caller and in all other ways its copy, and its pages hold what the caller's do. */
    method Fork() returns (r: ForkResult, ghost slot: nat)
      requires Valid() && Alive(procs[..], curr)
      modifies this, procs, pact, mem, mem.flist
      ensures Valid() && curr == old(curr) && Alive(procs[..], curr)
      ensures OthersKept(old(mem.Free()), old(mem.data), mem.data)
      ensures r.ForkFailed? ==>
          && procs[..] == old(procs[..]) && Active() == old(Active()) && nextpid == old(nextpid)
          && mem.Free() == old(mem.Free()) && owner == old(owner)
      ensures r.ForkFailed? ==> r.errno in {EAGAIN, ENOMEM}
      ensures r == ForkFailed(EAGAIN) <==>
                || (old(|UserSlots(procs[..], procs[curr].ruid)|) >= MAXUPROC && old(procs[curr].euid) != 0)
                || old(npact) == MAXPROCS
      ensures r.Forked? ==> Rank(old(procs[curr].table), PTES) + 2 <= old(|mem.Free()|)
      ensures r == ForkFailed(ENOMEM) ==> Rank(old(procs[curr].table), PTES) + 2 > old(|mem.Free()|)
      ensures r.Forked? ==>
          && slot < MAXPROCS && ChildOf(old(procs[..]), procs[..], curr, slot, r.pid) && Active() == old(Active()) + [slot]
          && r.pid !in old(Used(procs[..], Active())) && r.pid == nextpid >= Start(old(nextpid))
          && (forall q :: Start(old(nextpid)) <= q < r.pid ==> q in old(Used(procs[..], Active())))
          && old(mem.Free()) == mem.Free() + Reversed(PagesOf(slot, procs[slot]))
          && SameData(procs[curr].table, procs[slot].table, PTES, old(mem.data), mem.data)
    {
      hide Used, UserSlots, Unique, Family, OwnedOnce, PagesOf, Listed, OthersKept, SameData, Reversed, Distinct;
      slot := 0;
      var may, i := MayFork();
      if !may {
        OthersKeptSame(mem.Free(), mem.data);
        return ForkFailed(EAGAIN), 0;
      }
      ghost var was := procs[..];
      var me := procs[curr];
      TableHeld(was, curr, mem.Free(), mem.data.Keys, owner);
      procs[i] := me.(parent := curr);
      var ok, kstk, ptab, tab := mem.Clone(me.table);
      KeysKept(old(mem.Free()), old(mem.data), mem.data);
      if !ok {
        procs[i] := None();
        BlankSlot(was, Active(), i);
        assert procs[..] == was;
        return ForkFailed(ENOMEM), 0;
      }
      var pid := Admit(i, kstk, ptab, tab, was, old(mem.Free()));
      slot := i;
      r := Forked(pid);
    }

    /** The loop of do_exit over the active processes. */
    method Orphan(ghost was: Procs)
      requires procs.Length == MAXPROCS && pact.Length == MAXPROCS && npact <= MAXPROCS && curr < MAXPROCS
      requires procs[..] == was && Listed(was, Active())
      modifies procs
      ensures forall i :: 0 <= i < MAXPROCS ==>
                procs[i] == if was[i].pid == 0 then was[i] else Orphaned(was[i], curr, was[curr].pid)
    {
      for k := 0 to npact
        invariant forall i :: 0 <= i < MAXPROCS ==>
                    procs[i] == if i in pact[..k] then Orphaned(was[i], curr, was[curr].pid) else was[i]
      {
        var i := pact[k];
        assert i == Active()[k] && i !in pact[..k];
        assert pact[..k + 1] == pact[..k] + [i];
        if procs[i].pid != 0 {
          if procs[i].parent == curr {
            procs[i] := procs[i].(parent := INIT);
          }
          if procs[i].psid == procs[curr].pid {
            procs[i] := procs[i].(psid := 0);
          }
        }
      }
    }

    /** do_exit. init does not exit. The process stays in the table, with its kernel stack, until its
        parent waits for it. */
    method Exit(status: int)
      requires Valid() && Alive(procs[..], curr) && curr != INIT
      modifies this, procs, mem, mem.flist
      ensures Valid() && curr == old(curr) && Active() == old(Active()) && nextpid == old(nextpid)
      ensures Left(old(procs[..]), procs[..], curr, status)
      ensures mem.Free() == old(mem.Free()) + Mapped(old(procs[curr].table), PTES) + [old(procs[curr].ptab)]
      ensures mem.data == old(mem.data)
    {
      hide Unique, Family, OwnedOnce, PagesOf, Distinct, Mapped, Empty;
      ghost var was := procs[..];
      Orphan(was);
      var tab, ptab := procs[curr].table, procs[curr].ptab;
      procs[curr] := Zombie(procs[curr], status);
      ExitKeeps(was, procs[..], Active(), depth, curr, status);
      ExitPages(was, procs[..], curr, status, mem.Free(), mem.data.Keys, owner);
      ExitedLeft(was, procs[..], Active(), depth, curr, status);
      assert mem.Free() + (Mapped(tab, PTES) + [ptab]) == mem.Free() + Mapped(tab, PTES) + [ptab];
      mem.Pcfree(tab, ptab);
      owner := PagesMove(was, procs[..], curr, old(mem.Free()), mem.Free(), mem.data.Keys, owner);
    }

    /** The end of sys_waitpid: the process in pact[k] leaves the table. */
    method Reap(k: nat)
      requires Valid() && k < npact && pact[k] != INIT && pact[k] != curr
      requires pact[k] < MAXPROCS && procs[pact[k]].pid != 0 && procs[pact[k]].exited
      modifies this, procs, pact, mem, mem.flist
      ensures Valid() && curr == old(curr) && nextpid == old(nextpid)
      ensures Gone(old(procs[..]), procs[..], old(Active()), Active(), k)
      ensures mem.Free() == old(mem.Free()) + [old(procs[pact[k]].kstk)] && mem.data == old(mem.data)
    {
      hide Unique, Family, OwnedOnce, PagesOf, Distinct, Empty, Listed;
      ghost var was := procs[..];
      var z := pact[k];
      ReapPages(was, z, mem.Free(), mem.data.Keys, owner);
      mem.Pfree(procs[z].kstk);
      procs[z] := None();
      npact := npact - 1;
      pact[k] := pact[npact];
      assert procs[..] == was[z := None()];
      assert Active() == Dropped(old(Active()), k);
      assert mem.Free() + PagesOf(z, None()) == mem.Free();
      ReapKeeps(was, procs[..], old(Active()), Active(), depth, k);
      owner := PagesMove(was, procs[..], z, old(mem.Free()), mem.Free(), mem.data.Keys, owner);
    }

    /** The loop of sys_waitpid: is there a child, is there one to report, and which. Of several it
        takes the last in the list. */
    method FindZombie(wpid: int) returns (c: bool, z: bool, k: nat)
      requires procs.Length == MAXPROCS && pact.Length == MAXPROCS && npact <= MAXPROCS
      requires forall j :: 0 <= j < npact ==> pact[j] < MAXPROCS
      ensures c <==> exists j :: 0 <= j < npact && Child(procs[pact[j]], curr)
      ensures z <==> exists j :: 0 <= j < npact && Waited(procs[pact[j]], curr, wpid)
      ensures z ==> k < npact && Waited(procs[pact[k]], curr, wpid)
      ensures z ==> forall j :: k < j < npact ==> !Waited(procs[pact[j]], curr, wpid)
    {
      c, z, k := false, false, 0;
      for i := 0 to npact
        invariant c <==> exists j :: 0 <= j < i && Child(procs[pact[j]], curr)
        invariant z <==> exists j :: 0 <= j < i && Waited(procs[pact[j]], curr, wpid)
        invariant z ==> k < i && Waited(procs[pact[k]], curr, wpid)
        invariant z ==> forall j :: k < j < i ==> !Waited(procs[pact[j]], curr, wpid)
      {
        var p := procs[pact[i]];
        if p.pid == 1 || p.pid == 0 || p.parent != curr { continue; }
        c := true;
        if p.exited && (wpid < 0 || p.pid == wpid || wpid == 0) {
          z, k := true, i;
        }
      }
    }

    /** One pass of sys_waitpid; Blocked is the call of idle, after which the pass is made again. */
    method Waitpid(wpid: int, nohang: bool) returns (r: WaitResult, k: nat)
      requires Valid() && Alive(procs[..], curr)
      modifies this, procs, pact, mem, mem.flist
      ensures Valid() && curr == old(curr) && Alive(procs[..], curr) && nextpid == old(nextpid)
      ensures r.NoChildren? <==> forall i :: 0 <= i < MAXPROCS && old(procs[..])[i].pid > 1 ==> old(procs[..])[i].parent != curr
      ensures r.Reaped? <==> exists i: nat :: Reapable(old(procs[..]), curr, wpid, i)
      ensures mem.data == old(mem.data)
      ensures r.NotYet? ==> nohang
      ensures r.Blocked? ==> !nohang
      ensures !r.Reaped? ==> procs[..] == old(procs[..]) && Active() == old(Active()) && mem.Free() == old(mem.Free())
      ensures r.Reaped? ==>
          && Gone(old(procs[..]), procs[..], old(Active()), Active(), k)
          && LastWaited(old(procs[..]), old(Active()), curr, wpid, k) && (wpid > 0 ==> r.pid == wpid)
          && r == Reaped(old(procs[..])[old(Active())[k]].pid, old(procs[..])[old(Active())[k]].status)
          && mem.Free() == old(mem.Free()) + [old(procs[..])[old(Active())[k]].kstk]
    {
      hide Unique, OwnedOnce, Distinct, Empty, Dropped, Listed, Child, Waited, Memory.Valid;
      ListedFull(procs[..], Active());
      ListedWaited(procs[..], Active(), curr, wpid);
      assert forall j :: 0 <= j < npact ==> pact[j] == Active()[j];
      var c, z;
      c, z, k := FindZombie(wpid);
      if !c { return NoChildren, k; }
      if !z { return if nohang then NotYet else Blocked, k; }
      WaitedEnded(procs[..], curr, wpid, pact[k]);
      var p := procs[pact[k]];
      assert pact[k] == Active()[k];
      r := Reaped(p.pid, p.status);
      Reap(k);
    }

    ghost function Now(): Scene
      requires npact <= pact.Length && procs.Length == MAXPROCS && mem.fcount <= mem.flist.Length
      reads this, procs, mem, mem.flist
    {
      Scene(procs[..], npact, |mem.Free()|, curr)
    }

    method DoFork(ghost log: seq<Event>) returns (ghost log': seq<Event>)
      requires Valid() && Alive(procs[..], curr) && Truthful(log) && Remembered(log, procs[..])
      modifies this, procs, pact, mem, mem.flist
      ensures Valid() && mem.data.Keys == old(mem.data.Keys) && Truthful(log') && Remembered(log', procs[..])
      ensures log' == log || (|log'| == |log| + 1 && log <= log' && log'[|log|].Born?)
      ensures Taken(CallFork, old(Now()), Now())
    {
      hide Listed, Family, OwnedOnce, Truthful, Remembered, OthersKept, SameData, Used, Reversed, PagesOf, UserSlots;
      log' := log;
      ghost var was, act := procs[..], Active();
      var r, slot := Fork();
      KeysKept(old(mem.Free()), old(mem.data), mem.data);
      if r.Forked? {
        BornRemembered(log, was, procs[..], act, curr, slot, r.pid);
        assert ChildOf(was, procs[..], curr, slot, r.pid);
        TruthfulMore(log, Born(r.pid));
        log' := log + [Born(r.pid)];
      }
    }

    method DoExit(status: int, ghost log: seq<Event>) returns (ghost log': seq<Event>)
      requires Valid() && Alive(procs[..], curr) && curr != INIT && Truthful(log) && Remembered(log, procs[..])
      modifies this, procs, mem, mem.flist
      ensures Valid() && mem.data.Keys == old(mem.data.Keys) && Truthful(log') && Remembered(log', procs[..])
      ensures log' == log + [Died(old(procs[curr].pid), status)]
      ensures Taken(CallExit(status), old(Now()), Now())
    {
      hide Listed, Family, OwnedOnce, Truthful, Remembered, Left, Mapped;
      ghost var was := procs[..];
      Exit(status);
      DiedRemembered(log, was, procs[..], curr, status);
      TruthfulMore(log, Died(was[curr].pid, status));
      log' := log + [Died(was[curr].pid, status)];
    }

    method DoWaitpid(wpid: int, nohang: bool, ghost log: seq<Event>) returns (ghost log': seq<Event>)
      requires Valid() && Alive(procs[..], curr) && Truthful(log) && Remembered(log, procs[..])
      modifies this, procs, pact, mem, mem.flist
      ensures Valid() && mem.data.Keys == old(mem.data.Keys) && Truthful(log') && Remembered(log', procs[..])
      ensures log' == log || (|log'| == |log| + 1 && log <= log' && log'[|log|].Reported?)
      ensures Taken(CallWaitpid(wpid, nohang), old(Now()), Now())
    {
      hide Listed, Family, OwnedOnce, Truthful, Remembered, Empty;
      log' := log;
      ghost var was, act := procs[..], Active();
      var r, k := Waitpid(wpid, nohang);
      if r.Reaped? {
        assert Reapable(was, curr, wpid, act[k]) && procs[..] == was[act[k] := None()];
        ReportedRemembered(log, was, procs[..], act, Active(), k);
        TruthfulMore(log, Reported(r.pid, r.status));
        log' := log + [Reported(r.pid, r.status)];
      }
    }

    /** Whatever processes do, and in whatever order they run, the table stays in order, no page is lost or
        held twice, the set of pool pages stays what it was, and whoever is told of a child is told the status
        that the child left with, once. trace is what there was before each step and at the end. */
    method Run(steps: seq<Step>) returns (ghost log: seq<Event>, ghost trace: seq<Scene>)
      requires Valid()
      modifies this, procs, pact, mem, mem.flist
      ensures Valid() && mem.data.Keys == old(mem.data.Keys)
      ensures Deaths(old(procs[..])) <= log && Truthful(log)
      ensures |trace| == |steps| + 1 && trace[0] == old(Now()) && trace[|steps|] == Now()
      ensures forall n :: 0 <= n < |steps| ==> Taken(steps[n], trace[n], trace[n + 1])
    {
      hide Listed, Unique, Family, OwnedOnce, Remembered, Truthful, Deaths, CanFork, Left, ChildOf;
      log := Deaths(procs[..]);
      trace := [Now()];
      DeathsRemembered(procs[..]);
      for n := 0 to |steps|
        invariant Valid() && mem.data.Keys == old(mem.data.Keys)
        invariant Deaths(old(procs[..])) <= log && Truthful(log) && Remembered(log, procs[..])
        invariant |trace| == n + 1 && trace[0] == old(Now()) && trace[n] == Now()
        invariant forall m :: 0 <= m < n ==> Taken(steps[m], trace[m], trace[m + 1])
      {
        log := DoStep(steps[n], log);
        trace := trace + [Now()];
      }
    }

    method DoStep(step: Step, ghost log: seq<Event>) returns (ghost log': seq<Event>)
      requires Valid() && Truthful(log) && Remembered(log, procs[..])
      modifies this, procs, pact, mem, mem.flist
      ensures Valid() && mem.data.Keys == old(mem.data.Keys) && Truthful(log') && Remembered(log', procs[..]) && log <= log'
      ensures Taken(step, old(Now()), Now())
    {
      hide Listed, Unique, Family, OwnedOnce, Remembered, Truthful, Left, ChildOf, UserSlots, Rank, Reapable;
      log' := log;
      var running := procs[curr].pid != 0 && !procs[curr].exited;
      match step
      case CallFork =>
        if running { log' := DoFork(log); }
      case CallExit(status) =>
        if running && curr != INIT { log' := DoExit(status, log); }
      case CallWaitpid(wpid, nohang) =>
        if running { log' := DoWaitpid(wpid, nohang, log); }
      case Choose(slot) =>
        if slot < MAXPROCS && procs[slot].pid != 0 && !procs[slot].exited { curr := slot; }
    }
  }
}
