/** The selection loop of sched() in kern/process.c, and how long a process can be kept waiting. */
module Sched {
  const TIME_SLICE := 10
  const MAX_TIME_SLICE := 50

  /** The fields of struct process that the scheduler looks at. */
  datatype Proc = Proc(pid: nat, exited: bool, slice: int) {
    predicate Runnable() { pid != 0 && !exited }

    /** The process after one visit of the selection loop. */
    function Visited(): Proc {
      this.(slice := if slice + TIME_SLICE > MAX_TIME_SLICE then MAX_TIME_SLICE else slice + TIME_SLICE)
    }
  }

  /** The active processes in pact order, and the index the next visit starts from. */
  datatype Rota = Rota(procs: seq<Proc>, next: nat) {
    function Place(): nat { if next >= |procs| then 0 else next }

    /** One turn of the selection loop. */
    function Visit(): Rota
      requires procs != []
    {
      Rota(procs[Place() := procs[Place()].Visited()], Place() + 1)
    }

    /** That turn ends the loop. */
    predicate Stops()
      requires procs != []
    {
      procs[Place()].Runnable() && procs[Place()].Visited().slice > 0
    }
  }

  /** The number of visits after which a process with slice s can run. */
  function Needed(s: int): (n: nat)
    ensures n >= 1
  {
    if s > 0 then 1 else -s / TIME_SLICE + 1
  }

  /** How many turns from now process r is visited, counting from 0. */
  function Distance(next: nat, n: nat, r: nat): nat
    requires r < n
  {
    var p := if next >= n then 0 else next;
    if p <= r then r - p else n - p + r
  }

  /** The number of turns of the loop that can pass before the one that picks r. */
  function Wait(q: Rota, r: nat): (w: nat)
    requires r < |q.procs|
  {
    (Needed(q.procs[r].slice) - 1) * |q.procs| + Distance(q.next, |q.procs|, r)
  }

  lemma WaitBound(q: Rota, r: nat)
    requires r < |q.procs|
    ensures Wait(q, r) < Needed(q.procs[r].slice) * |q.procs|
  {
    var n := |q.procs|;
    assert (Needed(q.procs[r].slice) - 1) * n + n == Needed(q.procs[r].slice) * n;
  }

  /** Every turn of the loop that does not pick r brings it one turn nearer. */
  lemma VisitNears(q: Rota, r: nat)
    requires r < |q.procs| && q.procs[r].Runnable()
    ensures (q.Stops() && q.Place() == r) || Wait(q.Visit(), r) == Wait(q, r) - 1
  {
    var n := |q.procs|;
    var s := q.procs[r].slice;
    if q.Place() == r && !q.Stops() {
      assert s <= -TIME_SLICE;
      assert Needed(s + TIME_SLICE) == Needed(s) - 1;
      assert (Needed(s) - 1) * n == (Needed(s) - 2) * n + n;
    } else if q.Place() != r {
      assert q.Visit().procs[r] == q.procs[r];
    }
  }

  /** The outcome of the selection loop: the rota afterwards and the index picked. The witness
      r is any runnable process; the loop ends because r is reached at the latest. */
  function Pick(q: Rota, ghost r: nat): (o: (Rota, nat))
    requires r < |q.procs| && q.procs[r].Runnable()
    ensures |o.0.procs| == |q.procs| && o.1 < |q.procs|
    ensures o.0.procs[o.1].Runnable() && o.0.procs[o.1].slice > 0
    ensures forall i :: 0 <= i < |q.procs| ==> o.0.procs[i].(slice := 0) == q.procs[i].(slice := 0)
    ensures o.1 == r || Wait(o.0, r) < Wait(q, r)
    decreases Wait(q, r)
  {
    VisitNears(q, r);
    if q.Stops() then (q.Visit(), q.Place()) else Pick(q.Visit(), r)
  }

  /** The pick does not depend on which runnable process vouches for the end of the loop. */
  lemma {:induction false} PickUnique(q: Rota, r: nat, r': nat)
    requires r < |q.procs| && q.procs[r].Runnable() && r' < |q.procs| && q.procs[r'].Runnable()
    ensures Pick(q, r) == Pick(q, r')
    decreases Wait(q, r)
  {
    VisitNears(q, r);
    if !q.Stops() {
      PickUnique(q.Visit(), r, r');
    }
  }

  /** The turns that the selection takes. */
  function Turns(q: Rota, ghost r: nat): (w: nat)
    requires r < |q.procs| && q.procs[r].Runnable()
    ensures 0 < w <= Wait(q, r) + 1
    decreases Wait(q, r)
  {
    VisitNears(q, r);
    if q.Stops() then 1 else 1 + Turns(q.Visit(), r)
  }

  /** How many of the next w turns come to place i of n. */
  function Rounds(next: nat, n: nat, i: nat, w: nat): nat
    decreases w
  {
    if w == 0 then 0
    else
      var p := if next >= n then 0 else next;
      Rounds(p + 1, n, i, w - 1) + if p == i then 1 else 0
  }

  /** A slice after k turns, of which each is worth TIME_SLICE, up to MAX_TIME_SLICE. */
  function Credit(s: int, k: nat): int {
    if k == 0 then s else if s + k * TIME_SLICE > MAX_TIME_SLICE then MAX_TIME_SLICE else s + k * TIME_SLICE
  }

  /** What a selection leaves of every slice: it has grown by the turns that came to it, up to the limit. */
  lemma {:induction false} PickCredits(q: Rota, r: nat, i: nat)
    requires r < |q.procs| && q.procs[r].Runnable() && i < |q.procs|
    ensures Pick(q, r).0.procs[i].slice == Credit(q.procs[i].slice, Rounds(q.next, |q.procs|, i, Turns(q, r)))
    decreases Wait(q, r)
  {
    VisitNears(q, r);
    if !q.Stops() {
      PickCredits(q.Visit(), r, i);
    }
  }

  /** No process is given more than one turn more than another, and none that comes later any more. */
  lemma {:induction false} RoundsEven(next: nat, n: nat, i: nat, j: nat, w: nat)
    requires i < n && j < n
    ensures Rounds(next, n, i, w) <= Rounds(next, n, j, w) + 1
    ensures Distance(next, n, j) <= Distance(next, n, i) ==> Rounds(next, n, i, w) <= Rounds(next, n, j, w)
    decreases w
  {
    if w > 0 {
      var p := if next >= n then 0 else next;
      RoundsEven(p + 1, n, i, j, w - 1);
    }
  }

  class Scheduler {
    /** proc[] and pact[0..npact), the latter as indices into the former. */
    const procs: array<Proc>
    const pact: array<nat>
    var npact: nat
    var next: nat

    constructor (table: array<Proc>, active: array<nat>, n: nat)
      ensures procs == table && pact == active && npact == n && next == 0
    {
      procs, pact, npact, next := table, active, n, 0;
    }

    ghost predicate Valid()
      reads this, procs, pact
    {
      && npact <= pact.Length
      && (forall i :: 0 <= i < npact ==> pact[i] < procs.Length)
      && (forall i, j :: 0 <= i < j < npact ==> pact[i] != pact[j])
    }

    ghost function View(): (q: Rota)
      requires Valid()
      reads this, procs, pact
      ensures |q.procs| == npact
    {
      Rota(seq(npact, i requires 0 <= i < npact && Valid() reads this, procs, pact => procs[pact[i]]), next)
    }

    /** The head of the selection loop: the next process of pact, with its credit. */
    method Advance() returns (p: nat, ghost i: nat)
      requires Valid() && npact > 0
      modifies this`next, procs
      ensures Valid() && View() == old(View()).Visit()
      ensures i == old(View()).Place() && p == pact[i] && procs[p] == View().procs[i]
    {
      if next >= npact {
        next := 0;
      }
      i := next;
      p := pact[next];
      next := next + 1;
      procs[p] := procs[p].Visited();
    }

    /** The selection loop of sched; it assumes that some active process, r, can run. */
    method Select(ghost r: nat) returns (p: nat, ghost i: nat)
      requires Valid() && r < npact && View().procs[r].Runnable()
      modifies this`next, procs
      ensures Valid() && i < npact && p == pact[i] && (View(), i) == Pick(old(View()), r)
    {
      hide Wait;
      while true
        invariant Valid() && View().procs[r].Runnable() && Pick(View(), r) == Pick(old(View()), r)
        decreases Wait(View(), r)
      {
        VisitNears(View(), r);
        p, i := Advance();
        if procs[p].pid == 0 { continue; }
        if procs[p].exited { continue; }
        if procs[p].slice > 0 { return; }
      }
    }
  }

  /** The rota after a call of sched and the ticks that the picked process then runs for: the
      clock takes a tick off the slice of the running process only. */
  function Turn(q: Rota, r: nat, ticks: nat): (q': Rota)
    requires r < |q.procs| && q.procs[r].Runnable()
    ensures |q'.procs| == |q.procs| && q'.procs[r].Runnable()
  {
    var (q1, p) := Pick(q, r);
    q1.(procs := q1.procs[p := q1.procs[p].(slice := q1.procs[p].slice - ticks)])
  }

  /** r is picked by one of the calls of sched of a run; ticks says how long the process picked
      by each call runs. */
  predicate Picked(q: Rota, r: nat, ticks: seq<nat>)
    requires r < |q.procs| && q.procs[r].Runnable()
    decreases |ticks|
  {
    ticks != [] && (Pick(q, r).1 == r || Picked(Turn(q, r, ticks[0]), r, ticks[1..]))
  }

  /** No runnable process is starved: as long as the same processes are active, r is picked within
      as many calls of sched as there are active processes, times the visits its slice needs. */
  lemma {:induction false} NoStarvation(q: Rota, r: nat, ticks: seq<nat>)
    requires r < |q.procs| && q.procs[r].Runnable()
    requires |ticks| >= |q.procs| * Needed(q.procs[r].slice)
    ensures Picked(q, r, ticks)
  {
    WaitBound(q, r);
    PickedWithinWait(q, r, ticks);
  }

  lemma {:induction false} PickedWithinWait(q: Rota, r: nat, ticks: seq<nat>)
    requires r < |q.procs| && q.procs[r].Runnable() && |ticks| > Wait(q, r)
    ensures Picked(q, r, ticks)
    decreases |ticks|
  {
    if Pick(q, r).1 != r {
      PickedWithinWait(Turn(q, r, ticks[0]), r, ticks[1..]);
    }
  }
}
