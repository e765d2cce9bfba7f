/** The stack of free pages, kern/page.c, and the copying of a process image over it,
    kern/ualloc.c and the memory part of sys_fork. */
module Pages {
  const MAXPG := 16384
  const PTES := 1024

  /** The contents of a page. */
  type Data = seq<int>

  const ZERO: Data := seq(4096, _ => 0)

  function PageOf(pte: nat): nat { pte / 4096 }

  /** (unsigned)p | 7 for the address of page pg. */
  function Pte(pg: nat): (e: nat)
    ensures PageOf(e) == pg && e != 0
  {
    pg * 4096 + 7
  }

  type Table = t: seq<nat> | |t| == PTES witness seq(PTES, _ => 0)

  function Empty(): (t: Table)
    ensures forall i :: 0 <= i < PTES ==> t[i] == 0
  {
    seq(PTES, i => 0)
  }

  /** The number of entries in use among the first n. */
  function Rank(t: Table, n: nat): (r: nat)
    requires n <= PTES
    ensures r <= n
  {
    if n == 0 then 0 else Rank(t, n - 1) + if t[n - 1] != 0 then 1 else 0
  }

  lemma {:induction false} RankMonotone(t: Table, n: nat, m: nat)
    requires n <= m <= PTES
    ensures Rank(t, n) <= Rank(t, m)
    ensures n < m && t[n] != 0 ==> Rank(t, n) < Rank(t, m)
  {
    if n < m {
      RankMonotone(t, n, m - 1);
    }
  }

  /** The pages a table maps, in index order. */
  function Mapped(t: Table, n: nat): (s: seq<nat>)
    requires n <= PTES
    ensures |s| == Rank(t, n)
  {
    if n == 0 then [] else Mapped(t, n - 1) + if t[n - 1] != 0 then [PageOf(t[n - 1])] else []
  }

  lemma {:induction false} MappedPrefix(t: Table, n: nat, m: nat)
    requires n <= m <= PTES
    ensures Mapped(t, n) <= Mapped(t, m)
  {
    if n < m {
      MappedPrefix(t, n, m - 1);
    }
  }

  ghost predicate Distinct(s: seq<nat>) {
    forall i, j :: 0 <= i < j < |s| ==> s[i] != s[j]
  }

  lemma {:induction false} Pigeonhole(s: seq<nat>, n: nat)
    requires Distinct(s) && forall i :: 0 <= i < |s| ==> s[i] < n
    ensures |s| <= n
  {
    if s == [] {
      return;
    }
    assert s[0] < n;
    if n - 1 in s {
      var i :| 0 <= i < |s| && s[i] == n - 1;
      Pigeonhole(s[..i] + s[i + 1..], n - 1);
    } else {
      Pigeonhole(s, n - 1);
    }
  }

  lemma TopIsOut(s: seq<nat>, n: nat)
    requires Distinct(s) && n < |s|
    ensures Distinct(s[..n]) && s[n] !in s[..n] && s[..n + 1] == s[..n] + [s[n]]
  {
    assert forall i :: 0 <= i < n ==> s[i] != s[n];
  }

  /** A page about to be released is not among those released before it. */
  lemma NextIsOut(free: seq<nat>, t: Table, i: nat, ptab: nat)
    requires i < PTES && t[i] != 0 && Distinct(free + Mapped(t, PTES) + [ptab])
    ensures PageOf(t[i]) !in free + Mapped(t, i)
    ensures Mapped(t, i + 1) == Mapped(t, i) + [PageOf(t[i])] && PageOf(t[i]) in Mapped(t, PTES)
  {
    hide PageOf;
    MappedPrefix(t, i + 1, PTES);
    var all, n := free + Mapped(t, PTES) + [ptab], |free| + |Mapped(t, i)|;
    assert all[..n] == free + Mapped(t, i) && all[n] == PageOf(t[i]);
    TopIsOut(all, n);
  }

  /** t maps the first n indexes that s maps, and each to its own page from the top of the free list. */
  ghost predicate Copied(s: Table, t: Table, n: nat, free: seq<nat>)
    requires n <= PTES
  {
    forall i :: 0 <= i < n ==>
      if s[i] == 0 then t[i] == 0 else Rank(s, i) < |free| && t[i] == Pte(free[|free| - 1 - Rank(s, i)])
  }

  /** Each page the copy maps holds what the page copied from held at the start. */
  ghost predicate SameData(s: Table, t: Table, n: nat, was: map<nat, Data>, now: map<nat, Data>)
    requires n <= PTES
  {
    forall i :: 0 <= i < n && s[i] != 0 ==>
      PageOf(s[i]) in was && PageOf(t[i]) in now && now[PageOf(t[i])] == was[PageOf(s[i])]
  }

  /** Only pages of the given list have changed. */
  ghost predicate OthersKept(free: seq<nat>, was: map<nat, Data>, now: map<nat, Data>) {
    now.Keys == was.Keys && forall pg :: pg in was && pg !in free ==> now[pg] == was[pg]
  }

  function Reversed(s: seq<nat>): (r: seq<nat>)
    ensures |r| == |s| && forall i :: 0 <= i < |s| ==> r[i] == s[|s| - 1 - i]
  {
    if s == [] then [] else Reversed(s[1..]) + [s[0]]
  }

  lemma ReversedNext(s: seq<nat>)
    ensures Reversed(s) == if s == [] then [] else Reversed(s[1..]) + [s[0]]
  {
  }

  lemma CopiedAt(s: Table, t: Table, n: nat, free: seq<nat>)
    requires n < PTES && Copied(s, t, n + 1, free)
    ensures Copied(s, t, n, free)
    ensures if s[n] == 0 then t[n] == 0 else Rank(s, n) < |free| && t[n] == Pte(free[|free| - 1 - Rank(s, n)])
  {
  }

  /** The pages a copy maps are those taken off the free list, the last one first. */
  lemma {:induction false} CopyMapsTop(s: Table, t: Table, n: nat, free: seq<nat>)
    requires n <= PTES && Copied(s, t, n, free)
    ensures Rank(t, n) == Rank(s, n) <= |free|
    ensures Mapped(t, n) == Reversed(free[|free| - Rank(s, n)..])
  {
    hide Copied, Pte, PageOf, Reversed;
    if n == 0 {
      ReversedNext(free[|free|..]);
    } else {
      CopiedAt(s, t, n - 1, free);
      CopyMapsTop(s, t, n - 1, free);
      var k := Rank(s, n - 1);
      if s[n - 1] != 0 {
        var top := free[|free| - 1 - k..];
        assert top[0] == free[|free| - 1 - k] && top[1..] == free[|free| - k..];
        ReversedNext(top);
      }
    }
  }

  lemma Nothing(s: Table, t: Table, free: seq<nat>, data: map<nat, Data>)
    ensures Rank(s, 0) == 0 && Copied(s, t, 0, free) && SameData(s, t, 0, data, data)
  {
  }

  lemma CopyNone(s: Table, t: Table, i: nat, free: seq<nat>, was: map<nat, Data>, now: map<nat, Data>)
    requires i < PTES && s[i] == 0 && t[i] == 0
    requires Copied(s, t, i, free) && SameData(s, t, i, was, now)
    ensures Rank(s, i + 1) == Rank(s, i) && Copied(s, t, i + 1, free) && SameData(s, t, i + 1, was, now)
  {
  }

  /** Copying one more page, to the next one off the free list. */
  lemma CopyStep(s: Table, t: Table, i: nat, free: seq<nat>, was: map<nat, Data>, now: map<nat, Data>)
    requires i < PTES && s[i] != 0 && Rank(s, i) < |free| && Distinct(free)
    requires Copied(s, t, i, free) && SameData(s, t, i, was, now) && OthersKept(free, was, now)
    requires PageOf(s[i]) in now && PageOf(s[i]) !in free && free[|free| - 1 - Rank(s, i)] in now
    ensures var dp := free[|free| - 1 - Rank(s, i)];
            var t' := t[i := Pte(dp)];
            var now' := now[dp := now[PageOf(s[i])]];
            && Copied(s, t', i + 1, free) && SameData(s, t', i + 1, was, now') && OthersKept(free, was, now')
  {
    hide Pte, PageOf, Copied, SameData, Distinct, Rank;
    var dp := free[|free| - 1 - Rank(s, i)];
    var t' := t[i := Pte(dp)];
    var now' := now[dp := now[PageOf(s[i])]];
    forall k | 0 <= k < i && s[k] != 0
      ensures PageOf(t[k]) != dp
    {
      CopiedApart(s, t, k, i, free);
    }
    DataStep(s, t, t', i, was, now, now', dp);
    CopiedStep(s, t, t', i, free);
  }

  lemma CopiedStep(s: Table, t: Table, t': Table, i: nat, free: seq<nat>)
    requires i < PTES && s[i] != 0 && Rank(s, i) < |free| && Copied(s, t, i, free)
    requires t' == t[i := Pte(free[|free| - 1 - Rank(s, i)])]
    ensures Copied(s, t', i + 1, free)
  {
    hide Pte, Rank;
  }

  lemma CopiedApart(s: Table, t: Table, k: nat, i: nat, free: seq<nat>)
    requires k < i < PTES && s[k] != 0 && Copied(s, t, i, free) && Rank(s, i) < |free| && Distinct(free)
    ensures PageOf(t[k]) != free[|free| - 1 - Rank(s, i)]
  {
    RankMonotone(s, k, i);
  }

  lemma DataStep(s: Table, t: Table, t': Table, i: nat, was: map<nat, Data>, now: map<nat, Data>, now': map<nat, Data>,
                 dp: nat)
    requires i < PTES && s[i] != 0 && SameData(s, t, i, was, now)
    requires PageOf(s[i]) in was && PageOf(s[i]) in now && was[PageOf(s[i])] == now[PageOf(s[i])]
    requires t' == t[i := Pte(dp)] && now' == now[dp := now[PageOf(s[i])]]
    requires forall k :: 0 <= k < i && s[k] != 0 ==> PageOf(t[k]) != dp
    ensures SameData(s, t', i + 1, was, now')
  {
    hide Pte, PageOf;
  }

  /** A complete image is made of the pages taken off the free list, in the order they were taken. */
  lemma CloneStacks(s: Table, t: Table, free: seq<nat>, ptab: nat, kstk: nat)
    requires Copied(s, t, PTES, free)
    ensures Rank(s, PTES) <= |free|
    ensures free + [ptab] + [kstk] == free[..|free| - Rank(s, PTES)] + Reversed([kstk, ptab] + Mapped(t, PTES))
    ensures forall i :: 0 <= i < PTES ==> (t[i] != 0 <==> s[i] != 0)
  {
    hide Rank, Mapped, PageOf;
    CopyMapsTop(s, t, PTES, free);
    var r := Rank(s, PTES);
    assert Reversed([kstk, ptab] + Mapped(t, PTES)) == free[|free| - r..] + [ptab] + [kstk];
  }

  lemma SameDataSince(s: Table, t: Table, was: map<nat, Data>, mid: map<nat, Data>, now: map<nat, Data>)
    requires SameData(s, t, PTES, mid, now)
    requires forall i :: 0 <= i < PTES && s[i] != 0 ==>
               PageOf(s[i]) in was && PageOf(s[i]) in mid && was[PageOf(s[i])] == mid[PageOf(s[i])]
    ensures SameData(s, t, PTES, was, now)
  {
  }

  lemma OthersSince(free: seq<nat>, rest: seq<nat>, was: map<nat, Data>, mid: map<nat, Data>, now: map<nat, Data>)
    requires OthersKept(rest, mid, now) && (forall pg :: pg in rest ==> pg in free)
    requires mid.Keys == was.Keys && forall pg :: pg in was && pg !in free ==> mid[pg] == was[pg]
    ensures OthersKept(free, was, now)
  {
  }

  lemma OnlyKept(free: seq<nat>, was: map<nat, Data>, now: map<nat, Data>)
    requires now.Keys == was.Keys && forall pg :: pg in was && pg !in free ==> now[pg] == was[pg]
    ensures OthersKept(free, was, now)
  {
  }

  class Memory {
    const flist: array<nat>
    var fcount: nat
    /** The contents of the pages. */
    var data: map<nat, Data>

    constructor (list: array<nat>, n: nat, contents: map<nat, Data>)
      ensures flist == list && fcount == n && data == contents
    {
      flist, fcount, data := list, n, contents;
    }

    /** The free list has no repetitions, and page 0 is not a page of the pool. */
    ghost predicate Valid()
      reads this, flist
    {
      && flist.Length == MAXPG && fcount <= MAXPG
      && Distinct(Free()) && (forall pg :: pg in Free() ==> pg in data) && (forall pg :: pg in data ==> 0 < pg < MAXPG)
    }

    /** The free pages, top last. */
    ghost function Free(): seq<nat>
      requires fcount <= flist.Length
      reads this`fcount, flist
    {
      flist[..fcount]
    }

    /** palloc; 0 means there is none. */
    method Palloc() returns (pg: nat)
      requires Valid()
      modifies this`fcount
      ensures Valid()
      ensures if old(Free()) == [] then pg == 0 && Free() == [] else old(Free()) == Free() + [pg] && pg in data
      ensures pg !in Free()
    {
      if fcount == 0 { return 0; }
      fcount := fcount - 1;
      pg := flist[fcount];
      assert pg in old(Free());
    }

    /** zpalloc. */
    method Zpalloc() returns (pg: nat)
      requires Valid()
      modifies this`fcount, this`data
      ensures Valid()
      ensures if old(Free()) == [] then pg == 0 && Free() == [] else old(Free()) == Free() + [pg] && pg in data
      ensures pg !in Free()
      ensures data == if pg == 0 then old(data) else old(data)[pg := ZERO]
    {
      pg := Palloc();
      if pg != 0 {
        data := data[pg := ZERO];
      }
    }

    /** pg_free and pfree. A page that is not free already always finds room on the stack, so the
        panic cannot happen. */
    method Pfree(pg: nat)
      requires Valid() && (pg != 0 ==> pg !in Free() && pg in data)
      modifies this`fcount, flist
      ensures Valid()
      ensures Free() == if pg == 0 then old(Free()) else old(Free()) + [pg]
    {
      if pg != 0 {
        forall i | 0 <= i < |Free() + [pg]| ensures (Free() + [pg])[i] < MAXPG {
          assert (Free() + [pg])[i] in data;
        }
        Pigeonhole(Free() + [pg], MAXPG);
        flist[fcount] := pg;
        fcount := fcount + 1;
        assert Free() == old(Free()) + [pg];
      }
    }

    /** One turn of the failure loop of pccopy. */
    method GiveBack(ntab: array<nat>, k: nat, ghost stab: Table, ghost was: seq<nat>)
      requires Valid() && ntab.Length == PTES && ntab != flist && k < PTES
      requires Distinct(was) && forall pg :: pg in was ==> pg in data
      requires Rank(stab, k + 1) <= |was| && Free() == was[..|was| - Rank(stab, k + 1)]
      requires Copied(stab, ntab[..], k + 1, was)
      modifies this`fcount, flist, ntab
      ensures Valid() && Rank(stab, k) <= |was| && Free() == was[..|was| - Rank(stab, k)]
      ensures ntab[..] == old(ntab[..])[k := 0]
    {
      hide Distinct, PageOf, Pte;
      ghost var top := |was| - Rank(stab, k + 1);
      if ntab[k] != 0 {
        TopIsOut(was, top);
        Pfree(PageOf(ntab[k]));
        ntab[k] := 0;
      }
    }

    /** The failure path of pccopy: gives the pages back, from index i down. */
    method Rollback(ntab: array<nat>, i: nat, ghost stab: Table, ghost was: seq<nat>)
      requires Valid() && ntab.Length == PTES && ntab != flist && i < PTES
      requires Distinct(was) && forall pg :: pg in was ==> pg in data
      requires Rank(stab, i) <= |was| && Free() == was[..|was| - Rank(stab, i)]
      requires Copied(stab, ntab[..], i, was) && forall k :: i <= k < PTES ==> ntab[k] == 0
      modifies this`fcount, flist, ntab
      ensures Valid() && Free() == was && ntab[..] == Empty()
    {
      hide Distinct, PageOf, Pte, Rank;
      // ntab[i] is still 0, so the first turn does nothing
      var k: int := i - 1;
      while k >= 0
        invariant -1 <= k < i && Valid()
        invariant Rank(stab, k + 1) <= |was| && Free() == was[..|was| - Rank(stab, k + 1)]
        invariant Copied(stab, ntab[..], k + 1, was)
        invariant forall j :: k < j < PTES ==> ntab[j] == 0
      {
        GiveBack(ntab, k, stab, was);
        k := k - 1;
      }
    }

    /** One turn of the copying loop of pccopy. */
    method CopyPage(stab: Table, ntab: array<nat>, i: nat, ghost was: seq<nat>, ghost before: map<nat, Data>)
      returns (ok: bool)
      requires Valid() && ntab.Length == PTES && ntab != flist && i < PTES && ntab[i] == 0
      requires Distinct(was) && Rank(stab, i) <= |was| && Free() == was[..|was| - Rank(stab, i)]
      requires stab[i] != 0 ==> PageOf(stab[i]) in data && PageOf(stab[i]) !in was
      requires OthersKept(was, before, data)
      requires Copied(stab, ntab[..], i, was) && SameData(stab, ntab[..], i, before, data)
      modifies this`fcount, this`data, ntab
      ensures Valid() && OthersKept(was, before, data)
      ensures ok <==> Rank(stab, i + 1) <= |was|
      ensures !ok ==> Free() == old(Free()) && ntab[..] == old(ntab[..]) && Rank(stab, i) == |was|
      ensures ok ==>
          && Free() == was[..|was| - Rank(stab, i + 1)] && (forall k :: i < k < PTES ==> ntab[k] == old(ntab[k]))
          && Copied(stab, ntab[..], i + 1, was) && SameData(stab, ntab[..], i + 1, before, data)
    {
      hide Distinct, PageOf, Pte, Copied, SameData, OthersKept;
      ghost var t: Table := ntab[..];
      if stab[i] == 0 {
        CopyNone(stab, t, i, was, before, data);
        return true;
      }
      var sp := PageOf(stab[i]);
      var dp := Palloc();
      if dp == 0 { return false; }
      TopIsOut(was, |was| - Rank(stab, i) - 1);
      CopyStep(stab, t, i, was, before, data);
      ntab[i] := Pte(dp);
      data := data[dp := data[sp]];
      ok := true;
      assert ntab[..] == t[i := Pte(dp)];
    }

    /** pccopy. Whether it fails depends on the number of free pages alone; when it does, the free
        list is as it was, order included. */
    method Pccopy(stab: Table, ntab: array<nat>) returns (ok: bool)
      requires Valid() && ntab.Length == PTES && ntab != flist && ntab[..] == Empty()
      requires forall i :: 0 <= i < PTES && stab[i] != 0 ==> PageOf(stab[i]) in data && PageOf(stab[i]) !in Free()
      modifies this`fcount, this`data, flist, ntab
      ensures Valid() && OthersKept(old(Free()), old(data), data)
      ensures ok <==> Rank(stab, PTES) <= old(|Free()|)
      ensures ok ==>
          && Free() == old(Free())[..old(|Free()|) - Rank(stab, PTES)]
          && Copied(stab, ntab[..], PTES, old(Free())) && SameData(stab, ntab[..], PTES, old(data), data)
      ensures !ok ==> Free() == old(Free()) && ntab[..] == Empty()
    {
      hide Distinct, PageOf, Pte, Rank, Copied, SameData;
      ghost var was := Free();
      Nothing(stab, ntab[..], was, data);
      for i := 0 to PTES
        invariant Valid() && Rank(stab, i) <= |was| && Free() == was[..|was| - Rank(stab, i)]
        invariant forall k :: i <= k < PTES ==> ntab[k] == 0
        invariant OthersKept(was, old(data), data)
        invariant Copied(stab, ntab[..], i, was) && SameData(stab, ntab[..], i, old(data), data)
      {
        ok := CopyPage(stab, ntab, i, was, old(data));
        if !ok {
          RankMonotone(stab, i + 1, PTES);
          Rollback(ntab, i, stab, was);
          return false;
        }
      }
      ok := true;
    }

    /** pcfree: the pages of the table in index order, then the page that holds the table. */
    method Pcfree(tab: Table, ptab: nat)
      requires Valid() && ptab in data
      requires Distinct(Free() + Mapped(tab, PTES) + [ptab]) && forall pg :: pg in Mapped(tab, PTES) ==> pg in data
      modifies this`fcount, flist
      ensures Valid() && Free() == old(Free()) + Mapped(tab, PTES) + [ptab]
    {
      hide PageOf, Distinct;
      for i := 0 to PTES
        invariant Valid() && Free() == old(Free()) + Mapped(tab, i)
      {
        FreeEntry(tab, i, old(Free()), ptab);
      }
      TopIsOut(old(Free()) + Mapped(tab, PTES) + [ptab], |Free()|);
      Pfree(ptab);
    }

    /** The loop body of pcfree. */
    method FreeEntry(tab: Table, i: nat, ghost was: seq<nat>, ghost ptab: nat)
      requires Valid() && i < PTES && Free() == was + Mapped(tab, i)
      requires Distinct(was + Mapped(tab, PTES) + [ptab]) && forall pg :: pg in Mapped(tab, PTES) ==> pg in data
      modifies this`fcount, flist
      ensures Valid() && Free() == was + Mapped(tab, i + 1)
    {
      hide PageOf, Distinct;
      if tab[i] != 0 {
        NextIsOut(was, tab, i, ptab);
        Pfree(PageOf(tab[i]));
      }
    }

    /** The memory of a new process, the part of sys_fork between the choice of a slot and that of a
        pid. All or nothing: either the image is complete or the free list is as it was. */
    method Clone(stab: Table) returns (ok: bool, kstk: nat, ptab: nat, tab: Table)
      requires Valid()
      requires forall i :: 0 <= i < PTES && stab[i] != 0 ==> PageOf(stab[i]) in data && PageOf(stab[i]) !in Free()
      modifies this`fcount, this`data, flist
      ensures Valid() && OthersKept(old(Free()), old(data), data)
      ensures ok <==> Rank(stab, PTES) + 2 <= old(|Free()|)
      ensures !ok ==> Free() == old(Free())
      ensures ok ==> old(Free()) == Free() + Reversed([kstk, ptab] + Mapped(tab, PTES))
      ensures ok ==> forall i :: 0 <= i < PTES ==> (tab[i] != 0 <==> stab[i] != 0)
      ensures ok ==> SameData(stab, tab, PTES, old(data), data)
    {
      hide Rank, Mapped, PageOf, Copied, SameData, Distinct, Reversed, OthersKept;
      ghost var was, before := Free(), data;
      kstk := Palloc();
      ptab := Zpalloc();
      ok, tab := false, Empty();
      OnlyKept(was, before, data);
      if kstk != 0 && ptab != 0 {
        var page := new nat[PTES](_ => 0);
        assert page[..] == Empty();
        ghost var pool, mid := Free(), data;
        ok := Pccopy(stab, page);
        tab := page[..];
        if ok {
          CloneStacks(stab, tab, pool, ptab, kstk);
          SameDataSince(stab, tab, before, mid, data);
        }
        OthersSince(was, pool, before, mid, data);
      }
      if !ok {
        assert kstk != 0 ==> kstk !in Free() + [ptab];
        Pfree(ptab);
        Pfree(kstk);
      }
    }
  }
}
