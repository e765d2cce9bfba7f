/** The heap of lib/malloc: first fit over an address-ordered list of headers, with free
    neighbours merged during the scan. Memory is the map from header addresses to headers. */
module Malloc {
  const HDR := 16  // sizeof(struct mhead)
  const MMAG := 0x4d414c43
  const NULL := 0

  /** struct mhead; size includes the header. */
  datatype MHead = MHead(magic: nat, free: bool, size: nat, next: nat)

  type Mem = map<nat, MHead>

  datatype Option<T> = None | Some(value: T)

  /** The size of the block that malloc carves for a request. */
  function Rounded(size: nat): (need: nat)
    ensures size + HDR <= need < size + HDR + 16 && need % 16 == 0
  {
    (size + HDR + 15) / 16 * 16
  }

  /** Block i names the next block. */
  ghost predicate Link(m: Mem, bs: seq<nat>, i: int)
    requires 0 <= i < |bs|
  {
    bs[i] in m && m[bs[i]].next == if i + 1 < |bs| then bs[i + 1] else NULL
  }

  /** bs is the list that starts at base and is linked through the next fields. */
  ghost predicate Linked(m: Mem, bs: seq<nat>, base: nat) {
    && |bs| > 0 && bs[0] == base && base > 0
    && (forall i :: 0 <= i < |bs| ==> bs[i] in m && m[bs[i]].size >= HDR)
    && (forall i :: 0 <= i < |bs| ==> Link(m, bs, i))
  }

  /** The blocks are in address order and do not overlap. */
  ghost predicate Ordered(m: Mem, bs: seq<nat>)
    requires forall i :: 0 <= i < |bs| ==> bs[i] in m
  {
    forall i, j :: 0 <= i < j < |bs| ==> bs[i] + m[bs[i]].size <= bs[j]
  }

  /** The magic number marks exactly the blocks of the list but the first, which is never free. */
  ghost predicate Marked(m: Mem, bs: seq<nat>, base: nat)
    requires base in m
  {
    && !m[base].free
    && (forall a :: a in m ==> (m[a].magic == MMAG <==> a in bs && a != base))
  }

  ghost predicate ListOk(m: Mem, bs: seq<nat>, base: nat) {
    Linked(m, bs, base) && Ordered(m, bs) && Marked(m, bs, base)
  }

  /** Address x lies in block i, header included. */
  ghost predicate Covers(m: Mem, bs: seq<nat>, i: int, x: nat)
    requires 0 <= i < |bs| && bs[i] in m
  {
    bs[i] <= x < bs[i] + m[bs[i]].size
  }

  /** Address x lies in a free block. */
  ghost predicate FreeAt(m: Mem, bs: seq<nat>, x: nat)
    requires forall i :: 0 <= i < |bs| ==> bs[i] in m
  {
    exists i :: 0 <= i < |bs| && m[bs[i]].free && Covers(m, bs, i, x)
  }

  /** Blocks i and i + 1 are both free and adjacent in memory. */
  ghost predicate Mergeable(m: Mem, bs: seq<nat>, i: int)
    requires 0 <= i < |bs| && forall k :: 0 <= k < |bs| ==> bs[k] in m
  {
    i + 1 < |bs| && m[bs[i]].free && m[bs[i + 1]].free && bs[i] + m[bs[i]].size == bs[i + 1]
  }

  /** The memory after block a has swallowed its right neighbour n. */
  function Merged(m: Mem, a: nat, n: nat): Mem
    requires a in m && n in m
  {
    m[n := m[n].(magic := 0)][a := m[a].(size := m[a].size + m[n].size, next := m[n].next)]
  }

  function Without(bs: seq<nat>, i: nat): (r: seq<nat>)
    requires i < |bs|
    ensures |r| == |bs| - 1
    ensures forall k :: 0 <= k < |r| ==> r[k] == if k < i then bs[k] else bs[k + 1]
  {
    bs[..i] + bs[i + 1..]
  }

  lemma WithoutMembers(m: Mem, bs: seq<nat>, base: nat, i: nat)
    requires Linked(m, bs, base) && Ordered(m, bs) && i < |bs|
    ensures forall a :: a in Without(bs, i) <==> a in bs && a != bs[i]
  {
    var r := Without(bs, i);
    forall a ensures a in r <==> a in bs && a != bs[i] {
      if a in bs && a != bs[i] {
        var k :| 0 <= k < |bs| && bs[k] == a;
        assert r[if k < i then k else k - 1] == a;
      }
    }
  }

  lemma MergeKeepsList(m: Mem, bs: seq<nat>, base: nat, i: nat)
    requires ListOk(m, bs, base) && i < |bs| && Mergeable(m, bs, i)
    ensures ListOk(Merged(m, bs[i], bs[i + 1]), Without(bs, i + 1), base)
  {
    hide Marked, Ordered;
    MergeKeepsLinks(m, bs, base, i);
    MergeKeepsOrder(m, bs, base, i);
    MergeKeepsMarks(m, bs, base, i);
  }

  lemma MergeKeepsLinks(m: Mem, bs: seq<nat>, base: nat, i: nat)
    requires Linked(m, bs, base) && Ordered(m, bs) && i < |bs| && Mergeable(m, bs, i)
    ensures Linked(Merged(m, bs[i], bs[i + 1]), Without(bs, i + 1), base)
  {
    var m', bs' := Merged(m, bs[i], bs[i + 1]), Without(bs, i + 1);
    forall k | 0 <= k < |bs'| ensures bs'[k] in m' && m'[bs'[k]].size >= HDR && Link(m', bs', k) {
      MergeLink(m, bs, base, i, k);
    }
    assert bs'[0] == bs[0];
  }

  lemma MergeLink(m: Mem, bs: seq<nat>, base: nat, i: nat, k: nat)
    requires Linked(m, bs, base) && Ordered(m, bs) && i < |bs| && Mergeable(m, bs, i) && k < |bs| - 1
    ensures var m', bs' := Merged(m, bs[i], bs[i + 1]), Without(bs, i + 1);
            bs'[k] in m' && m'[bs'[k]].size >= HDR && Link(m', bs', k)
  {
    hide Ordered;
    Increasing(m, bs, base);
    var q := if k <= i then k else k + 1;
    assert Link(m, bs, q) && Link(m, bs, i + 1);
    assert bs[q] != bs[i + 1] && (q != i ==> bs[q] != bs[i]);
  }

  lemma MergeKeepsMarks(m: Mem, bs: seq<nat>, base: nat, i: nat)
    requires ListOk(m, bs, base) && i < |bs| && Mergeable(m, bs, i)
    requires base in Merged(m, bs[i], bs[i + 1])
    ensures Marked(Merged(m, bs[i], bs[i + 1]), Without(bs, i + 1), base)
  {
    Increasing(m, bs, base);
    WithoutMembers(m, bs, base, i + 1);
  }

  lemma Increasing(m: Mem, bs: seq<nat>, base: nat)
    requires Linked(m, bs, base) && Ordered(m, bs)
    ensures forall j, k :: 0 <= j < k < |bs| ==> bs[j] < bs[k]
  {
    forall j, k | 0 <= j < k < |bs| ensures bs[j] < bs[k] {
      assert bs[j] + m[bs[j]].size <= bs[k];
    }
  }

  lemma MergeKeepsOrder(m: Mem, bs: seq<nat>, base: nat, i: nat)
    requires Linked(m, bs, base) && Ordered(m, bs) && i < |bs| && Mergeable(m, bs, i)
    requires Linked(Merged(m, bs[i], bs[i + 1]), Without(bs, i + 1), base)
    ensures Ordered(Merged(m, bs[i], bs[i + 1]), Without(bs, i + 1))
  {
    var m', bs' := Merged(m, bs[i], bs[i + 1]), Without(bs, i + 1);
    forall j, k | 0 <= j < k < |bs'| ensures bs'[j] + m'[bs'[j]].size <= bs'[k] {
      var j', k' := if j <= i then j else j + 1, if k <= i then k else k + 1;
      assert bs[j'] + m[bs[j']].size <= bs[k'];
      if j == i {
        assert bs[i + 1] + m[bs[i + 1]].size <= bs[k'];
      }
    }
  }

  /** Merging moves no address from free to taken or back. */
  lemma MergeKeepsFree(m: Mem, bs: seq<nat>, base: nat, i: nat)
    requires ListOk(m, bs, base) && i < |bs| && Mergeable(m, bs, i)
    requires ListOk(Merged(m, bs[i], bs[i + 1]), Without(bs, i + 1), base)
    ensures forall x: nat :: FreeAt(Merged(m, bs[i], bs[i + 1]), Without(bs, i + 1), x) <==> FreeAt(m, bs, x)
  {
    forall x: nat ensures FreeAt(Merged(m, bs[i], bs[i + 1]), Without(bs, i + 1), x) <==> FreeAt(m, bs, x) {
      MergeFreeAt(m, bs, base, i, x);
    }
  }

  lemma MergeStaysFree(m: Mem, bs: seq<nat>, base: nat, i: nat, x: nat)
    requires Linked(m, bs, base) && Ordered(m, bs) && i < |bs| && Mergeable(m, bs, i)
    requires Linked(Merged(m, bs[i], bs[i + 1]), Without(bs, i + 1), base)
    requires (forall k :: 0 <= k < |bs| ==> bs[k] in m) && FreeAt(m, bs, x)
    ensures var m', bs' := Merged(m, bs[i], bs[i + 1]), Without(bs, i + 1);
            (forall k :: 0 <= k < |bs'| ==> bs'[k] in m') && FreeAt(m', bs', x)
  {
    hide Ordered, Linked;
    LinkedIn(m, bs, base);
    var m', bs' := Merged(m, bs[i], bs[i + 1]), Without(bs, i + 1);
    LinkedIn(m', bs', base);
    Increasing(m, bs, base);
    var k :| 0 <= k < |bs| && m[bs[k]].free && Covers(m, bs, k, x);
    var k' := if k <= i then k else k - 1;
    assert Covers(m', bs', k', x);
  }

  lemma MergeFreeAt(m: Mem, bs: seq<nat>, base: nat, i: nat, x: nat)
    requires Linked(m, bs, base) && Ordered(m, bs) && i < |bs| && Mergeable(m, bs, i)
    requires Linked(Merged(m, bs[i], bs[i + 1]), Without(bs, i + 1), base)
    ensures FreeAt(Merged(m, bs[i], bs[i + 1]), Without(bs, i + 1), x) <==> FreeAt(m, bs, x)
  {
    hide Ordered, Linked;
    LinkedIn(m, bs, base);
    var m', bs' := Merged(m, bs[i], bs[i + 1]), Without(bs, i + 1);
    LinkedIn(m', bs', base);
    Increasing(m, bs, base);
    if FreeAt(m, bs, x) {
      MergeStaysFree(m, bs, base, i, x);
    }
    if FreeAt(m', bs', x) {
      var k' :| 0 <= k' < |bs'| && m'[bs'[k']].free && Covers(m', bs', k', x);
      if k' < i || k' > i {
        assert Covers(m, bs, if k' < i then k' else k' + 1, x);
      } else {
        assert Covers(m, bs, i, x) || Covers(m, bs, i + 1, x);
      }
    }
  }

  lemma LinkedIn(m: Mem, bs: seq<nat>, base: nat)
    requires Linked(m, bs, base)
    ensures forall i :: 0 <= i < |bs| ==> bs[i] in m
    ensures forall i :: 0 <= i < |bs| ==> Link(m, bs, i)
  {}

  /** A block handed out and not yet given back. */
  ghost predicate Live(m: Mem, bs: seq<nat>, base: nat, a: nat) {
    a in bs && a != base && a in m && !m[a].free
  }

  /** The live blocks are where they were, as large as they were. */
  ghost predicate LiveKept(m: Mem, bs: seq<nat>, m': Mem, bs': seq<nat>, base: nat) {
    forall a: nat :: Live(m, bs, base, a) ==> Live(m', bs', base, a) && m'[a].size == m[a].size
  }

  lemma MergeKeepsLive(m: Mem, bs: seq<nat>, base: nat, i: nat)
    requires ListOk(m, bs, base) && i < |bs| && Mergeable(m, bs, i)
    ensures LiveKept(m, bs, Merged(m, bs[i], bs[i + 1]), Without(bs, i + 1), base)
    ensures forall a: nat :: Live(Merged(m, bs[i], bs[i + 1]), Without(bs, i + 1), base, a) ==> Live(m, bs, base, a)
  {
    WithoutMembers(m, bs, base, i + 1);
  }

  /** The memory after the free block a is cut down to need bytes and taken, and the rest made
      a free block of its own. */
  function Split(m: Mem, a: nat, need: nat): Mem
    requires a in m && m[a].size >= need
  {
    m[a + need := MHead(MMAG, true, m[a].size - need, m[a].next)][a := m[a].(free := false, size := need, next := a + need)]
  }

  function With(bs: seq<nat>, i: nat, a: nat): (r: seq<nat>)
    requires i <= |bs|
    ensures |r| == |bs| + 1 && r[i] == a
    ensures forall k :: 0 <= k < |r| && k != i ==> r[k] == if k < i then bs[k] else bs[k - 1]
  {
    bs[..i] + [a] + bs[i..]
  }

  lemma WithMembers(bs: seq<nat>, i: nat, a: nat)
    requires i <= |bs|
    ensures forall b :: b in With(bs, i, a) <==> b in bs || b == a
  {
    var r := With(bs, i, a);
    forall b ensures b in r <==> b in bs || b == a {
      if b in bs {
        var k :| 0 <= k < |bs| && bs[k] == b;
        assert r[if k < i then k else k + 1] == b;
      }
    }
  }

  lemma SplitKeepsList(m: Mem, bs: seq<nat>, base: nat, i: nat, need: nat)
    requires ListOk(m, bs, base) && i < |bs| && m[bs[i]].free && need >= HDR && m[bs[i]].size >= HDR + need
    ensures ListOk(Split(m, bs[i], need), With(bs, i + 1, bs[i] + need), base)
  {
    hide Marked, Ordered;
    SplitKeepsLinks(m, bs, base, i, need);
    SplitKeepsOrder(m, bs, base, i, need);
    SplitKeepsMarks(m, bs, base, i, need);
  }

  /** The header of the rest is not where a header was. */
  lemma RestIsNew(m: Mem, bs: seq<nat>, base: nat, i: nat, need: nat)
    requires Linked(m, bs, base) && Ordered(m, bs) && i < |bs| && need > 0 && m[bs[i]].size >= HDR + need
    ensures bs[i] + need !in bs
  {
    Increasing(m, bs, base);
    forall k | 0 <= k < |bs| ensures bs[k] != bs[i] + need {
      if k > i {
        assert bs[i] + m[bs[i]].size <= bs[k];
      }
    }
  }

  lemma SplitKeepsLinks(m: Mem, bs: seq<nat>, base: nat, i: nat, need: nat)
    requires Linked(m, bs, base) && Ordered(m, bs) && i < |bs| && need >= HDR && m[bs[i]].size >= HDR + need
    ensures Linked(Split(m, bs[i], need), With(bs, i + 1, bs[i] + need), base)
  {
    var m', bs' := Split(m, bs[i], need), With(bs, i + 1, bs[i] + need);
    forall k | 0 <= k < |bs'| ensures bs'[k] in m' && m'[bs'[k]].size >= HDR && Link(m', bs', k) {
      SplitLink(m, bs, base, i, need, k);
    }
    assert bs'[0] == bs[0];
  }

  lemma SplitLink(m: Mem, bs: seq<nat>, base: nat, i: nat, need: nat, k: nat)
    requires Linked(m, bs, base) && Ordered(m, bs) && i < |bs| && need >= HDR && m[bs[i]].size >= HDR + need
    requires k <= |bs|
    ensures var m', bs' := Split(m, bs[i], need), With(bs, i + 1, bs[i] + need);
            bs'[k] in m' && m'[bs'[k]].size >= HDR && Link(m', bs', k)
  {
    RestIsNew(m, bs, base, i, need);
    var q := if k <= i then k else k - 1;
    assert Link(m, bs, q);
    assert q < i ==> bs[q] + m[bs[q]].size <= bs[i];
    assert q > i ==> bs[i] + m[bs[i]].size <= bs[q];
  }

  lemma SplitKeepsMarks(m: Mem, bs: seq<nat>, base: nat, i: nat, need: nat)
    requires ListOk(m, bs, base) && i < |bs| && m[bs[i]].free && need >= HDR && m[bs[i]].size >= HDR + need
    requires base in Split(m, bs[i], need)
    ensures Marked(Split(m, bs[i], need), With(bs, i + 1, bs[i] + need), base)
  {
    RestIsNew(m, bs, base, i, need);
    WithMembers(bs, i + 1, bs[i] + need);
  }

  lemma SplitKeepsOrder(m: Mem, bs: seq<nat>, base: nat, i: nat, need: nat)
    requires Linked(m, bs, base) && Ordered(m, bs) && i < |bs| && need >= HDR && m[bs[i]].size >= HDR + need
    requires Linked(Split(m, bs[i], need), With(bs, i + 1, bs[i] + need), base)
    ensures Ordered(Split(m, bs[i], need), With(bs, i + 1, bs[i] + need))
  {
    var m', bs' := Split(m, bs[i], need), With(bs, i + 1, bs[i] + need);
    forall j, k | 0 <= j < k < |bs'| ensures bs'[j] + m'[bs'[j]].size <= bs'[k] {
      var j', k' := if j <= i then j else j - 1, if k <= i then k else k - 1;
      if j' < k' {
        assert bs[j'] + m[bs[j']].size <= bs[k'];
      }
    }
  }

  lemma SplitKeepsLive(m: Mem, bs: seq<nat>, base: nat, i: nat, need: nat)
    requires ListOk(m, bs, base) && i < |bs| && m[bs[i]].free && need >= HDR && m[bs[i]].size >= HDR + need
    ensures var m', bs' := Split(m, bs[i], need), With(bs, i + 1, bs[i] + need);
            && LiveKept(m, bs, m', bs', base)
            && Live(m', bs', base, bs[i]) && m'[bs[i]].size == need
            && forall a: nat :: Live(m', bs', base, a) ==> a == bs[i] || Live(m, bs, base, a)
  {
    WithMembers(bs, i + 1, bs[i] + need);
    RestIsNew(m, bs, base, i, need);
  }

  /** The memory with the free flag of block a set to v. */
  function SetFree(m: Mem, a: nat, v: bool): Mem
    requires a in m
  {
    m[a := m[a].(free := v)]
  }

  lemma SetFreeKeepsList(m: Mem, bs: seq<nat>, base: nat, a: nat, v: bool)
    requires ListOk(m, bs, base) && a in bs && a != base
    ensures ListOk(SetFree(m, a, v), bs, base)
    ensures forall b: nat :: Live(SetFree(m, a, v), bs, base, b) <==> if b == a then !v else Live(m, bs, base, b)
  {
    forall k | 0 <= k < |bs| ensures Link(SetFree(m, a, v), bs, k) {
      assert Link(m, bs, k);
    }
  }

  /** The memory with a new, taken block at b, past the last block. */
  function Appended(m: Mem, last: nat, b: nat, need: nat): Mem
    requires last in m
  {
    m[last := m[last].(next := b)][b := MHead(MMAG, false, need, NULL)]
  }

  lemma AppendKeepsList(m: Mem, bs: seq<nat>, base: nat, b: nat, need: nat)
    requires ListOk(m, bs, base) && need >= HDR
    requires b >= bs[|bs| - 1] + m[bs[|bs| - 1]].size
    ensures ListOk(Appended(m, bs[|bs| - 1], b, need), bs + [b], base)
    ensures b !in bs
    ensures LiveKept(m, bs, Appended(m, bs[|bs| - 1], b, need), bs + [b], base)
    ensures forall a: nat :: Live(Appended(m, bs[|bs| - 1], b, need), bs + [b], base, a) <==> a == b || Live(m, bs, base, a)
  {
    hide Ordered;
    BeyondAll(m, bs, base, b);
    var m', bs' := Appended(m, bs[|bs| - 1], b, need), bs + [b];
    forall a ensures a in bs' <==> a in bs || a == b {}
    forall k | 0 <= k < |bs'| ensures Link(m', bs', k) {
      if k < |bs| {
        assert Link(m, bs, k);
      }
    }
    AppendKeepsOrder(m, bs, base, b, need);
  }

  lemma BeyondAll(m: Mem, bs: seq<nat>, base: nat, b: nat)
    requires Linked(m, bs, base) && Ordered(m, bs)
    requires b >= bs[|bs| - 1] + m[bs[|bs| - 1]].size
    ensures forall k :: 0 <= k < |bs| ==> bs[k] + m[bs[k]].size <= b
    ensures forall k :: 0 <= k < |bs| ==> bs[k] < b && (k < |bs| - 1 ==> bs[k] < bs[|bs| - 1])
  {
    Increasing(m, bs, base);
    forall k | 0 <= k < |bs| ensures bs[k] + m[bs[k]].size <= b {
      if k < |bs| - 1 {
        assert bs[k] + m[bs[k]].size <= bs[|bs| - 1];
      }
    }
  }

  lemma AppendKeepsOrder(m: Mem, bs: seq<nat>, base: nat, b: nat, need: nat)
    requires Linked(m, bs, base) && Ordered(m, bs)
    requires b >= bs[|bs| - 1] + m[bs[|bs| - 1]].size
    requires forall i :: 0 <= i < |bs + [b]| ==> (bs + [b])[i] in Appended(m, bs[|bs| - 1], b, need)
    ensures Ordered(Appended(m, bs[|bs| - 1], b, need), bs + [b])
  {
    BeyondAll(m, bs, base, b);
  }

  /** The scan has passed the first n blocks: each is merged as far as it goes, and none is both
      free and large enough. */
  ghost predicate Passed(m: Mem, bs: seq<nat>, n: nat, need: nat)
    requires n <= |bs| && forall k :: 0 <= k < |bs| ==> bs[k] in m
  {
    forall j :: 0 <= j < n ==> !Mergeable(m, bs, j) && (m[bs[j]].free ==> m[bs[j]].size < need)
  }

  /** The need addresses from lo on are all free. */
  ghost predicate AllFree(m: Mem, bs: seq<nat>, lo: nat, need: nat)
    requires forall k :: 0 <= k < |bs| ==> bs[k] in m
  {
    forall x: nat :: lo <= x < lo + need ==> FreeAt(m, bs, x)
  }

  /** No need addresses in a row are all free. */
  ghost predicate NoRoom(m: Mem, bs: seq<nat>, need: nat)
    requires forall k :: 0 <= k < |bs| ==> bs[k] in m
  {
    forall lo: nat :: !AllFree(m, bs, lo, need)
  }

  lemma MergeKeepsPassed(m: Mem, bs: seq<nat>, base: nat, i: nat, need: nat)
    requires ListOk(m, bs, base) && i < |bs| && Mergeable(m, bs, i) && Passed(m, bs, i, need)
    requires Linked(Merged(m, bs[i], bs[i + 1]), Without(bs, i + 1), base)
    ensures Passed(Merged(m, bs[i], bs[i + 1]), Without(bs, i + 1), i, need)
  {
    var m', bs' := Merged(m, bs[i], bs[i + 1]), Without(bs, i + 1);
    Increasing(m, bs, base);
    forall j | 0 <= j < i ensures !Mergeable(m', bs', j) && (m'[bs'[j]].free ==> m'[bs'[j]].size < need) {
      assert !Mergeable(m, bs, j);
    }
  }

  /** A scan to the end without a fit means there was no room, however the free space is cut up. */
  lemma FullScanMeansNoRoom(m: Mem, bs: seq<nat>, base: nat, need: nat)
    requires ListOk(m, bs, base) && Passed(m, bs, |bs|, need) && need > 0
    ensures NoRoom(m, bs, need)
  {
    forall lo: nat ensures !AllFree(m, bs, lo, need) {
      if FreeAt(m, bs, lo) {
        var i :| 0 <= i < |bs| && m[bs[i]].free && Covers(m, bs, i, lo);
        EndIsTaken(m, bs, base, i);
      } else {
        assert lo <= lo < lo + need;
      }
    }
  }

  /** Where the scan has come to without a fit, nothing lower down is free for so many addresses. */
  lemma FirstFit(m: Mem, bs: seq<nat>, base: nat, i: nat, need: nat)
    requires ListOk(m, bs, base) && i < |bs| && Passed(m, bs, i, need) && need > 0
    ensures forall lo: nat :: lo < bs[i] ==> !AllFree(m, bs, lo, need)
  {
    forall lo: nat | lo < bs[i] ensures !AllFree(m, bs, lo, need) {
      if FreeAt(m, bs, lo) {
        var k :| 0 <= k < |bs| && m[bs[k]].free && Covers(m, bs, k, lo);
        EndIsTaken(m, bs, base, k);
      } else {
        assert lo <= lo < lo + need;
      }
    }
  }

  /** What follows a fully merged free block is not free. */
  lemma EndIsTaken(m: Mem, bs: seq<nat>, base: nat, i: nat)
    requires ListOk(m, bs, base) && i < |bs| && m[bs[i]].free && !Mergeable(m, bs, i)
    ensures !FreeAt(m, bs, bs[i] + m[bs[i]].size)
  {
    var e := bs[i] + m[bs[i]].size;
    forall k | 0 <= k < |bs| && m[bs[k]].free ensures !Covers(m, bs, k, e) {
      if k > i + 1 {
        assert bs[i + 1] + m[bs[i + 1]].size <= bs[k];
        assert bs[i] + m[bs[i]].size <= bs[i + 1];
      } else if k < i {
        assert bs[k] + m[bs[k]].size <= bs[i];
      }
    }
  }

  /** Two lists over the same space: the same live blocks, the same free addresses, the same end. */
  ghost predicate Recut(m: Mem, bs: seq<nat>, m': Mem, bs': seq<nat>, base: nat) {
    && Linked(m, bs, base) && Linked(m', bs', base)
    && LiveKept(m, bs, m', bs', base) && LiveKept(m', bs', m, bs, base)
    && (forall x: nat :: FreeAt(m', bs', x) <==> FreeAt(m, bs, x))
    && bs'[|bs'| - 1] + m'[bs'[|bs'| - 1]].size == bs[|bs| - 1] + m[bs[|bs| - 1]].size
  }

  lemma RecutSelf(m: Mem, bs: seq<nat>, base: nat)
    requires Linked(m, bs, base)
    ensures Recut(m, bs, m, bs, base)
  {}

  lemma RecutTwice(m: Mem, bs: seq<nat>, m1: Mem, bs1: seq<nat>, m2: Mem, bs2: seq<nat>, base: nat)
    requires Recut(m, bs, m1, bs1, base) && Recut(m1, bs1, m2, bs2, base)
    ensures Recut(m, bs, m2, bs2, base)
  {
    hide Linked, FreeAt, Live;
  }

  lemma MergeRecuts(m: Mem, bs: seq<nat>, base: nat, i: nat)
    requires ListOk(m, bs, base) && i < |bs| && Mergeable(m, bs, i)
    requires ListOk(Merged(m, bs[i], bs[i + 1]), Without(bs, i + 1), base)
    ensures Recut(m, bs, Merged(m, bs[i], bs[i + 1]), Without(bs, i + 1), base)
  {
    hide FreeAt, Live, Linked;
    MergeKeepsFree(m, bs, base, i);
    MergeKeepsLive(m, bs, base, i);
    MergeKeepsEnd(m, bs, base, i);
  }

  lemma MergeKeepsEnd(m: Mem, bs: seq<nat>, base: nat, i: nat)
    requires ListOk(m, bs, base) && i < |bs| && Mergeable(m, bs, i)
    requires ListOk(Merged(m, bs[i], bs[i + 1]), Without(bs, i + 1), base)
    ensures var m', bs' := Merged(m, bs[i], bs[i + 1]), Without(bs, i + 1);
            bs'[|bs'| - 1] + m'[bs'[|bs'| - 1]].size == bs[|bs| - 1] + m[bs[|bs| - 1]].size
  {
    Increasing(m, bs, base);
  }

  /** A block of the list was handed out: it is live now, and all live blocks stay as they were. */
  ghost predicate GivenOut(m: Mem, bs: seq<nat>, m': Mem, bs': seq<nat>, base: nat, a: nat) {
    && ListOk(m', bs', base)
    && LiveKept(m, bs, m', bs', base)
    && !Live(m, bs, base, a)
    && (forall b: nat :: Live(m', bs', base, b) <==> b == a || Live(m, bs, base, b))
  }

  lemma AppendGives(m: Mem, bs: seq<nat>, base: nat, b: nat, need: nat)
    requires ListOk(m, bs, base) && need >= HDR
    requires b >= bs[|bs| - 1] + m[bs[|bs| - 1]].size
    ensures GivenOut(m, bs, Appended(m, bs[|bs| - 1], b, need), bs + [b], base, b)
    ensures b > 0 && Appended(m, bs[|bs| - 1], b, need)[b].size == need
  {
    AppendKeepsList(m, bs, base, b, need);
    BeyondAll(m, bs, base, b);
  }

  lemma RecutMeans(m: Mem, bs: seq<nat>, m': Mem, bs': seq<nat>, base: nat, need: nat)
    requires Recut(m, bs, m', bs', base)
    ensures |bs| > 0 && |bs'| > 0 && (forall k :: 0 <= k < |bs| ==> bs[k] in m) && (forall k :: 0 <= k < |bs'| ==> bs'[k] in m')
    ensures NoRoom(m', bs', need) ==> NoRoom(m, bs, need)
    ensures forall lo: nat :: AllFree(m', bs', lo, need) <==> AllFree(m, bs, lo, need)
    ensures bs'[|bs'| - 1] + m'[bs'[|bs'| - 1]].size == bs[|bs| - 1] + m[bs[|bs| - 1]].size
    ensures forall a: nat :: Live(m', bs', base, a) <==> Live(m, bs, base, a)
    ensures forall a: nat :: Live(m, bs, base, a) ==> a in m && a in m' && m'[a].size == m[a].size
  {
    forall lo: nat ensures AllFree(m, bs, lo, need) == AllFree(m', bs', lo, need) {}
  }

  lemma GivenAfterRecut(m: Mem, bs: seq<nat>, m1: Mem, bs1: seq<nat>, m2: Mem, bs2: seq<nat>, base: nat, a: nat)
    requires Recut(m, bs, m1, bs1, base) && GivenOut(m1, bs1, m2, bs2, base, a)
    ensures !Live(m, bs, base, a)
    ensures forall b: nat :: Live(m2, bs2, base, b) <==> b == a || Live(m, bs, base, b)
    ensures forall b: nat :: Live(m, bs, base, b) ==> b in m && b in m2 && m2[b].size == m[b].size
  {
    hide Linked, FreeAt;
  }

  lemma FreeBlockIsFree(m: Mem, bs: seq<nat>, base: nat, i: nat, need: nat)
    requires Linked(m, bs, base) && i < |bs| && m[bs[i]].free && m[bs[i]].size >= need
    ensures AllFree(m, bs, bs[i], need)
  {
    forall x: nat | bs[i] <= x < bs[i] + need ensures FreeAt(m, bs, x) {
      assert Covers(m, bs, i, x);
    }
  }

  /** No two live blocks overlap, and none overlaps free space. */
  lemma LiveApart(m: Mem, bs: seq<nat>, base: nat, a: nat)
    requires ListOk(m, bs, base) && Live(m, bs, base, a)
    ensures forall b: nat :: Live(m, bs, base, b) && a < b ==> a + m[a].size <= b
    ensures forall x: nat :: a <= x < a + m[a].size ==> !FreeAt(m, bs, x)
  {
    var i :| 0 <= i < |bs| && bs[i] == a;
    forall b: nat | Live(m, bs, base, b) && a < b ensures a + m[a].size <= b {
      var j :| 0 <= j < |bs| && bs[j] == b;
      if j < i {
        assert bs[j] + m[bs[j]].size <= bs[i];
      }
    }
    forall x: nat, k | a <= x < a + m[a].size && 0 <= k < |bs| && m[bs[k]].free ensures !Covers(m, bs, k, x) {
      if k < i {
        assert bs[k] + m[bs[k]].size <= bs[i];
      } else {
        assert bs[i] + m[bs[i]].size <= bs[k];
      }
    }
  }

  lemma NotBase(m: Mem, bs: seq<nat>, base: nat, i: nat)
    requires ListOk(m, bs, base) && i < |bs|
    ensures bs[i] in m && (m[bs[i]].free ==> bs[i] != base) && bs[i] in bs && !(m[bs[i]].free && Live(m, bs, base, bs[i]))
  {}

  lemma TakeKeepsLive(m: Mem, bs: seq<nat>, base: nat, a: nat)
    requires ListOk(m, bs, base) && a in bs && a != base && m[a].free
    ensures LiveKept(m, bs, SetFree(m, a, false), bs, base)
  {}

  lemma HeadIsBase(m: Mem, bs: seq<nat>, base: nat)
    requires Linked(m, bs, base) && Ordered(m, bs)
    ensures |bs| > 0 && bs[0] == base && forall k :: 0 <= k < |bs| ==> bs[k] in m && bs[k] != NULL
  {
    Increasing(m, bs, base);
  }

  lemma LinkAt(m: Mem, bs: seq<nat>, base: nat, i: nat)
    requires Linked(m, bs, base) && Ordered(m, bs) && i < |bs|
    ensures bs[i] in m && m[bs[i]].next == if i + 1 < |bs| then bs[i + 1] else NULL
    ensures i + 1 < |bs| ==> bs[i + 1] in m && bs[i + 1] != NULL
  {
    assert Link(m, bs, i);
    Increasing(m, bs, base);
  }

  class Heap {
    /** The address of the static header mhead. */
    const base: nat
    var mem: Mem
    ghost var blocks: seq<nat>
    /** The live blocks by header address, with the sizes asked for. */
    ghost var asked: map<nat, nat>

    ghost predicate Valid()
      reads this
    {
      && ListOk(mem, blocks, base)
      && (forall a: nat :: a in asked <==> Live(mem, blocks, base, a))
      && (forall a: nat :: a in asked ==> a in mem && mem[a].size >= HDR + asked[a])
    }

    constructor (at: nat)
      requires at > 0
      ensures Valid() && base == at && asked == map[] && End() == at + HDR
    {
      base := at;
      mem := map[at := MHead(0, false, HDR, NULL)];
      blocks := [at];
      asked := map[];
    }

    /** The first address past the last block. */
    ghost function End(): nat
      requires Valid()
      reads this
    {
      blocks[|blocks| - 1] + mem[blocks[|blocks| - 1]].size
    }

    /** One merge of the scan. */
    method Merge(mh: nat, ghost i: nat)
      requires ListOk(mem, blocks, base) && i < |blocks| && blocks[i] == mh && Mergeable(mem, blocks, i)
      modifies this`mem, this`blocks
      ensures mem == Merged(old(mem), mh, old(blocks)[i + 1]) && blocks == Without(old(blocks), i + 1)
    {
      assert Link(mem, blocks, i);
      Increasing(mem, blocks, base);
      var next := mem[mh].next;
      mem := mem[next := mem[next].(magic := 0)];
      mem := mem[mh := mem[mh].(size := mem[mh].size + mem[next].size)];
      mem := mem[mh := mem[mh].(next := mem[next].next)];
      blocks := Without(blocks, i + 1);
    }

    /** The two branches of malloc that give out a block of the list: a block with room for
        another header is cut down first. */
    method Carve(mh: nat, need: nat, ghost i: nat)
      requires ListOk(mem, blocks, base) && i < |blocks| && blocks[i] == mh
      requires mem[mh].free && mem[mh].size >= need >= HDR
      modifies this`mem, this`blocks
      ensures GivenOut(old(mem), old(blocks), mem, blocks, base, mh)
      ensures need <= mem[mh].size < need + HDR
    {
      hide Linked, Ordered, Marked, Live, LiveKept;
      NotBase(mem, blocks, base, i);
      if mem[mh].size >= HDR + need {
        SplitKeepsList(mem, blocks, base, i, need);
        SplitKeepsLive(mem, blocks, base, i, need);
        var rest := mh + need;
        mem := mem[rest := MHead(MMAG, true, mem[mh].size - need, mem[mh].next)];
        mem := mem[mh := mem[mh].(free := false, size := need, next := rest)];
        blocks := With(blocks, i + 1, rest);
      } else {
        SetFreeKeepsList(mem, blocks, base, mh, false);
        TakeKeepsLive(mem, blocks, base, mh);
        mem := SetFree(mem, mh, false);
      }
    }

    /** The last branch of malloc: a block from sbrk goes to the end of the list. */
    method Extend(last: nat, mh: nat, need: nat)
      requires ListOk(mem, blocks, base) && last == blocks[|blocks| - 1] && need >= HDR
      requires mh >= last + mem[last].size
      modifies this`mem, this`blocks
      ensures GivenOut(old(mem), old(blocks), mem, blocks, base, mh)
      ensures mh > 0 && mh in mem && mem[mh].size == need
    {
      hide Linked, Ordered, Marked, Live, LiveKept, GivenOut;
      HeadIsBase(mem, blocks, base);
      AppendKeepsList(mem, blocks, base, mh, need);
      AppendGives(mem, blocks, base, mh, need);
      mem := mem[last := mem[last].(next := mh)];
      mem := mem[mh := MHead(MMAG, false, need, NULL)];
      blocks := blocks + [mh];
    }

    /** The scan loop of malloc: merges free neighbours and stops at the first block that fits. */
    method Scan(need: nat) returns (mh: nat, last: nat, ghost i: nat)
      requires ListOk(mem, blocks, base) && need >= HDR
      modifies this`mem, this`blocks
      ensures ListOk(mem, blocks, base) && Recut(old(mem), old(blocks), mem, blocks, base)
      ensures mh != NULL ==> i < |blocks| && blocks[i] == mh && mem[mh].free && mem[mh].size >= need
      ensures mh != NULL ==> forall lo: nat :: lo < mh ==> !AllFree(mem, blocks, lo, need)
      ensures mh == NULL ==> last == blocks[|blocks| - 1] && NoRoom(mem, blocks, need)
    {
      hide Linked, Ordered, Marked, Recut;
      mh, last, i := base, base, 0;
      HeadIsBase(mem, blocks, base);
      RecutSelf(mem, blocks, base);
      while mh != NULL
        invariant ListOk(mem, blocks, base) && Recut(old(mem), old(blocks), mem, blocks, base)
        invariant (forall k :: 0 <= k < |blocks| ==> blocks[k] in mem && blocks[k] != NULL) && |blocks| > 0
        invariant i <= |blocks| && Passed(mem, blocks, i, need)
        invariant mh == if i < |blocks| then blocks[i] else NULL
        invariant i > 0 ==> last == blocks[i - 1]
        decreases |blocks| - i
      {
        LinkAt(mem, blocks, base, i);
        var h := mem[mh];
        if h.free && h.next != NULL && mem[h.next].free && mh + h.size == h.next {
          MergeKeepsList(mem, blocks, base, i);
          MergeKeepsPassed(mem, blocks, base, i, need);
          MergeRecuts(mem, blocks, base, i);
          RecutTwice(old(mem), old(blocks), mem, blocks, Merged(mem, mh, h.next), Without(blocks, i + 1), base);
          Merge(mh, i);
          HeadIsBase(mem, blocks, base);
          continue;
        }
        if h.free && h.size >= need {
          FirstFit(mem, blocks, base, i, need);
          return;
        }
        last := mh;
        mh := h.next;
        i := i + 1;
      }
      FullScanMeansNoRoom(mem, blocks, base, need);
    }

    /** malloc. sbrk is the address sbrk would answer with, if it has room to grow; grew tells
        whether malloc asked. */
    method Malloc(size: nat, sbrk: Option<nat>) returns (p: nat, ghost grew: bool)
      requires Valid() && (sbrk.Some? ==> sbrk.value >= End())
      modifies this`mem, this`blocks, this`asked
      ensures Valid()
      // sbrk is the last resort
      ensures grew ==> NoRoom(old(mem), old(blocks), Rounded(size))
      ensures p == NULL <==> grew && sbrk == None
      ensures p == NULL ==> asked == old(asked)
      // the new block was not live, and the others are where and what they were
      ensures p != NULL ==> p > HDR && p - HDR !in old(asked) && asked == old(asked)[p - HDR := size]
      ensures forall a: nat :: a in old(asked) ==> mem[a].size == old(mem)[a].size
      ensures p != NULL && grew ==> p == sbrk.value + HDR
      // space that was not asked of sbrk was free
      ensures !grew ==> AllFree(old(mem), old(blocks), p - HDR, Rounded(size))
      // it is the lowest such space, and no more of it is used than another header would take
      ensures !grew ==> forall lo: nat :: lo < p - HDR ==> !AllFree(old(mem), old(blocks), lo, Rounded(size))
      ensures p != NULL ==> Rounded(size) <= mem[p - HDR].size < Rounded(size) + HDR
    {
      hide Linked, Ordered, Marked, Recut, LiveKept, NoRoom, AllFree;
      HeadIsBase(mem, blocks, base);
      var need := Rounded(size);
      var mh, last;
      ghost var i;
      mh, last, i := Scan(need);
      RecutMeans(old(mem), old(blocks), mem, blocks, base, need);
      HeadIsBase(mem, blocks, base);
      grew := mh == NULL;
      ghost var m1, bs1 := mem, blocks;
      if mh != NULL {
        FreeBlockIsFree(m1, bs1, base, i, need);
        Carve(mh, need, i);
      } else {
        if sbrk == None {
          return NULL, grew;
        }
        mh := sbrk.value;
        Extend(last, mh, need);
      }
      GivenAfterRecut(old(mem), old(blocks), m1, bs1, mem, blocks, base, mh);
      p := mh + HDR;
      asked := asked[mh := size];
    }

    /** free. It panics on anything but the payload of a block of the list; what it frees is left
        for the next malloc to merge. */
    method Free(ptr: nat) returns (panic: bool)
      requires Valid() && (ptr != NULL ==> ptr >= HDR && ptr - HDR in mem)
      modifies this`mem, this`asked
      ensures Valid()
      ensures panic <==> ptr != NULL && (ptr - HDR !in blocks || ptr - HDR == base)
      ensures asked == if ptr == NULL || panic then old(asked) else old(asked) - {ptr - HDR}
      ensures forall a: nat :: a in asked ==> mem[a].size == old(mem)[a].size
    {
      hide Linked, Ordered;
      if ptr == NULL { return false; }
      var mh := ptr - HDR;
      if mem[mh].magic != MMAG { return true; }
      SetFreeKeepsList(mem, blocks, base, mh, true);
      mem := SetFree(mem, mh, true);
      asked := asked - {mh};
      panic := false;
    }
  }
}
