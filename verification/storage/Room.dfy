/** What a write needs: the slots of the blocks of its range, of which those that are empty take a free
    block each, and the map blocks, whose buffers stay held. */
module Room {
  import opened Bytes
  import opened Cache
  import opened Holders
  import opened Volume
  import opened FileTree
  import opened Bmap

  /** The slots that the bytes from lo up to hi are stored through. */
  ghost function Needed(lo: nat, hi: nat): set<Slot> {
    set p: nat, s | lo <= p < hi && p / BLK_SIZE < BMAP_LOW && s in SlotsFor(p / BLK_SIZE) :: s
  }

  /** Those of them that are empty. */
  ghost function Missing(d: Dinode, st: Store, lo: nat, hi: nat): set<Slot> {
    set s | s in Needed(lo, hi) && InTree(s) && Ptr(d, st, s) == 0
  }

  /** The root slots of the map blocks for the bytes from lo up to hi. */
  ghost function MapRoots(lo: nat, hi: nat): set<nat> {
    set p: nat, r | lo <= p < hi && p / BLK_SIZE < BMAP_LOW && r in MapRoot(p / BLK_SIZE) :: r
  }

  /** No slot but those of s differs. */
  ghost predicate OnlyFilled(d: Dinode, st: Store, e: Dinode, st': Store, s: set<Slot>) {
    forall t: Slot :: InTree(t) && t !in s ==> Ptr(e, st', t) == Ptr(d, st, t)
  }

  /** All blocks that the bytes are in are there. */
  ghost predicate Present(d: Dinode, st: Store, lo: nat, hi: nat) {
    forall p: nat :: lo <= p < hi && p / BLK_SIZE < BMAP_LOW ==> Ptr(d, st, SlotOf(p / BLK_SIZE)) != 0
  }

  /** Bytes of one block more. */
  lemma NeededMore(lo: nat, pos: nat, l: nat)
    requires lo <= pos && l > 0 && pos % BLK_SIZE + l <= BLK_SIZE && pos / BLK_SIZE < BMAP_LOW
    ensures Needed(lo, pos + l) == Needed(lo, pos) + SlotsFor(pos / BLK_SIZE)
    ensures MapRoots(lo, pos + l) == MapRoots(lo, pos) + MapRoot(pos / BLK_SIZE)
  {
    hide SlotsFor, MapRoot;
    forall p: nat | pos <= p < pos + l ensures p / BLK_SIZE == pos / BLK_SIZE {
    }
    forall s | s in SlotsFor(pos / BLK_SIZE) ensures s in Needed(lo, pos + l) {
      assert lo <= pos < pos + l;
    }
    forall r | r in MapRoot(pos / BLK_SIZE) ensures r in MapRoots(lo, pos + l) {
      assert lo <= pos < pos + l;
    }
  }

  lemma NeededMonotone(lo: nat, mid: nat, hi: nat)
    requires lo <= mid <= hi
    ensures Needed(lo, mid) <= Needed(lo, hi) && MapRoots(lo, mid) <= MapRoots(lo, hi)
  {
    hide SlotsFor, MapRoot;
  }

  lemma {:induction false} CountImage(e: Dinode, st: Store, ss: set<Slot>, bs: set<nat>)
    requires Unshared(e, st)
    requires forall s :: s in ss ==> InTree(s) && Ptr(e, st, s) != 0 && Ptr(e, st, s) as nat in bs
    requires forall b :: b in bs ==> exists s :: s in ss && InTree(s) && Ptr(e, st, s) == b
    ensures |ss| == |bs|
    decreases |ss|
  {
    hide Ptr;
    if ss == {} {
      assert bs == {};
    } else {
      var s :| s in ss;
      CountImage(e, st, ss - {s}, bs - {Ptr(e, st, s) as nat});
    }
  }

  /** Growth takes as many blocks as slots are filled. */
  lemma TakesMissing(d: Dinode, st: Store, used: set<nat>, e: Dinode, st': Store, used': set<nat>, at: Layout,
                     lo: nat, hi: nat)
    requires Good(d, st, used, at) && Good(e, st', used', at) && Grown(d, st, used, e, st', used')
    requires OnlyFilled(d, st, e, st', Needed(lo, hi))
    ensures Missing(e, st', lo, hi) <= Missing(d, st, lo, hi)
    ensures |used' - used| == |Missing(d, st, lo, hi)| - |Missing(e, st', lo, hi)|
  {
    hide Ptr, Needed, Counted, ZeroTail;
    var was, now := Missing(d, st, lo, hi), Missing(e, st', lo, hi);
    forall b | b in used' - used ensures exists s :: s in was - now && InTree(s) && Ptr(e, st', s) == b {
      var s: Slot :| InTree(s) && Ptr(e, st', s) == b != 0;
      assert Ptr(d, st, s) == 0;
      assert s in was - now;
    }
    CountImage(e, st', was - now, used' - used);
    assert was == now + (was - now);
  }

  lemma RoomLess(used: set<nat>, used': set<nat>, at: Layout)
    requires used <= used' && forall b :: b in used' - used ==> at.InData(b)
    ensures |at.Room(used')| == |at.Room(used)| - |used' - used|
  {
    assert at.Room(used) == at.Room(used') + (used' - used);
  }

  lemma {:induction false} KeysFit(d: Dinode, dev: nat, roots: set<nat>)
    ensures |MapKeys(d, dev, roots)| <= |roots|
    decreases |roots|
  {
    if roots == {} {
      assert MapKeys(d, dev, roots) == {};
    } else {
      var r :| r in roots;
      KeysFit(d, dev, roots - {r});
      var all := MapKeys(d, dev, roots);
      var most := MapKeys(d, dev, roots - {r}) + if ROOT1 <= r < ROOTS then {Key(dev, RootPtr(d, r))} else {};
      assert all + (most - all) == most;
    }
  }

  /** The root slots in use of d are those of e. */
  ghost predicate SameRoots(d: Dinode, e: Dinode) {
    forall r: nat :: r < ROOTS && RootPtr(d, r) != 0 ==> RootPtr(e, r) == RootPtr(d, r)
  }

  lemma LendMore(was: imap<Way, Buf>, mid: imap<Way, Buf>, now: imap<Way, Buf>, d: Dinode, e: Dinode, dev: nat,
                 some: set<nat>, more: set<nat>)
    requires Lent(was, mid, MapKeys(d, dev, some)) && Lent(mid, now, MapKeys(e, dev, more)) && SameRoots(d, e)
    ensures Lent(was, now, MapKeys(e, dev, some + more))
  {
    hide Lent;
    var keys := MapKeys(e, dev, some + more);
    assert MapKeys(d, dev, some) <= keys && MapKeys(e, dev, more) <= keys;
    LentBoth(was, mid, now, MapKeys(d, dev, some), MapKeys(e, dev, more), keys);
  }

  /** With more ways to spare than map blocks, there is one left in every row while the range is gone over. */
  lemma SpareLeft(cache: BlkCache, was: imap<Way, Buf>, d: Dinode, dev: nat, lo: nat, mid: nat, hi: nat)
    requires cache.Valid() && lo <= mid <= hi
    requires Lent(was, SlotsOf(cache), MapKeys(d, dev, MapRoots(lo, mid))) && Roomy(was, |MapRoots(lo, hi)|)
    ensures Spare(SlotsOf(cache))
  {
    hide BlkCache.Valid, SlotsOf, Lent, Roomy, Spare, MapKeys, OneSlotEach, MapRoots;
    ValidOneSlotEach(cache);
    NeededMonotone(lo, mid, hi);
    KeysFit(d, dev, MapRoots(lo, mid));
    var rest := MapRoots(lo, hi) - MapRoots(lo, mid);
    assert MapRoots(lo, hi) == MapRoots(lo, mid) + rest;
    RoomyIsSpare(was, SlotsOf(cache), MapKeys(d, dev, MapRoots(lo, mid)), |MapRoots(lo, hi)|);
  }

  lemma RoomyFor(slots: imap<Way, Buf>, lo: nat, mid: nat, hi: nat)
    requires lo <= mid <= hi && Roomy(slots, |MapRoots(lo, hi)|)
    ensures Roomy(slots, |MapRoots(lo, mid)|)
  {
    hide MapRoots, Idle;
    NeededMonotone(lo, mid, hi);
    var rest := MapRoots(lo, hi) - MapRoots(lo, mid);
    assert MapRoots(lo, hi) == MapRoots(lo, mid) + rest;
  }

  /** A write that has come to byte hi: only the slots for the bytes from lo on were filled, and they all are. */
  ghost predicate Through(d: Dinode, st: Store, e: Dinode, st': Store, lo: nat, hi: nat) {
    OnlyFilled(d, st, e, st', Needed(lo, hi)) && Present(e, st', lo, hi)
  }

  lemma ThroughNone(d: Dinode, st: Store, e: Dinode, st': Store, lo: nat)
    requires SameTree(d, st, e, st')
    ensures Through(d, st, e, st', lo, lo)
  {
  }

  lemma SameIsSameTree(d: Dinode, st: Store)
    ensures SameTree(d, st, d, st)
  {
  }

  lemma ThroughMore(d: Dinode, st: Store, d1: Dinode, st1: Store, used1: set<nat>, e: Dinode, st': Store,
                    used': set<nat>, lo: nat, pos: nat, l: nat)
    requires lo <= pos && l > 0 && pos % BLK_SIZE + l <= BLK_SIZE && pos / BLK_SIZE < BMAP_LOW
    requires Through(d, st, d1, st1, lo, pos) && Grown(d1, st1, used1, e, st', used')
    requires OnlyFilled(d1, st1, e, st', SlotsFor(pos / BLK_SIZE)) && Ptr(e, st', SlotOf(pos / BLK_SIZE)) != 0
    ensures Through(d, st, e, st', lo, pos + l)
  {
    hide Ptr, SlotsFor, Needed, MapRoots, SlotOf;
    NeededMore(lo, pos, l);
    forall p: nat | lo <= p < pos + l && p / BLK_SIZE < BMAP_LOW ensures Ptr(e, st', SlotOf(p / BLK_SIZE)) != 0 {
      assert p >= pos ==> p / BLK_SIZE == pos / BLK_SIZE;
      assert p < pos ==> Ptr(d1, st1, SlotOf(p / BLK_SIZE)) != 0;
    }
  }

  /** Where it stops for want of a block, a slot of the range is empty. */
  lemma ThroughStop(d: Dinode, st: Store, d1: Dinode, st1: Store, e: Dinode, st': Store, lo: nat, pos: nat, hi: nat)
    requires lo <= pos < hi && pos / BLK_SIZE < BMAP_LOW && Through(d, st, d1, st1, lo, pos)
    requires OnlyFilled(d1, st1, e, st', SlotsFor(pos / BLK_SIZE))
    ensures OnlyFilled(d, st, e, st', Needed(lo, hi))
    ensures Ptr(e, st', SlotOf(pos / BLK_SIZE)) == 0 ==> Missing(e, st', lo, hi) != {}
  {
    hide Ptr, SlotOf;
    NeededMonotone(lo, pos, hi);
    assert SlotsFor(pos / BLK_SIZE) <= Needed(lo, hi);
    if Ptr(e, st', SlotOf(pos / BLK_SIZE)) == 0 {
      assert SlotOf(pos / BLK_SIZE) in Missing(e, st', lo, hi);
    }
  }

  lemma ThroughAll(d: Dinode, st: Store, e: Dinode, st': Store, lo: nat, hi: nat)
    requires Through(d, st, e, st', lo, hi)
    ensures Missing(e, st', lo, hi) == {} && OnlyFilled(d, st, e, st', Needed(lo, hi))
  {
    forall s | s in Needed(lo, hi) ensures InTree(s) && Ptr(e, st', s) != 0 {
      var p: nat :| lo <= p < hi && p / BLK_SIZE < BMAP_LOW && s in SlotsFor(p / BLK_SIZE);
      assert Ptr(e, st', SlotOf(p / BLK_SIZE)) != 0;
    }
  }

  lemma GrownRoots(d: Dinode, st: Store, used: set<nat>, e: Dinode, st': Store, used': set<nat>)
    requires Grown(d, st, used, e, st', used')
    ensures SameRoots(d, e)
  {
    forall r: nat | r < ROOTS && RootPtr(d, r) != 0 ensures RootPtr(e, r) == RootPtr(d, r) {
      assert Ptr(d, st, Root(r)) == RootPtr(d, r) && Ptr(e, st', Root(r)) == RootPtr(e, r);
    }
  }

  /** The free blocks before and after a write, by the slots that were empty and those that still are. */
  lemma WriteTakes(d: Dinode, st: Store, used: set<nat>, e: Dinode, st': Store, used': set<nat>, at: Layout, lo: nat,
                   hi: nat)
    requires Good(d, st, used, at) && Good(e, st', used', at) && Grown(d, st, used, e, st', used')
    requires OnlyFilled(d, st, e, st', Needed(lo, hi))
    ensures |at.Room(used')| + |Missing(d, st, lo, hi)| == |at.Room(used)| + |Missing(e, st', lo, hi)|
    ensures used == used' && Missing(e, st', lo, hi) == {} ==> Missing(d, st, lo, hi) == {}
  {
    forall b | b in used' - used ensures at.InData(b) {
      var s: Slot :| InTree(s) && Ptr(e, st', s) == b != 0;
    }
    hide Good, Grown, OnlyFilled, Missing, Layout.Room;
    TakesMissing(d, st, used, e, st', used', at, lo, hi);
    RoomLess(used, used', at);
    assert used == used' ==> used' - used == {};
  }
}
