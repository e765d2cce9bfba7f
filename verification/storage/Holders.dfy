/** Who holds the slots of the buffer cache: what calls after one another leave held. */
module Holders {
  import opened Bytes
  import opened Cache

  lemma LentSame(slots: imap<Way, Buf>, keys: set<Key>)
    ensures Lent(slots, slots, keys)
  {
  }

  lemma LentMore(was: imap<Way, Buf>, now: imap<Way, Buf>, some: set<Key>, keys: set<Key>)
    requires Lent(was, now, some) && some <= keys
    ensures Lent(was, now, keys)
  {
  }

  lemma LentBoth(a: imap<Way, Buf>, b: imap<Way, Buf>, c: imap<Way, Buf>, some: set<Key>, more: set<Key>, keys: set<Key>)
    requires Lent(a, b, some) && Lent(b, c, more) && some + more <= keys
    ensures Lent(a, c, keys)
  {
  }

  /** Where a row is held it stays held. */
  lemma LentHeld(was: imap<Way, Buf>, now: imap<Way, Buf>, keys: set<Key>)
    requires Lent(was, now, keys) && !Spare(was)
    ensures !Spare(now)
  {
    var row: nat :| row < BCWIDTH && RowHeld(was, row);
    assert RowHeld(now, row);
  }

  /** The ways of a row that nobody holds. */
  ghost function Idle(slots: imap<Way, Buf>, row: nat): set<nat> {
    set c: nat | c < BCDEPTH && Way(row, c) in slots && slots[Way(row, c)].refcnt == 0
  }

  /** More than n ways of every row are held by nobody. */
  ghost predicate Roomy(slots: imap<Way, Buf>, n: nat) {
    forall row: nat :: row < BCWIDTH ==> |Idle(slots, row)| > n
  }

  /** No block has two slots that are held. */
  ghost predicate OneSlotEach(slots: imap<Way, Buf>) {
    forall g, h :: g in slots && h in slots && g != h && slots[g].refcnt > 0 && slots[h].refcnt > 0 ==>
      slots[g].key != slots[h].key
  }

  lemma ValidOneSlotEach(cache: BlkCache)
    requires cache.Valid()
    ensures OneSlotEach(SlotsOf(cache))
  {
    hide BlkCache.SlotOk, BlkCache.Behind;
  }

  /** A call that leaves no more than n blocks held in slots that nobody held has had a way to spare in every
      row, if there were more than n of them before it. */
  lemma RoomyIsSpare(was: imap<Way, Buf>, now: imap<Way, Buf>, keys: set<Key>, n: nat)
    requires Lent(was, now, keys) && |keys| <= n && Roomy(was, n) && OneSlotEach(now)
    ensures Spare(now)
  {
    forall row: nat | row < BCWIDTH ensures !RowHeld(now, row) {
      if RowHeld(now, row) {
        assert |Idle(was, row)| > n;
        IdleBound(was, now, Idle(was, row), row, keys);
      }
    }
  }

  /** Different idle ways of a row that is held now are held for different blocks. */
  lemma {:induction false} IdleBound(was: imap<Way, Buf>, now: imap<Way, Buf>, cols: set<nat>, row: nat, keys: set<Key>)
    requires now.Keys == was.Keys && OneSlotEach(now)
    requires forall c :: c in cols ==> Way(row, c) in now && now[Way(row, c)].refcnt > 0 && now[Way(row, c)].key in keys
    ensures |cols| <= |keys|
    decreases |cols|
  {
    if cols != {} {
      var c :| c in cols;
      var k := now[Way(row, c)].key;
      IdleBound(was, now, cols - {c}, row, keys - {k});
    }
  }
}
