/** The buffer cache of kern/fs/blk.c: 131 sets of 4 ways, written back late. */
module Cache {
  import opened Bytes
  import opened Errors

  const BCWIDTH := 131
  const BCDEPTH := 4
  const MAXBDEVS := 16

  /** A device number and a block number on that device. */
  datatype Key = Key(dev: nat, blk: nat)

  /** One cache slot; the kernel's struct blk_buffer. */
  datatype Buf = Buf(refcnt: nat, valid: bool, dirty: bool, key: Key, data: Block) {
    predicate Live() { refcnt > 0 || valid }
  }

  /** The position of a slot; the kernel passes a pointer to it. */
  datatype Way = Way(row: nat, col: nat)

  /** What a reader sees: one block of bytes under every key. */
  type View = v: imap<Key, Block> | forall k: Key :: k in v
    ghost witness imap k: Key {:trigger} | true :: ZERO_BLOCK

  function Row(k: Key): (r: nat)
    ensures r < BCWIDTH
  {
    k.blk % BCWIDTH
  }

  function Major(dev: nat): nat { dev / 256 }

  /** A device number is a major number and eight bits of a minor one. */
  lemma MajorOf(major: nat, minor: nat)
    requires minor < 256
    ensures Major(256 * major + minor) == major
  {
  }

  ghost function SlotsOf(cache: BlkCache): imap<Way, Buf>
    reads cache.ways
  {
    imap h: Way | cache.At(h) :: cache.Slot(h)
  }

  /** All four ways of the row are held. */
  ghost predicate RowHeld(slots: imap<Way, Buf>, row: nat) {
    forall h :: h in slots && h.row == row ==> slots[h].refcnt > 0
  }

  /** Every row has a way that nobody holds. */
  ghost predicate Spare(slots: imap<Way, Buf>) {
    forall row: nat :: row < BCWIDTH ==> !RowHeld(slots, row)
  }

  /** Whoever held a slot holds it still, and what is held besides are slots of the blocks given. */
  ghost predicate Lent(was: imap<Way, Buf>, now: imap<Way, Buf>, keys: set<Key>) {
    && now.Keys == was.Keys
    && (forall h :: h in was && was[h].refcnt > 0 ==> now[h].refcnt > 0 && now[h].key == was[h].key)
    && (forall h :: h in was && now[h].refcnt > 0 ==> was[h].refcnt > 0 || now[h].key in keys)
  }

  class BlkCache {
    const ways: array2<Buf>
    var nind: nat
    /** The contents of the devices. */
    var disk: View
    /** The major numbers below MAXBDEVS with a driver that reads and writes. */
    const drivers: set<nat>
    /** The current contents of every block, wherever it is stored. */
    ghost var view: View

    /** The cache at boot, when every slot is unused. */
    constructor (contents: View, majors: set<nat>)
      ensures Valid() && fresh(ways)
      ensures view == disk == contents && drivers == majors
      ensures forall w: Way :: At(w) ==> !Slot(w).Live()
    {
      ways := new Buf[BCWIDTH, BCDEPTH]((i, n) => Buf(0, false, false, Key(0, 0), ZERO_BLOCK));
      nind := 0;
      disk := contents;
      view := contents;
      drivers := majors;
    }

    predicate Attached(dev: nat) {
      Major(dev) < MAXBDEVS && Major(dev) in drivers
    }

    ghost predicate At(h: Way)
    {
      h.row < ways.Length0 && h.col < ways.Length1
    }

    function Slot(h: Way): Buf
      requires At(h)
      reads ways
    {
      ways[h.row, h.col]
    }

    /** Slot h serves block k: it is referenced or valid, and tagged with k. */
    ghost predicate Serves(h: Way, k: Key)
      requires At(h)
      reads ways
    {
      Slot(h).Live() && Slot(h).key == k
    }

    ghost predicate SlotOk(h: Way)
      requires At(h)
      reads this`view, ways
    {
      && (Slot(h).Live() ==> Row(Slot(h).key) == h.row)
      && (Slot(h).dirty ==> Slot(h).valid && Attached(Slot(h).key.dev))
      && (Slot(h).valid ==> view[Slot(h).key] == Slot(h).data)
    }

    /** What is on the device differs from what readers see only under a dirty slot. */
    ghost predicate Behind(k: Key)
      reads ways
    {
      exists h: Way :: At(h) && Slot(h).dirty && Slot(h).key == k
    }

    ghost predicate Valid()
      reads this, ways
    {
      && ways.Length0 == BCWIDTH && ways.Length1 == BCDEPTH
      && nind < BCDEPTH
      && (forall h: Way :: At(h) ==> SlotOk(h))
      && (forall g: Way, h: Way :: At(g) && At(h) && g != h && Slot(g).Live() && Slot(h).Live() ==> Slot(g).key != Slot(h).key)
      && (forall k: Key :: view[k] != disk[k] ==> Behind(k))
    }

    /** A valid slot has the current contents of its block. */
    lemma ValidIsCurrent(h: Way)
      requires Valid() && At(h) && Slot(h).valid
      ensures Slot(h).data == view[Slot(h).key]
    {
      assert SlotOk(h);
    }

    /** h is a referenced slot that holds block k. */
    ghost predicate Holds(h: Way, k: Key)
      reads ways
    {
      At(h) && Slot(h).refcnt > 0 && Slot(h).key == k
    }

    /** Every slot but h is as it was. */
    twostate predicate OthersSame(h: Way)
      reads ways
    {
      forall w: Way :: At(w) && w != h ==> Slot(w) == old(Slot(w))
    }

    /** blk_write */
    method Write(h: Way)
      requires Valid() && At(h)
      modifies this`disk, ways
      ensures Valid()
      ensures Slot(h) == old(Slot(h)).(dirty := false) && OthersSame(h)
      ensures disk == if old(Slot(h)).dirty then old(disk)[Slot(h).key := Slot(h).data] else old(disk)
    {
      var b := Slot(h);
      if !b.dirty { return; }
      ways[h.row, h.col] := b.(dirty := false);
      disk := disk[b.key := b.data];
      assert forall w: Way :: At(w) && w != h ==> Slot(w) == old(Slot(w));
      forall k: Key | view[k] != disk[k] ensures Behind(k) {
        assert old(Behind(k));
        var w: Way :| At(w) && old(Slot(w).dirty && Slot(w).key == k);
        assert w != h;
      }
    }

    /** No slot serves k. */
    ghost predicate Absent(k: Key)
      reads ways
    {
      forall h: Way :: At(h) ==> !Serves(h, k)
    }

    /** Every slot of the row of k is referenced. */
    ghost predicate Full(k: Key)
      reads ways
    {
      forall h: Way :: At(h) && h.row == Row(k) ==> Slot(h).refcnt > 0
    }

    /** Takes over an unreferenced, clean slot for block k. */
    method Claim(h: Way, k: Key)
      requires Valid() && At(h) && h.row == Row(k) && Usable(Slot(h), true) && Absent(k)
      modifies ways
      ensures Valid() && OthersSame(h)
      ensures Slot(h) == Buf(1, false, false, k, old(Slot(h)).data)
    {
      ways[h.row, h.col] := Buf(1, false, false, k, Slot(h).data);
      assert forall w: Way :: At(w) && w != h ==> Slot(w) == old(Slot(w)) && old(!Serves(w, k));
      forall q: Key | view[q] != disk[q] ensures Behind(q) {
        assert old(Behind(q));
        var w: Way :| At(w) && old(Slot(w).dirty && Slot(w).key == q);
        assert w != h;
      }
    }

    /** The first scan of blk_get: a slot that already serves k. */
    method Find(k: Key) returns (found: bool, h: Way)
      requires Valid()
      ensures found <==> !Absent(k)
      ensures found ==> At(h) && Serves(h, k)
    {
      h := Way(Row(k), 0);
      for n := 0 to BCDEPTH
        invariant forall w: Way :: At(w) && w.row == Row(k) && w.col < n ==> !Serves(w, k)
      {
        h := Way(Row(k), n);
        if Slot(h).Live() && Slot(h).key == k {
          assert Serves(h, k);
          return true, h;
        }
      }
      found := false;
    }

    /** A slot a scan may take over: unreferenced and, in the first of the two scans, clean. */
    static predicate Usable(b: Buf, clean: bool) {
      b.refcnt == 0 && (clean ==> !b.dirty)
    }

    /** Every slot of row i is beyond the reach of a scan. */
    ghost predicate NoneUsable(i: nat, clean: bool)
      reads ways
    {
      forall h: Way :: At(h) && h.row == i ==> !Usable(Slot(h), clean)
    }

    /** The second and third scans of blk_get: round the row from the moving index. */
    method FindVictim(i: nat, clean: bool) returns (found: bool, h: Way)
      requires Valid() && i < BCWIDTH
      modifies this`nind
      ensures Valid()
      ensures found <==> !NoneUsable(i, clean)
      ensures found ==> At(h) && h.row == i && Usable(Slot(h), clean)
    {
      hide Turn, Before, SlotOk, Behind;
      ghost var start := nind;
      h := Way(i, 0);
      BeforeFirst(start);
      for n := 0 to BCDEPTH
        invariant nind == Turn(start, n)
        invariant forall w: Way :: At(w) && w.row == i && Before(start, n, w.col) ==> !Usable(Slot(w), clean)
      {
        h := Way(i, nind);
        BeforeNext(start, n);
        nind := (nind + 1) % BCDEPTH;
        if Usable(Slot(h), clean) {
          return true, h;
        }
      }
      BeforeAll(start);
      found := false;
    }

    /** The column n turns after start. */
    static function Turn(start: nat, n: nat): (c: nat)
      ensures c < BCDEPTH
    {
      (start + n) % BCDEPTH
    }

    /** Column c comes before turn n. */
    static ghost predicate Before(start: nat, n: nat, c: nat) {
      exists k: nat :: k < n && Turn(start, k) == c
    }

    static lemma BeforeNext(start: nat, n: nat)
      ensures forall c: nat :: Before(start, n + 1, c) <==> Before(start, n, c) || c == Turn(start, n)
      ensures Turn(start, n + 1) == (Turn(start, n) + 1) % BCDEPTH
    {
      forall c: nat ensures Before(start, n + 1, c) <==> Before(start, n, c) || c == Turn(start, n) {
        if c == Turn(start, n) { assert Before(start, n + 1, c); }
      }
    }

    static lemma BeforeFirst(start: nat)
      requires start < BCDEPTH
      ensures Turn(start, 0) == start && forall c: nat :: !Before(start, 0, c)
    {
    }

    static lemma BeforeAll(start: nat)
      ensures forall c: nat :: c < BCDEPTH ==> Before(start, BCDEPTH, c)
    {
      forall c: nat | c < BCDEPTH ensures Before(start, BCDEPTH, c) {
        var k := (c + BCDEPTH - start % BCDEPTH) % BCDEPTH;
        assert Turn(start, k) == c;
      }
    }

    /** Takes one more reference to h. */
    method Bump(h: Way)
      requires Valid() && At(h) && Slot(h).Live()
      modifies ways
      ensures Valid() && OthersSame(h)
      ensures Slot(h) == old(Slot(h)).(refcnt := old(Slot(h)).refcnt + 1)
    {
      ways[h.row, h.col] := Slot(h).(refcnt := Slot(h).refcnt + 1);
      assert forall w: Way :: At(w) ==> Slot(w).(refcnt := 0) == old(Slot(w)).(refcnt := 0);
    }

    /** The slot that Get leaves behind for k in a slot that held b. */
    static function Gotten(b: Buf, k: Key): Buf {
      if b.Live() && b.key == k then b.(refcnt := b.refcnt + 1) else Buf(1, false, false, k, b.data)
    }

    /** The two scans: a dirty slot is taken only when there is no clean one. */
    method Pick(k: Key) returns (found: bool, h: Way)
      requires Valid()
      modifies this`nind
      ensures Valid()
      ensures found <==> !Full(k)
      ensures found ==> At(h) && h.row == Row(k) && Slot(h).refcnt == 0 && (Slot(h).dirty ==> NoneUsable(Row(k), true))
    {
      found, h := FindVictim(Row(k), true);
      if !found {
        found, h := FindVictim(Row(k), false);
      }
    }

    /** The second and third scans of blk_get, and the take-over of the slot they find. */
    method Evict(k: Key) returns (err: Err, h: Way)
      requires Valid() && Absent(k)
      modifies this`nind, this`disk, ways
      ensures Valid()
      ensures err == if old(Full(k)) then ENOMEM else OK
      ensures err == ENOMEM ==> unchanged(ways) && disk == old(disk)
      ensures err == OK ==> At(h) && OthersSame(h) && old(Slot(h)).refcnt == 0
      ensures err == OK ==> Slot(h) == Buf(1, false, false, k, old(Slot(h)).data)
      // only a dirty slot is written out, and only when no clean one is free
      ensures disk != old(disk) ==> old(NoneUsable(Row(k), true))
    {
      var found;
      found, h := Pick(k);
      if !found {
        return ENOMEM, h;
      }
      Write(h);
      Claim(h, k);
      err := OK;
    }

    /** blk_get */
    method Get(dev: nat, blk: nat) returns (err: Err, h: Way)
      requires Valid()
      modifies this`nind, this`disk, ways
      ensures Valid()
      ensures err == if old(Absent(Key(dev, blk)) && Full(Key(dev, blk))) then ENOMEM else OK
      ensures err == ENOMEM ==> unchanged(ways) && disk == old(disk)
      ensures err == OK ==> At(h) && OthersSame(h) && Slot(h) == Gotten(old(Slot(h)), Key(dev, blk))
      ensures err == OK && old(Absent(Key(dev, blk))) ==> old(Slot(h)).refcnt == 0
      ensures disk != old(disk) ==> old(NoneUsable(Row(Key(dev, blk)), true))
    {
      var k := Key(dev, blk);
      var found;
      found, h := Find(k);
      if found {
        Bump(h);
        return OK, h;
      }
      err, h := Evict(k);
    }

    /** Slots with holders keep their holders, their block and their validity. */
    twostate predicate Kept()
      reads ways
    {
      forall h: Way :: At(h) && old(Slot(h)).refcnt > 0 ==>
        && Slot(h).refcnt >= old(Slot(h)).refcnt
        && Slot(h).key == old(Slot(h)).key
        && (old(Slot(h)).valid ==> Slot(h).valid)
    }

    /** Every reference taken has been given back. */
    twostate predicate Balanced()
      reads ways
    {
      forall h: Way :: At(h) ==> Slot(h).refcnt == old(Slot(h)).refcnt
    }

    /** Every reference given back, the slots are lent to nobody new. */
    twostate lemma NoneLent()
      requires Kept() && Balanced()
      ensures Lent(old(SlotsOf(this)), SlotsOf(this), {})
    {
    }

    /** The row of block k is held if it was. */
    twostate lemma NoneSpare(k: Key)
      requires old(Full(k)) && Balanced()
      ensures !Spare(SlotsOf(this))
    {
      forall h | h in SlotsOf(this) && h.row == Row(k) ensures SlotsOf(this)[h].refcnt > 0 {
        assert old(Slot(h)).refcnt > 0;
      }
      assert RowHeld(SlotsOf(this), Row(k));
    }

    /** A row that is held stays held. */
    twostate lemma HeldStays()
      requires Kept() && !Spare(old(SlotsOf(this)))
      ensures !Spare(SlotsOf(this))
    {
      var row: nat :| row < BCWIDTH && RowHeld(old(SlotsOf(this)), row);
      forall h | h in SlotsOf(this) && h.row == row ensures SlotsOf(this)[h].refcnt > 0 {
        assert old(SlotsOf(this))[h].refcnt > 0;
        assert old(Slot(h)).refcnt > 0;
      }
      assert RowHeld(SlotsOf(this), row);
    }

    /** blk_read */
    method Read(dev: nat, blk: nat) returns (err: Err, h: Way)
      requires Valid()
      modifies this`nind, this`disk, ways
      ensures Valid()
      ensures Major(dev) >= MAXBDEVS ==> err == ENXIO
      ensures Major(dev) < MAXBDEVS && !Attached(dev) ==> err == ENODEV
      ensures Attached(dev) ==> err == if old(Absent(Key(dev, blk)) && Full(Key(dev, blk))) then ENOMEM else OK
      ensures err != OK ==> unchanged(ways) && disk == old(disk)
      ensures err == OK ==> At(h) && OthersSame(h) && Slot(h).refcnt == old(Slot(h)).refcnt + 1
      ensures err == OK ==> Slot(h).key == Key(dev, blk) && Slot(h).valid && Slot(h).data == view[Key(dev, blk)]
      ensures err == OK && old(Slot(h)).refcnt > 0 ==> old(Slot(h)).key == Key(dev, blk)
    {
      var drv := Major(dev);
      h := Way(0, 0);
      if drv >= MAXBDEVS { return ENXIO, h; }
      if drv !in drivers { return ENODEV, h; }
      err, h := Get(dev, blk);
      if err != OK { return; }
      if !Slot(h).valid {
        Load(h);
      }
    }

    /** The driver call of blk_read. */
    method Load(h: Way)
      requires Valid() && At(h) && Slot(h).refcnt > 0 && !Slot(h).valid
      modifies ways
      ensures Valid() && OthersSame(h)
      ensures Slot(h) == old(Slot(h)).(valid := true, data := view[old(Slot(h)).key])
    {
      var b := Slot(h);
      assert !Behind(b.key);
      ways[h.row, h.col] := b.(valid := true, data := disk[b.key]);
      assert forall w: Way :: At(w) && w != h ==> Slot(w) == old(Slot(w));
      forall q: Key | view[q] != disk[q] ensures Behind(q) {
        assert old(Behind(q));
        var w: Way :| At(w) && old(Slot(w).dirty && Slot(w).key == q);
        assert w != h;
      }
    }

    /** Stores data in a referenced slot and marks it valid and dirty. */
    method Fill(h: Way, data: Block)
      requires Valid() && At(h) && Slot(h).refcnt > 0 && Attached(Slot(h).key.dev)
      modifies this`view, ways
      ensures Valid() && OthersSame(h)
      ensures Slot(h) == old(Slot(h)).(valid := true, dirty := true, data := data)
      ensures view == old(view)[Slot(h).key := data]
    {
      var b := Slot(h);
      ways[h.row, h.col] := b.(valid := true, dirty := true, data := data);
      view := view[b.key := data];
      assert forall w: Way :: At(w) && w != h ==> Slot(w) == old(Slot(w));
      forall q: Key | view[q] != disk[q] ensures Behind(q) {
        if q == b.key {
          assert Slot(h).dirty;
        } else {
          assert old(Behind(q));
          var w: Way :| At(w) && old(Slot(w).dirty && Slot(w).key == q);
          assert w != h;
        }
      }
    }

    /** blk_put */
    method Put(h: Way)
      requires Valid() && At(h) && Slot(h).refcnt > 0
      modifies ways
      ensures Valid() && OthersSame(h)
      ensures Slot(h) == old(Slot(h)).(refcnt := old(Slot(h)).refcnt - 1)
    {
      ways[h.row, h.col] := Slot(h).(refcnt := Slot(h).refcnt - 1);
      assert forall w: Way :: At(w) ==> Slot(w).(refcnt := 0) == old(Slot(w)).(refcnt := 0);
    }

    /** Stores data in a referenced slot and gives the reference back. */
    method FillPut(h: Way, data: Block)
      requires Valid() && At(h) && Slot(h).refcnt > 0 && Attached(Slot(h).key.dev)
      modifies this`view, ways
      ensures Valid() && OthersSame(h)
      ensures Slot(h) == Buf(old(Slot(h)).refcnt - 1, true, true, old(Slot(h)).key, data)
      ensures view == old(view)[Slot(h).key := data]
    {
      Fill(h, data);
      Put(h);
    }

    /** blk_read, a copy of the data, blk_put. */
    method Fetch(dev: nat, blk: nat) returns (err: Err, data: Block)
      requires Valid()
      modifies this`nind, this`disk, ways
      ensures Valid() && Kept() && Balanced()
      ensures err == OK ==> data == view[Key(dev, blk)]
      ensures Attached(dev) ==> err == if old(Absent(Key(dev, blk)) && Full(Key(dev, blk))) then ENOMEM else OK
    {
      var h;
      err, h := Read(dev, blk);
      if err != OK { return err, ZERO_BLOCK; }
      data := Slot(h).data;
      Put(h);
    }

    /** blk_upread: copies part of a block out. */
    method UpRead(dev: nat, blk: nat, start: nat, len: nat) returns (err: Err, out: seq<byte>)
      requires Valid() && start + len <= BLK_SIZE
      modifies this`nind, this`disk, ways
      ensures Valid() && Kept() && Balanced()
      ensures err == OK ==> out == view[Key(dev, blk)][start..start + len]
      ensures Attached(dev) ==> err == if old(Absent(Key(dev, blk)) && Full(Key(dev, blk))) then ENOMEM else OK
    {
      var data;
      err, data := Fetch(dev, blk);
      out := data[start..start + len];
    }

    /** References the slot of a block; a block that will be written whole is not read first. */
    method Acquire(dev: nat, blk: nat, whole: bool) returns (err: Err, h: Way)
      requires Valid() && Attached(dev)
      modifies this`nind, this`disk, ways
      ensures Valid()
      ensures err == if old(Absent(Key(dev, blk)) && Full(Key(dev, blk))) then ENOMEM else OK
      ensures err != OK ==> unchanged(ways)
      ensures err == OK ==> At(h) && OthersSame(h) && Slot(h).refcnt == old(Slot(h)).refcnt + 1
      ensures err == OK ==> Slot(h).key == Key(dev, blk)
      ensures err == OK && old(Slot(h)).refcnt > 0 ==> old(Slot(h)).key == Key(dev, blk)
      ensures err == OK && !whole ==> Slot(h).data == view[Key(dev, blk)]
    {
      if whole {
        err, h := Get(dev, blk);
      } else {
        err, h := Read(dev, blk);
      }
    }

    /** blk_upwrite: copies bytes into a block; a whole block is not read first. */
    method UpWrite(dev: nat, blk: nat, start: nat, src: seq<byte>) returns (err: Err)
      requires Valid() && Attached(dev) && start + |src| <= BLK_SIZE
      modifies this`nind, this`disk, this`view, ways
      ensures Valid() && Kept() && Balanced()
      ensures err == if old(Absent(Key(dev, blk)) && Full(Key(dev, blk))) then ENOMEM else OK
      ensures view == if err == OK then old(view)[Key(dev, blk) := Patch(old(view)[Key(dev, blk)], start, src)] else old(view)
    {
      hide Absent;
      var h;
      err, h := Acquire(dev, blk, |src| == BLK_SIZE);
      if err != OK { return; }
      assert Patch(Slot(h).data, start, src) == Patch(view[Key(dev, blk)], start, src);
      FillPut(h, Patch(Slot(h).data, start, src));
    }

    /** blk_get, a copy of a whole block into the data, blk_put. */
    method Overwrite(dev: nat, blk: nat, data: Block) returns (err: Err)
      requires Valid() && Attached(dev)
      modifies this`nind, this`disk, this`view, ways
      ensures Valid() && Kept() && Balanced()
      ensures err == if old(Absent(Key(dev, blk)) && Full(Key(dev, blk))) then ENOMEM else OK
      ensures view == if err == OK then old(view)[Key(dev, blk) := data] else old(view)
    {
      var h;
      err, h := Acquire(dev, blk, true);
      if err != OK { return; }
      FillPut(h, data);
    }

    /** The slot blk_sync leaves behind in place of b. */
    static function Synced(b: Buf, invl: bool): Buf {
      b.(dirty := false, valid := b.valid && !(invl && b.refcnt == 0))
    }

    /** Marks an unreferenced, clean slot invalid. */
    method Drop(h: Way)
      requires Valid() && At(h) && Usable(Slot(h), true)
      modifies ways
      ensures Valid() && OthersSame(h)
      ensures Slot(h) == old(Slot(h)).(valid := false)
    {
      ways[h.row, h.col] := Slot(h).(valid := false);
      assert forall w: Way :: At(w) && w != h ==> Slot(w) == old(Slot(w));
      forall q: Key | view[q] != disk[q] ensures Behind(q) {
        assert old(Behind(q));
        var w: Way :| At(w) && old(Slot(w).dirty && Slot(w).key == q);
        assert w != h;
      }
    }

    /** blk_sync with no timeout. */
    method Sync(invl: bool)
      requires Valid()
      modifies this`disk, ways
      ensures Valid() && disk == view
      ensures forall h: Way :: At(h) ==> Slot(h) == Synced(old(Slot(h)), invl)
    {
      hide Attached;
      for i := 0 to BCWIDTH
        invariant Valid()
        invariant forall h: Way :: At(h) ==> Slot(h) == if h.row < i then Synced(old(Slot(h)), invl) else old(Slot(h))
      {
        for n := 0 to BCDEPTH
          invariant Valid()
          invariant forall h: Way :: At(h) ==>
            Slot(h) == if h.row < i || (h.row == i && h.col < n) then Synced(old(Slot(h)), invl) else old(Slot(h))
        {
          var h := Way(i, n);
          Write(h);
          if invl && Slot(h).refcnt == 0 {
            Drop(h);
          }
        }
      }
      assert forall k: Key :: !Behind(k);
    }
  }
}
