/** A mounted volume: the block allocator of kern/fs/alloc.c and the free-map
    persistence of kern/fs/mount.c, over the buffer cache. */
module Volume {
  import opened Bytes
  import opened Errors
  import opened Cache
  import opened Holders

  const GROUP := 4096  // blocks per bitmap block
  const UNKNOWN: u32 := 0xFFFF_FFFF

  /** nfree-- and nfree++ on the 32-bit count, which UNKNOWN switches off. */
  function Less(n: u32): u32 { if n == UNKNOWN then n else (n + 0xFFFF_FFFF) % 0x1_0000_0000 }
  function More(n: u32): u32 { if n == UNKNOWN then n else (n + 1) % 0x1_0000_0000 }

  ghost predicate Counts(n: u32, free: set<nat>) {
    n != UNKNOWN ==> n == |free|
  }

  lemma LessCounts(n: u32, free: set<nat>, b: nat)
    requires b in free && Counts(n, free)
    ensures Counts(Less(n), free - {b}) && (Less(n) == UNKNOWN <==> n == UNKNOWN)
  {
    assert free == free - {b} + {b};
  }

  lemma {:induction false} SizeBelow(s: set<nat>, n: nat)
    requires forall x :: x in s ==> x < n
    ensures |s| <= n
  {
    if n > 0 {
      SizeBelow(s - {n - 1}, n - 1);
      assert s <= s - {n - 1} + {n - 1};
    } else {
      assert s == {};
    }
  }

  lemma MoreCounts(n: u32, free: set<nat>, b: nat)
    requires b !in free && Counts(n, free)
    requires b < UNKNOWN - 1 && forall x :: x in free ==> x < UNKNOWN - 1
    ensures Counts(More(n), free + {b}) && (More(n) == UNKNOWN <==> n == UNKNOWN)
  {
    SizeBelow(free + {b}, UNKNOWN - 1);
  }

  /** Where things are on the device; fixed from mkfs on. */
  datatype Layout = Layout(dev: nat, bitmap: nat, dblock: nat, nblocks: nat) {
    function Groups(): nat { (nblocks + 4095) / GROUP }

    /** Every group has a block of the volume, and every block a group. */
    lemma GroupsFit()
      ensures forall g: nat :: g < Groups() <==> GROUP * g < nblocks
    {
    }

    /** The boot block and superblock come first, then the bitmap, then the data. */
    predicate Sane() {
      1 < bitmap && bitmap + Groups() <= dblock && nblocks < UNKNOWN
    }

    predicate InData(b: nat) { dblock <= b < nblocks }

    /** The free blocks that a file can get. */
    ghost function Room(used: set<nat>): set<nat> {
      set b: nat | dblock <= b < nblocks && b !in used
    }

    /** The key of the bitmap block of group g. */
    function MapKey(g: nat): Key { Key(dev, bitmap + g) }

    /** The on-disk bitmap bit of block b. */
    ghost predicate DiskBit(v: View, b: nat) {
      BitAt(v[MapKey(b / GROUP)], b % GROUP)
    }

    /** The blocks the on-disk bitmap gives as allocated. */
    ghost function DiskUsed(v: View): set<nat> {
      set b: nat | b < nblocks && DiskBit(v, b)
    }

    lemma BitOfByte(v: View, g: nat, k: nat, j: nat)
      requires k < BLK_SIZE && j < 8
      ensures DiskBit(v, GROUP * g + 8 * k + j) == Bit(v[MapKey(g)][k], j)
    {
      var b := GROUP * g + 8 * k + j;
      assert b / GROUP == g && b % GROUP == 8 * k + j;
      assert (8 * k + j) / 8 == k && (8 * k + j) % 8 == j;
    }

    /** The blocks below n that the on-disk bitmap gives as free. */
    ghost function ClearBelow(v: View, n: nat): set<nat> {
      set b: nat | b < n && b < nblocks && !DiskBit(v, b)
    }

    lemma ClearStep(v: View, n: nat)
      requires n < nblocks
      ensures ClearBelow(v, n + 1) == if DiskBit(v, n) then ClearBelow(v, n) else ClearBelow(v, n) + {n}
      ensures n !in ClearBelow(v, n)
    {}

    lemma ClearAll(v: View, n: nat, m: nat)
      requires nblocks <= n <= m
      ensures ClearBelow(v, n) == ClearBelow(v, m)
    {}

    lemma ClearFits(v: View, n: nat)
      ensures |ClearBelow(v, n)| <= nblocks
    {
      SizeBelow(ClearBelow(v, n), nblocks);
    }
  }

  class Volume {
    const cache: BlkCache
    const at: Layout
    const freemap: array<byte>
    const freedirt: array<bool>
    var ro: bool
    var freeblk: nat
    var nfree: u32
    /** The allocated blocks: the set bits of freemap. */
    ghost var used: set<nat>

    /** The in-core superblock and the empty free map, as read_super and load_freemap set them up. */
    constructor (c: BlkCache, layout: Layout, readOnly: bool)
      requires layout.Sane() && c.Attached(layout.dev)
      ensures cache == c && at == layout && ro == readOnly && nfree == UNKNOWN && freeblk == layout.dblock
      ensures Shaped() && fresh(freemap) && fresh(freedirt)
      ensures forall g :: 0 <= g < freedirt.Length ==> !freedirt[g]
    {
      cache, at, ro := c, layout, readOnly;
      freeblk, nfree, used := layout.dblock, UNKNOWN, {};
      freemap := new byte[BLK_SIZE * layout.Groups()];
      freedirt := new bool[layout.Groups()](_ => false);
    }

    ghost predicate Shaped() {
      && at.Sane()
      && freedirt.Length == at.Groups()
      && freemap.Length == BLK_SIZE * at.Groups()
      && cache.Attached(at.dev)
    }

    /** The part of the free map that belongs to group g. */
    ghost function Group(g: nat): seq<byte>
      requires Shaped() && g < at.Groups()
      reads freemap
    {
      freemap[BLK_SIZE * g..BLK_SIZE * (g + 1)]
    }

    ghost predicate Marks()
      requires Shaped()
      reads this`used, freemap
    {
      && (forall b :: b in used ==> b < at.nblocks)
      && (forall b: nat :: b < at.nblocks ==> (b in used <==> BitAt(freemap[..], b)))
    }

    /** A group that is not flagged dirty is on disk as it is in memory. */
    ghost predicate CleanSaved()
      requires Shaped()
      reads freemap, freedirt, cache`view
    {
      forall g: nat :: g < at.Groups() && !freedirt[g] ==> Group(g) == cache.view[at.MapKey(g)]
    }

    /** Below the moving hint everything is allocated. */
    ghost predicate Hinted()
      reads this`freeblk, this`used
    {
      forall b: nat :: at.dblock <= b < freeblk && b < at.nblocks ==> b in used
    }

    ghost predicate Valid()
      reads this, freemap, freedirt, cache, cache.ways
    {
      cache.Valid() && Shaped() && Sound()
    }

    /** The free map, its dirty flags and the hint agree. */
    ghost predicate Sound()
      reads this`used, this`freeblk, freemap, freedirt, cache`view
    {
      Shaped() && Marks() && CleanSaved() && Hinted()
    }

    /** The free count, once known, is exact. */
    ghost predicate Exact()
      reads this`nfree, this`used
    {
      Counts(nfree, Free())
    }

    ghost function Free(): set<nat>
      reads this`used
    {
      set b: nat | b < at.nblocks && b !in used
    }

    /** What an error says of the volume and of the buffers, as they are when it is returned. */
    ghost predicate Because(err: Err)
      reads this`used, this`ro, cache.ways
    {
      && (err == EROFS ==> ro)
      && (err == ENOSPC ==> at.Room(used) == {})
      && (err == ENOMEM ==> !Spare(SlotsOf(cache)))
    }

    /** Sets or clears the bit of block b and flags its group. */
    method Mark(b: nat, v: bool)
      requires Sound() && b < at.nblocks
      requires v || freeblk <= b
      modifies this`used, freemap, freedirt
      ensures Sound()
      ensures used == if v then old(used) + {b} else old(used) - {b}
    {
      freedirt[b / GROUP] := true;
      ghost var m := freemap[..];
      freemap[b / 8] := PutBitByte(freemap[..], b, v);
      used := if v then used + {b} else used - {b};
      assert freemap[..] == m[b / 8 := PutBitByte(m, b, v)];
      forall c: nat | c < at.nblocks ensures c in used <==> BitAt(freemap[..], c) {
        BitAtPut(m, b, v, c);
      }
      forall g: nat | g < at.Groups() && !freedirt[g] ensures Group(g) == cache.view[at.MapKey(g)] {
        assert Group(g) == m[BLK_SIZE * g..BLK_SIZE * (g + 1)];
      }
    }

    /** A cache operation leaves the volume sound if every clean group was clean and its
        bitmap block is untouched, or its bitmap block is the group's part of the free map. */
    twostate lemma StaysSound()
      requires old(Sound())
      requires unchanged(this) && unchanged(freemap)
      requires forall g: nat :: g < at.Groups() && !freedirt[g] ==>
        || cache.view[at.MapKey(g)] == Group(g)
        || (old(!freedirt[g]) && cache.view[at.MapKey(g)] == old(cache.view)[at.MapKey(g)])
      ensures Sound()
    {
      forall g: nat | g < at.Groups() && !freedirt[g] ensures Group(g) == cache.view[at.MapKey(g)] {
        assert Group(g) == old(Group(g));
      }
    }

    /** erase_blk on a data block. */
    method Erase(b: nat) returns (err: Err)
      requires Valid() && at.InData(b)
      modifies cache`nind, cache`disk, cache`view, cache.ways
      ensures Valid() && cache.Kept() && cache.Balanced()
      ensures err in {OK, ENOMEM} && (err == OK || Because(err)) && Lent(old(SlotsOf(cache)), SlotsOf(cache), {})
      ensures cache.view == if err == OK then old(cache.view)[Key(at.dev, b) := ZERO_BLOCK] else old(cache.view)
    {
      err := cache.Overwrite(at.dev, b, ZERO_BLOCK);
      StaysSound();
      cache.NoneLent();
      if err == ENOMEM { cache.NoneSpare(Key(at.dev, b)); }
    }

    /** blk_upwrite on a data block. */
    method WriteData(b: nat, start: nat, src: seq<byte>) returns (err: Err)
      requires Valid() && at.InData(b) && start + |src| <= BLK_SIZE
      modifies cache`nind, cache`disk, cache`view, cache.ways
      ensures Valid() && cache.Kept() && cache.Balanced()
      ensures err in {OK, ENOMEM} && (err == OK || Because(err)) && Lent(old(SlotsOf(cache)), SlotsOf(cache), {})
      ensures cache.view == if err == OK then old(cache.view)[Key(at.dev, b) := Patch(old(cache.view)[Key(at.dev, b)], start, src)]
                            else old(cache.view)
    {
      err := cache.UpWrite(at.dev, b, start, src);
      StaysSound();
      cache.NoneLent();
      if err == ENOMEM { cache.NoneSpare(Key(at.dev, b)); }
    }

    /** blk_read of block b. */
    method Hold(b: nat) returns (err: Err, h: Way)
      requires cache.Valid() && cache.Attached(at.dev)
      modifies cache`nind, cache`disk, cache.ways
      ensures cache.Valid() && err in {OK, ENOMEM} && (err == OK || Because(err)) && cache.Kept()
      ensures err == OK ==> cache.Holds(h, Key(at.dev, b)) && cache.Slot(h).valid
      ensures err == OK ==> cache.Slot(h).data == cache.view[Key(at.dev, b)]
      ensures err == OK ==> cache.OthersSame(h) && cache.Slot(h).refcnt == old(cache.Slot(h)).refcnt + 1
      ensures Lent(old(SlotsOf(cache)), SlotsOf(cache), {Key(at.dev, b)})
    {
      err, h := cache.Read(at.dev, b);
      if err == ENOMEM { cache.NoneSpare(Key(at.dev, b)); }
    }

    /** blk_read of block b, a copy of its data, blk_put. */
    method FetchBlock(b: nat) returns (err: Err, data: Block)
      requires cache.Valid() && cache.Attached(at.dev)
      modifies cache`nind, cache`disk, cache.ways
      ensures cache.Valid() && err in {OK, ENOMEM} && (err == OK || Because(err))
      ensures err == OK ==> data == cache.view[Key(at.dev, b)]
    {
      err, data := cache.Fetch(at.dev, b);
      if err == ENOMEM { cache.NoneSpare(Key(at.dev, b)); }
    }

    /** blk_get of block b, a copy of a whole block into it, blk_put. */
    method StoreBlock(b: nat, data: Block) returns (err: Err)
      requires cache.Valid() && cache.Attached(at.dev)
      modifies cache`nind, cache`disk, cache`view, cache.ways
      ensures cache.Valid() && err in {OK, ENOMEM} && (err == OK || Because(err))
      ensures cache.view == if err == OK then old(cache.view)[Key(at.dev, b) := data] else old(cache.view)
    {
      err := cache.Overwrite(at.dev, b, data);
      if err == ENOMEM { cache.NoneSpare(Key(at.dev, b)); }
    }

    /** blk_upread of the volume. */
    method ReadData(b: nat, start: nat, len: nat) returns (err: Err, out: seq<byte>)
      requires Valid() && start + len <= BLK_SIZE
      modifies cache`nind, cache`disk, cache.ways
      ensures Valid() && cache.Kept() && cache.Balanced()
      ensures err in {OK, ENOMEM} && (err == OK || Because(err)) && Lent(old(SlotsOf(cache)), SlotsOf(cache), {})
      ensures err == OK ==> out == cache.view[Key(at.dev, b)][start..start + len]
    {
      err, out := cache.UpRead(at.dev, b, start, len);
      cache.NoneLent();
      if err == ENOMEM { cache.NoneSpare(Key(at.dev, b)); }
    }

    /** A store through a pointer into the data of a referenced buffer, and its dirty flag. */
    method StoreWord(h: Way, ghost m: nat, j: nat, w: u32)
      requires Valid() && at.InData(m) && j < WORDS
      requires cache.Holds(h, Key(at.dev, m)) && cache.Slot(h).valid
      modifies cache`view, cache.ways
      ensures Valid() && cache.Kept() && cache.Balanced()
      ensures cache.view == old(cache.view)[Key(at.dev, m) := PutWord(old(cache.view)[Key(at.dev, m)], j, w)]
      ensures cache.Holds(h, Key(at.dev, m)) && cache.Slot(h).valid && cache.Slot(h).data == cache.view[Key(at.dev, m)]
      ensures Lent(old(SlotsOf(cache)), SlotsOf(cache), {})
    {
      cache.Fill(h, PutWord(cache.Slot(h).data, j, w));
      StaysSound();
      cache.NoneLent();
    }

    /** alloc_blk */
    method Alloc() returns (err: Err, b: u32)
      requires Valid()
      modifies this`freeblk, this`nfree, this`used, freemap, freedirt, cache`nind, cache`disk, cache`view, cache.ways
      ensures Valid() && cache.Kept() && cache.Balanced()
      ensures err in {OK, EROFS, ENOSPC, ENOMEM} && (err == OK || Because(err)) && Lent(old(SlotsOf(cache)), SlotsOf(cache), {})
      ensures err == EROFS <==> ro
      ensures err == ENOSPC <==> !ro && forall c: nat :: at.InData(c) ==> c in old(used)
      ensures err == OK ==> at.InData(b) && b !in old(used) && used == old(used) + {b}
      ensures err == OK ==> (forall c: nat :: at.dblock <= c < b ==> c in old(used)) && freeblk == b + 1
      ensures err == OK ==> cache.view == old(cache.view)[Key(at.dev, b) := ZERO_BLOCK]
      ensures err != OK ==> used == old(used) && cache.view == old(cache.view) && nfree == old(nfree)
      ensures old(Exact()) ==> Exact() && (nfree == UNKNOWN <==> old(nfree) == UNKNOWN)
    {
      hide BlkCache.Valid, SlotsOf, Lent, Spare;
      b := 0;
      LentSame(SlotsOf(cache), {});
      if ro { return EROFS, b; }
      if freeblk < at.dblock {
        freeblk := at.dblock;
      }
      var i := freeblk;
      while i < at.nblocks
        invariant forall c: nat :: at.dblock <= c < i && c < at.nblocks ==> c in used
        invariant at.dblock <= i
      {
        if !BitAt(freemap[..], i) {
          assert at.InData(i) && i !in used;
          err := Take(i);
          b := i;
          return;
        }
        i := i + 1;
      }
      assert forall c: nat :: at.InData(c) ==> c in used;
      err := ENOSPC;
    }

    /** alloc_blk with the answer stored as word j of the referenced map block m. */
    method AllocWord(h: Way, ghost m: nat, j: nat) returns (err: Err, b: u32)
      requires Valid() && at.InData(m) && m in used && j < WORDS
      requires cache.Holds(h, Key(at.dev, m)) && cache.Slot(h).valid
      modifies this`freeblk, this`nfree, this`used, freemap, freedirt, cache`nind, cache`disk, cache`view, cache.ways
      ensures Valid()
      ensures err in {OK, EROFS, ENOSPC, ENOMEM} && (err == OK || Because(err)) && (err == OK ==> !ro)
      ensures Lent(old(SlotsOf(cache)), SlotsOf(cache), {})
      ensures err == OK ==> at.InData(b) && b !in old(used) && used == old(used) + {b}
      ensures err == OK ==>
        cache.view == old(cache.view)[Key(at.dev, b) := ZERO_BLOCK][Key(at.dev, m) := PutWord(old(cache.view)[Key(at.dev, m)], j, b)]
      ensures err == OK ==> cache.At(h) && cache.Slot(h).data == cache.view[Key(at.dev, m)]
      ensures err != OK ==> used == old(used) && cache.view == old(cache.view) && nfree == old(nfree)
      ensures old(Exact()) ==> Exact()
    {
      hide BlkCache.Valid, Sound, PutWord, Exact, SlotsOf, Lent, Spare;
      ghost var was := SlotsOf(cache);
      err, b := Alloc();
      if err != OK { return; }
      ghost var mid := SlotsOf(cache);
      StoreWord(h, m, j, b);
      LentBoth(was, mid, SlotsOf(cache), {}, {}, {});
    }

    /** The body of the loop of alloc_blk at a clear bit. */
    method Take(b: nat) returns (err: Err)
      requires Valid() && at.InData(b) && b !in used && !ro
      requires forall c: nat :: at.dblock <= c < b ==> c in used
      modifies this`freeblk, this`nfree, this`used, freemap, freedirt, cache`nind, cache`disk, cache`view, cache.ways
      ensures Valid() && cache.Kept() && cache.Balanced()
      ensures err in {OK, ENOMEM} && (err == OK || Because(err)) && Lent(old(SlotsOf(cache)), SlotsOf(cache), {})
      ensures err == OK ==> freeblk == b + 1
      ensures err == OK ==> used == old(used) + {b} && cache.view == old(cache.view)[Key(at.dev, b) := ZERO_BLOCK]
      ensures err != OK ==> used == old(used) && cache.view == old(cache.view) && nfree == old(nfree)
      ensures old(Exact()) ==> Exact() && (nfree == UNKNOWN <==> old(nfree) == UNKNOWN)
    {
      hide SlotsOf, Lent, Spare;
      err := Erase(b);
      if err != OK { return; }
      Charge(b);
    }

    /** The in-core side of taking block b: its bit, the hint and the count. */
    method Charge(b: nat)
      requires Sound() && at.InData(b) && b !in used
      requires forall c: nat :: at.dblock <= c < b ==> c in used
      modifies this`freeblk, this`nfree, this`used, freemap, freedirt
      ensures Sound() && used == old(used) + {b} && freeblk == b + 1
      ensures old(Exact()) ==> Exact() && (nfree == UNKNOWN <==> old(nfree) == UNKNOWN)
    {
      Mark(b, true);
      freeblk := b + 1;
      CountTaken(old(Free()), b);
    }

    /** Lowers a known free count. */
    method CountTaken(ghost free: set<nat>, b: nat)
      requires b in free && Free() == free - {b}
      modifies this`nfree
      ensures old(Counts(nfree, free)) ==> Exact() && (nfree == UNKNOWN <==> old(nfree) == UNKNOWN)
    {
      if Counts(nfree, free) {
        LessCounts(nfree, free, b);
      }
      nfree := Less(nfree);
    }

    /** free_blk */
    method Release(b: nat)
      requires Sound() && b < at.nblocks
      modifies this`freeblk, this`nfree, this`used, freemap, freedirt
      ensures Sound() && used == old(used) - {b} && freeblk == Min(old(freeblk), b)
      ensures b in old(used) && old(Exact()) ==> Exact() && (nfree == UNKNOWN <==> old(nfree) == UNKNOWN)
    {
      if freeblk > b {
        freeblk := b;
      }
      Mark(b, false);
      if b in old(used) && old(Exact()) {
        assert Free() == old(Free()) + {b};
        MoreCounts(nfree, old(Free()), b);
      }
      nfree := More(nfree);
    }

    /** Bit b of the free map is bit b mod 4096 of its group. */
    lemma BitOfGroup(b: nat)
      requires Shaped() && b < at.nblocks
      ensures b / GROUP < at.Groups()
      ensures BitAt(freemap[..], b) == BitAt(Group(b / GROUP), b % GROUP)
    {
      var g := b / GROUP;
      assert b / 8 == BLK_SIZE * g + b % GROUP / 8;
      assert Group(g)[b % GROUP / 8] == freemap[..][b / 8];
    }

    /** With no dirty group, the disk has exactly the in-core free map. */
    lemma AllSaved()
      requires Valid() && forall g :: 0 <= g < at.Groups() ==> !freedirt[g]
      ensures at.DiskUsed(cache.view) == used
    {
      forall b: nat | b < at.nblocks ensures at.DiskBit(cache.view, b) == (b in used) {
        BitOfGroup(b);
        assert !freedirt[b / GROUP];
      }
    }

    /** load_freemap */
    method LoadFreemap() returns (err: Err)
      requires Shaped() && cache.Valid() && freeblk <= at.dblock
      modifies this`used, freemap, freedirt, cache`nind, cache`disk, cache.ways
      ensures cache.Valid() && Shaped()
      ensures err in {OK, ENOMEM} && (err == OK || Because(err))
      ensures err == OK ==> Valid() && used == at.DiskUsed(cache.view)
      ensures err == OK ==> forall g :: 0 <= g < at.Groups() ==> !freedirt[g]
    {
      hide BlkCache.Valid, Because;
      forall g | 0 <= g < freedirt.Length { freedirt[g] := false; }
      var g := 0;
      while g < at.Groups()
        invariant g <= at.Groups() && cache.Valid()
        invariant forall j: nat :: j < g ==> Group(j) == cache.view[at.MapKey(j)]
        invariant forall j :: 0 <= j < at.Groups() ==> !freedirt[j]
      {
        err := LoadGroup(g);
        if err != OK { return; }
        g := g + 1;
      }
      used := at.DiskUsed(cache.view);
      forall b: nat | b < at.nblocks ensures b in used <==> BitAt(freemap[..], b) {
        BitOfGroup(b);
      }
      err := OK;
    }

    /** The loop body of load_freemap. */
    method LoadGroup(g: nat) returns (err: Err)
      requires Shaped() && cache.Valid() && g < at.Groups()
      modifies freemap, cache`nind, cache`disk, cache.ways
      ensures cache.Valid() && err in {OK, ENOMEM} && (err == OK || Because(err))
      ensures err == OK ==> Group(g) == cache.view[at.MapKey(g)]
      ensures err != OK ==> freemap[..] == old(freemap[..])
      ensures forall j: nat :: j < at.Groups() && j != g ==> Group(j) == old(Group(j))
    {
      hide BlkCache.Valid, Because;
      var data;
      err, data := FetchBlock(at.bitmap + g);
      if err == OK { CopyIn(g, data); }
    }

    /** The memcpy of load_freemap. */
    method CopyIn(g: nat, data: Block)
      requires Shaped() && g < at.Groups()
      modifies freemap
      ensures Group(g) == data
      ensures forall j: nat :: j < at.Groups() && j != g ==> Group(j) == old(Group(j))
    {
      forall k | 0 <= k < BLK_SIZE { freemap[BLK_SIZE * g + k] := data[k]; }
      forall j: nat | j < at.Groups() && j != g ensures Group(j) == old(Group(j)) {
        assert forall k :: 0 <= k < BLK_SIZE ==> Group(j)[k] == old(Group(j))[k];
      }
    }

    /** save_freemap */
    method SaveFreemap() returns (err: Err)
      requires Valid()
      modifies freedirt, cache`nind, cache`disk, cache`view, cache.ways
      ensures Valid()
      ensures err in {OK, ENOMEM} && (err == OK || Because(err))
      ensures ro ==> err == OK && unchanged(freedirt) && cache.view == old(cache.view) && cache.disk == old(cache.disk)
      ensures err == OK && !ro ==> forall g :: 0 <= g < at.Groups() ==> !freedirt[g]
      ensures err == OK && !ro ==> at.DiskUsed(cache.view) == used
      ensures forall k: Key :: (forall g: nat :: g < at.Groups() ==> k != at.MapKey(g)) ==> cache.view[k] == old(cache.view)[k]
    {
      hide Spare, SlotsOf;
      if ro { return OK; }
      var g := 0;
      while g < at.Groups()
        invariant g <= at.Groups() && Valid()
        invariant forall j :: 0 <= j < g ==> !freedirt[j]
        invariant forall k: Key :: (forall j: nat :: j < at.Groups() ==> k != at.MapKey(j)) ==> cache.view[k] == old(cache.view)[k]
      {
        if freedirt[g] {
          err := SaveGroup(g);
          if err != OK { return; }
        }
        g := g + 1;
      }
      AllSaved();
      err := OK;
    }

    /** The loop body of save_freemap for a dirty group. */
    method SaveGroup(g: nat) returns (err: Err)
      requires Valid() && g < at.Groups()
      modifies freedirt, cache`nind, cache`disk, cache`view, cache.ways
      ensures Valid()
      ensures err in {OK, ENOMEM} && (err == OK || Because(err))
      ensures err == OK ==> !freedirt[g] && cache.view == old(cache.view)[at.MapKey(g) := Group(g)]
      ensures err != OK ==> cache.view == old(cache.view)
      ensures forall j :: 0 <= j < at.Groups() && j != g ==> freedirt[j] == old(freedirt[j])
    {
      hide BlkCache.Valid, Because, Marks, Hinted;
      var data := freemap[BLK_SIZE * g..BLK_SIZE * (g + 1)];
      err := StoreBlock(at.bitmap + g, data);
      assert Group(g) == data;
      if err == OK {
        freedirt[g] := false;
      }
      forall j: nat | j < at.Groups() && !freedirt[j] ensures Group(j) == cache.view[at.MapKey(j)] {
        assert j != g ==> at.MapKey(j) != at.MapKey(g);
      }
    }

    /** count_free. As in the kernel, the last bitmap block stays referenced when it is only
        partly in use, and a failed count leaves a wrong nfree behind. */
    method CountFree() returns (err: Err)
      requires Valid()
      modifies this`nfree, cache`nind, cache`disk, cache.ways
      ensures Valid()
      ensures err in {OK, ENOMEM} && (err == OK || Because(err))
      ensures err == OK ==> nfree == |at.ClearBelow(cache.view, at.nblocks)|
      ensures err == OK && (forall g :: 0 <= g < at.Groups() ==> !freedirt[g]) ==> nfree != UNKNOWN && Exact()
    {
      hide Because;
      err := CountDisk();
      if err == OK {
        at.ClearFits(cache.view, at.nblocks);
        if forall g :: 0 <= g < at.Groups() ==> !freedirt[g] {
          AllSaved();
          assert at.ClearBelow(cache.view, at.nblocks) == Free();
        }
      }
    }

    /** The outer loop of count_free. */
    method CountDisk() returns (err: Err)
      requires cache.Valid() && Shaped()
      modifies this`nfree, cache`nind, cache`disk, cache.ways
      ensures cache.Valid()
      ensures err in {OK, ENOMEM} && (err == OK || Because(err))
      ensures err == OK ==> nfree == |at.ClearBelow(cache.view, at.nblocks)|
    {
      hide BlkCache.Valid, Because;
      nfree := 0;
      assert at.ClearBelow(cache.view, 0) == {};
      for g := 0 to at.Groups()
        invariant cache.Valid()
        invariant nfree == |at.ClearBelow(cache.view, GROUP * g)|
      {
        var h;
        err, h := CountOne(g);
        if err != OK || GROUP * (g + 1) > at.nblocks {
          if err == OK { at.ClearAll(cache.view, at.nblocks, GROUP * (g + 1)); }
          return;
        }
      }
      err := OK;
      at.ClearAll(cache.view, at.nblocks, GROUP * at.Groups());
    }

    /** The body of the outer loop. The buffer of the last group is not given back if the volume ends in it. */
    method CountOne(g: nat) returns (err: Err, h: Way)
      requires cache.Valid() && Shaped() && g < at.Groups() && nfree == |at.ClearBelow(cache.view, GROUP * g)|
      modifies this`nfree, cache`nind, cache`disk, cache.ways
      ensures cache.Valid() && err in {OK, ENOMEM} && (err == OK || Because(err))
      ensures err == OK ==> nfree == |at.ClearBelow(cache.view, GROUP * (g + 1))|
      ensures err == OK && GROUP * (g + 1) <= at.nblocks ==> cache.Balanced()
      ensures err == OK && GROUP * (g + 1) > at.nblocks ==>
                cache.Holds(h, at.MapKey(g)) && cache.OthersSame(h) && cache.Slot(h).refcnt == old(cache.Slot(h)).refcnt + 1
    {
      hide BlkCache.Valid, Because, Lent, BlkCache.Kept;
      err, h := Hold(at.bitmap + g);
      if err != OK { return; }
      CountGroup(g, cache.Slot(h).data);
      if GROUP * (g + 1) <= at.nblocks { cache.Put(h); }
    }

    /** The middle loop of count_free. */
    method CountGroup(g: nat, data: Block)
      requires Shaped() && g < at.Groups() && data == cache.view[at.MapKey(g)]
      requires nfree == |at.ClearBelow(cache.view, GROUP * g)|
      modifies this`nfree
      ensures nfree == |at.ClearBelow(cache.view, GROUP * (g + 1))|
    {
      for k := 0 to BLK_SIZE
        invariant nfree == |at.ClearBelow(cache.view, GROUP * g + 8 * k)|
      {
        var at8 := GROUP * g + 8 * k;
        forall j: nat | j < 8 ensures at.DiskBit(cache.view, at8 + j) == Bit(data[k], j) {
          at.BitOfByte(cache.view, g, k, j);
        }
        CountByte(data[k], at8, cache.view);
        if at8 + 8 > at.nblocks {
          at.ClearAll(cache.view, at8 + 8, GROUP * (g + 1));
          return;
        }
      }
    }

    lemma ShiftedBits(s: nat, x: nat, n: nat)
      requires forall j: nat :: j + n < 8 ==> Bit(s, j) == Bit(x, j + n)
      ensures Bit(s, 0) <==> s % 2 == 1
      ensures forall j: nat :: j + n + 1 < 8 ==> Bit(s / 2, j) == Bit(x, j + n + 1)
    {
      forall j: nat | j + n + 1 < 8 ensures Bit(s / 2, j) == Bit(x, j + n + 1) {
        assert Bit(s, j + 1) == Bit(s / 2, j);
      }
    }

    /** The inner loop of count_free, over the bits of one byte. */
    method CountByte(x: byte, bn: nat, ghost v: View)
      requires forall j: nat :: j < 8 ==> at.DiskBit(v, bn + j) == Bit(x, j)
      requires at.Sane() && nfree == |at.ClearBelow(v, bn)|
      modifies this`nfree
      ensures nfree == |at.ClearBelow(v, bn + 8)|
    {
      hide Bit, Layout.DiskBit, Layout.ClearBelow;
      var s: nat := x;
      for n := 0 to 8
        invariant forall j: nat :: j + n < 8 ==> Bit(s, j) == Bit(x, j + n)
        invariant nfree == |at.ClearBelow(v, bn + n)|
      {
        if bn + n >= at.nblocks {
          at.ClearAll(v, bn + n, bn + 8);
          return;
        }
        at.ClearStep(v, bn + n);
        at.ClearFits(v, bn + n + 1);
        ShiftedBits(s, x, n);
        assert Bit(s, 0) == at.DiskBit(v, bn + n);
        if s % 2 == 0 {
          nfree := nfree + 1;
        }
        s := s / 2;
      }
    }
  }
}
