/** Block map lookup and growth, kern/fs/bmap.c, on an in-core inode. */
module Bmap {
  import opened Bytes
  import opened Errors
  import opened Cache
  import opened Holders
  import opened Volume
  import opened FileTree

  /** The i-th power of the number of pointers in a map block: 1 << level * 7. */
  function Span(level: nat): (n: nat)
    ensures n >= 1
  {
    if level == 0 then 1 else WORDS * Span(level - 1)
  }

  lemma SpanZero()
    ensures Span(0) == 1
  {}

  /** What a lookup answers: TooBig is EFBIG. */
  datatype Answer = TooBig | Blk(b: u32)

  /** The lookup of file block bn, as bmap3, bmap6 and bmindir walk the pointers. At and above
      BMAP_LOW the index is off by twice the single-indirect range, and the walk stops one
      level early because the answer of the inner bmindir is dropped. */
  ghost function Walk(d: Dinode, st: Store, bn: nat): Answer {
    if bn < BMAP0_SIZE then Blk(RootPtr(d, bn))
    else if bn < BMAP_LOW then
      Blk(Entry(st, RootPtr(d, ROOT1 + (bn - BMAP0_SIZE) / WORDS), (bn - BMAP0_SIZE) % WORDS))
    else
      var n := bn - BMAP0_SIZE + BMAP1_SIZE * WORDS;
      if n / WORDS / WORDS >= BMAP2_SIZE then TooBig
      else Blk(Entry(st, RootPtr(d, ROOT2 + n / WORDS / WORDS), n / WORDS % WORDS))
  }

  /** Below BMAP_LOW the lookup finds the data block of its file block. */
  lemma WalkFindsData(d: Dinode, st: Store, bn: nat)
    requires bn < BMAP_LOW
    ensures Walk(d, st, bn) == Blk(Ptr(d, st, SlotOf(bn)))
  {}

  /** The map slot that a lookup at or above BMAP_LOW reads in place of the data slot. */
  ghost function Misread(bn: nat): Slot
    requires bn >= BMAP_LOW
  {
    var n := bn - BMAP0_SIZE + BMAP1_SIZE * WORDS;
    Mid(ROOT2 + n / WORDS / WORDS, n / WORDS % WORDS)
  }

  /** The lookup is right exactly below BMAP_LOW and, further up, where the file block is a hole
      and the map slot read in its place exists and is empty too. */
  lemma WalkRightIff(d: Dinode, st: Store, bn: nat)
    requires bn < BMAP_END && Unshared(d, st)
    ensures Walk(d, st, bn) == Blk(Ptr(d, st, SlotOf(bn)))
            <==> bn < BMAP_LOW || (InTree(Misread(bn)) && Ptr(d, st, Misread(bn)) == 0 == Ptr(d, st, SlotOf(bn)))
  {
    if bn >= BMAP_LOW && Walk(d, st, bn).Blk? {
      var m := Misread(bn);
      assert Walk(d, st, bn).b == Ptr(d, st, m) && m != SlotOf(bn);
    }
  }

  /** What goes wrong from BMAP_LOW on: of any file with a map block at the 65th place below
      its first double-indirect block, that map block is what both of the first two file blocks
      up there are looked up to, which are different blocks of the file. */
  lemma WalkAliasesAtLow(d: Dinode, st: Store)
    requires Unshared(d, st) && Ptr(d, st, Mid(ROOT2, 64)) != 0
    ensures Walk(d, st, BMAP_LOW) == Walk(d, st, BMAP_LOW + 1) == Blk(Ptr(d, st, Mid(ROOT2, 64)))
    ensures Ptr(d, st, Mid(ROOT2, 64)) !in {Ptr(d, st, SlotOf(BMAP_LOW)), Ptr(d, st, SlotOf(BMAP_LOW + 1))}
  {
    assert SlotOf(BMAP_LOW) != SlotOf(BMAP_LOW + 1);
  }

  /** What a store through such a lookup does: it goes to a map block, and leaves the map of the file as
      it was if and only if it stores what is there. */
  lemma StoreAboveKeepsMapIff(d: Dinode, st: Store, bn: nat, start: nat, src: seq<byte>)
    requires BMAP_LOW <= bn < BMAP_END && Unshared(d, st) && start + |src| <= BLK_SIZE
    requires InTree(Misread(bn)) && Ptr(d, st, Misread(bn)) != 0
    ensures var m := Ptr(d, st, Misread(bn));
            && Walk(d, st, bn) == Blk(m)
            && (SameTree(d, st, d, st.Put(m, Patch(st.Block(m), start, src))) <==>
                st.Block(m)[start..start + |src|] == src)
  {
    var s := Misread(bn);
    var m := Ptr(d, st, s);
    var b := Patch(st.Block(m), start, src);
    var st' := st.Put(m, b);
    assert b[start..start + |src|] == src;
    if st.Block(m)[start..start + |src|] == src {
      assert b == st.Block(m);
      FrameTree(d, st, st');
    }
    if SameTree(d, st, d, st') {
      assert Ptr(d, st, Root(s.r)) == RootPtr(d, s.r) && Root(s.r) != s;
      forall k: nat | k < WORDS ensures Word(b, k) == Word(st.Block(m), k) {
        assert Ptr(d, st', Leaf(s.r, s.j, k)) == Ptr(d, st, Leaf(s.r, s.j, k));
        assert Ptr(d, st', Mid(s.r, s.j)) == m;
      }
      SameWords(b, st.Block(m));
    }
  }

  /** The map blocks in the root slots given. */
  ghost function MapKeys(d: Dinode, dev: nat, roots: set<nat>): set<Key> {
    set r | r in roots && ROOT1 <= r < ROOTS && RootPtr(d, r) != 0 :: Key(dev, RootPtr(d, r))
  }

  lemma MapKeysIs(d: Dinode, dev: nat, r: nat)
    requires ROOT1 <= r < ROOTS && RootPtr(d, r) != 0
    ensures MapKeys(d, dev, {r}) == {Key(dev, RootPtr(d, r))}
  {
  }

  lemma CountOnly(d: Dinode, n: nat, r: nat)
    requires r < ROOTS
    ensures RootPtr(d.(blocks := n), r) == RootPtr(d, r)
  {
  }

  /** The root slot of the map block for file block bn, if it has one. */
  function MapRoot(bn: nat): set<nat>
    requires bn < BMAP_LOW
  {
    if bn < BMAP0_SIZE then {} else {SlotOf(bn).r}
  }

  function RootBelow(level: nat, r: nat): set<nat> {
    if level == 0 then {} else {r}
  }

  /** The slots that file block bn needs. */
  function SlotsFor(bn: nat): (s: set<Slot>)
    requires bn < BMAP_LOW
    ensures forall t :: t in s ==> InTree(t)
  {
    {SlotOf(bn), Root(SlotOf(bn).r)}
  }

  /** The in-core inode, as far as its blocks are concerned. */
  class Inode {
    const vol: Volume
    const ino: nat
    var d: Dinode
    var dirty: nat

    constructor (v: Volume, i: nat, di: Dinode)
      ensures vol == v && ino == i && d == di && dirty == 0
    {
      vol, ino, d, dirty := v, i, di, 0;
    }

    /** The objects below the inode that its methods change. */
    ghost function Below(): set<object> {
      {vol, vol.freemap, vol.freedirt, vol.cache, vol.cache.ways}
    }

    ghost function St(): Store
      reads vol.cache`view
    {
      Store(vol.at.dev, vol.cache.view)
    }

    ghost predicate Sound()
      reads this`d, Below()
    {
      vol.Valid() && Good(d, St(), vol.used, vol.at)
    }

    /** Only this file has grown, it reads as before, and a changed inode is flagged. */
    twostate predicate Grew()
      reads this, Below()
    {
      && Grown(old(d), old(St()), old(vol.used), d, St(), vol.used)
      && d.size == old(d.size)
      && (forall p: nat :: p < MAXFSZ ==> ByteAt(d, St(), p) == old(ByteAt(d, St(), p)))
      && (dirty == 2 || (d == old(d) && dirty == old(dirty)))
      && (old(vol.Exact()) ==> vol.Exact())
      && vol.ro == old(vol.ro) && (vol.ro ==> vol.used == old(vol.used))
    }

    /** The buffers held now were held before. */
    twostate predicate NoneHeld()
      reads vol.cache.ways
    {
      Lent(old(SlotsOf(vol.cache)), SlotsOf(vol.cache), {})
    }

    /** The buffers held now were held before, or are those of the map blocks in the root slots given. */
    twostate predicate Lends(new roots: set<nat>)
      reads this`d, vol.cache.ways
    {
      Lent(old(SlotsOf(vol.cache)), SlotsOf(vol.cache), MapKeys(d, vol.at.dev, roots))
    }

    /** Slot s alone has gone from empty to some block. */
    twostate predicate Filled(new s: Slot)
      requires InTree(s)
      reads this`d, Below()
    {
      && Ptr(d, St(), s) != 0
      && Installed(old(d), old(St()), d, St(), s, Ptr(d, St(), s))
    }

    /** The allocating branch of bmap6. */
    method FillRoot(r: nat) returns (err: Err)
      requires Sound() && r < ROOTS && RootPtr(d, r) == 0
      modifies this`d, this`dirty, Below()
      ensures Sound() && Grew()
      ensures err in {OK, EROFS, ENOSPC, ENOMEM} && (err == OK || vol.Because(err)) && NoneHeld()
      ensures if err == OK then Filled(Root(r)) else Idle()
    {
      hide BlkCache.Valid, Volume.Sound, Ptr, ByteAt, Allocated, Unshared, Counted, ZeroTail, Owns, Installed, Grown,
           Volume.Exact, Counts, Good, SlotsOf, Lent, Volume.Because;
      var b;
      GrownReflexive(d, St(), vol.used);
      err, b := NewBlock();
      if err != OK { return; }
      RootStep(d, old(St()), old(vol.used), vol.at, r, b);
      d := SetRoot(d, r, b).(blocks := (d.blocks + 1) % 0x1_0000);
      dirty := 2;
    }

    /** alloc_blk, as far as it matters here. */
    method NewBlock() returns (err: Err, b: u32)
      requires vol.Valid()
      modifies Below()
      ensures vol.Valid() && err in {OK, EROFS, ENOSPC, ENOMEM} && (old(vol.Exact()) ==> vol.Exact())
      ensures (err == OK || vol.Because(err)) && NoneHeld()
      ensures vol.ro == old(vol.ro) && (err == OK ==> !vol.ro)
      ensures err == OK ==> vol.at.InData(b) && b !in old(vol.used) && vol.used == old(vol.used) + {b}
      ensures err == OK ==> St() == old(St()).Put(b, ZERO_BLOCK)
      ensures err != OK ==> Idle()
    {
      hide BlkCache.Valid, Volume.Sound, Volume.Exact, SlotsOf, Lent, Volume.Because;
      err, b := vol.Alloc();
    }

    /** The file and the device contents are as they were. */
    twostate predicate Idle()
      reads this, Below()
    {
      d == old(d) && dirty == old(dirty) && vol.used == old(vol.used) && St() == old(St()) && vol.nfree == old(vol.nfree)
    }

    /** Every slot outside s is as it was. */
    twostate predicate OnlySlots(new s: set<Slot>)
      reads this`d, Below()
    {
      forall t: Slot :: InTree(t) && t !in s ==> Ptr(d, St(), t) == old(Ptr(d, St(), t))
    }

    /** blk is what slot s now holds; only s and the slots of others may have been filled for it. */
    twostate predicate Found(blk: u32, new s: Slot, new others: set<Slot>)
      requires InTree(s)
      reads this, Below()
    {
      && blk == Ptr(d, St(), s) != 0
      && OnlySlots(others + {s})
      && (old(Ptr(d, St(), s)) != 0 ==> Idle())
    }

    /** The allocating branch of bmindir, on the map block held in h. */
    method FillMid(h: Way, ghost r: nat, j: nat) returns (err: Err)
      requires Sound() && ROOT1 <= r < ROOT2 && j < WORDS
      requires RootPtr(d, r) != 0 && Ptr(d, St(), Mid(r, j)) == 0
      requires vol.cache.Holds(h, Key(vol.at.dev, RootPtr(d, r))) && vol.cache.Slot(h).valid
      modifies this`d, this`dirty, Below()
      ensures Sound() && Grew()
      ensures err in {OK, EROFS, ENOSPC, ENOMEM} && (err == OK || vol.Because(err)) && NoneHeld()
      ensures if err == OK then Filled(Mid(r, j)) else Idle()
      ensures RootPtr(d, r) == old(RootPtr(d, r))
      ensures err == OK ==> vol.cache.At(h) && Word(vol.cache.Slot(h).data, j) == Ptr(d, St(), Mid(r, j))
    {
      hide BlkCache.Valid, Volume.Valid, ByteAt, Good, RootPtr, Ptr, Word, PutWord, Installed, Grown, Volume.Exact, InTree,
           SlotsOf, Lent, Volume.Because;
      GrownReflexive(d, St(), vol.used);
      var b;
      err, b := NewWord(h, r, j);
      if err != OK { return; }
      CountMid(r, j, b, old(St()), old(vol.used));
    }

    /** The block is counted in the inode. */
    method CountMid(ghost r: nat, ghost j: nat, ghost b: u32, ghost st: Store, ghost used: set<nat>)
      requires Good(d, st, used, vol.at) && ROOT1 <= r < ROOT2 && j < WORDS
      requires RootPtr(d, r) != 0 && Ptr(d, st, Mid(r, j)) == 0
      requires vol.at.Sane() && vol.at.InData(b) && b !in used && vol.used == used + {b}
      requires St() == st.Put(b, ZERO_BLOCK).Put(RootPtr(d, r), PutWord(st.Block(RootPtr(d, r)), j, b))
      modifies this`d, this`dirty
      ensures Good(d, St(), vol.used, vol.at) && Grown(old(d), st, used, d, St(), vol.used) && d.size == old(d.size)
      ensures forall p: nat :: p < MAXFSZ ==> ByteAt(d, St(), p) == ByteAt(old(d), st, p)
      ensures Ptr(d, St(), Mid(r, j)) == b && Installed(old(d), st, d, St(), Mid(r, j), b)
      ensures dirty == 2 && RootPtr(d, r) == old(RootPtr(d, r))
    {
      hide ByteAt, Good, RootPtr, Ptr, PutWord, Installed, Grown;
      MidStep(d, st, used, vol.at, r, j, b);
      CountOnly(d, (d.blocks + 1) % 0x1_0000, r);
      d := d.(blocks := (d.blocks + 1) % 0x1_0000);
      dirty := 2;
    }

    /** alloc_blk, and the store of its answer as word j of the map block held in h. */
    method NewWord(h: Way, ghost r: nat, j: nat) returns (err: Err, b: u32)
      requires Sound() && ROOT1 <= r < ROOT2 && j < WORDS && RootPtr(d, r) != 0
      requires vol.cache.Holds(h, Key(vol.at.dev, RootPtr(d, r))) && vol.cache.Slot(h).valid
      modifies Below()
      ensures vol.Valid() && vol.at.Sane() && err in {OK, EROFS, ENOSPC, ENOMEM} && (old(vol.Exact()) ==> vol.Exact())
      ensures (err == OK || vol.Because(err)) && NoneHeld()
      ensures vol.ro == old(vol.ro) && (err == OK ==> !vol.ro)
      ensures err == OK ==> vol.at.InData(b) && b !in old(vol.used) && vol.used == old(vol.used) + {b}
      ensures err == OK ==> var m := RootPtr(d, r);
                            St() == old(St()).Put(b, ZERO_BLOCK).Put(m, PutWord(old(St()).Block(m), j, b))
      ensures err == OK ==> vol.cache.At(h) && Word(vol.cache.Slot(h).data, j) == b
      ensures err != OK ==> Idle()
    {
      hide BlkCache.Valid, Volume.Sound, ByteAt, Good, RootPtr, Ptr, Word, PutWord, Volume.Exact, SlotsOf, Lent,
           Volume.Because;
      ghost var m := RootPtr(d, r);
      RootHeld(r);
      err, b := vol.AllocWord(h, m, j);
      if err != OK { return; }
      WordPutWord(old(St()).Block(m), j, b, j);
    }

    lemma RootHeld(r: nat)
      requires Sound() && r < ROOTS && RootPtr(d, r) != 0
      ensures vol.at.InData(RootPtr(d, r)) && RootPtr(d, r) in vol.used
    {
      assert Ptr(d, St(), Root(r)) == RootPtr(d, r);
    }

    /** blk_read of a map block. */
    method Hold(mb: u32) returns (err: Err, h: Way)
      requires vol.Valid()
      modifies Below()
      ensures vol.Valid() && Idle() && err in {OK, ENOMEM} && (old(vol.Exact()) <==> vol.Exact())
      ensures vol.freeblk == old(vol.freeblk) && vol.ro == old(vol.ro)
      ensures err == OK ==> vol.cache.Holds(h, Key(vol.at.dev, mb)) && vol.cache.Slot(h).valid
      ensures err == OK || vol.Because(err)
      ensures Lent(old(SlotsOf(vol.cache)), SlotsOf(vol.cache), {Key(vol.at.dev, mb)})
    {
      hide BlkCache.Valid, Volume.Sound, SlotsOf, Lent, Volume.Because, BlkCache.Kept, BlkCache.OthersSame;
      err, h := vol.Hold(mb);
    }

    /** The word of the map block in h, with a block put there if asked for. */
    method MidEntry(h: Way, mb: u32, mi: nat, alloc: bool, ghost r: nat) returns (err: Err, blk: u32)
      requires mb != 0 && mi < WORDS && vol.Valid()
      requires vol.cache.Holds(h, Key(vol.at.dev, mb)) && vol.cache.Slot(h).valid
      requires alloc ==> Sound() && ROOT1 <= r < ROOT2 && RootPtr(d, r) == mb
      modifies this`d, this`dirty, Below()
      ensures vol.Valid()
      ensures err in {OK, EROFS, ENOSPC, ENOMEM} && (err == OK || vol.Because(err)) && NoneHeld()
      ensures alloc ==> RootPtr(d, r) == mb && (err != OK ==> Ptr(d, St(), Mid(r, mi)) == 0)
      ensures !alloc ==> err == OK && Idle() && blk == Entry(St(), mb, mi)
      ensures alloc ==> Sound() && Grew()
      ensures alloc && err == OK ==> Found(blk, Mid(r, mi), {})
      ensures alloc && err != OK ==> Idle()
    {
      hide BlkCache.Valid, Volume.Sound, Grown, Good, ByteAt, Word, Ptr, Entry, SlotsOf, Lent, Volume.Because;
      GrownReflexive(d, St(), vol.used);
      LentSame(SlotsOf(vol.cache), {});
      MidIsEntry(d, St(), r, mb, mi);
      vol.cache.ValidIsCurrent(h);
      err, blk := OK, 0;
      if Word(vol.cache.Slot(h).data, mi) == 0 && alloc {
        err := FillMid(h, r, mi);
        if err != OK { return; }
      }
      blk := Word(vol.cache.Slot(h).data, mi);
    }

    /** bmindir: follows word bn >> level * 7 of map block mb. The answer of the inner call is
        dropped, and the buffer of mb is never given back. Growth is modelled for level 0 only. */
    method Bmindir(mb: u32, bn: nat, level: nat, alloc: bool, ghost r: nat) returns (err: Err, blk: u32)
      requires mb != 0 && vol.Valid()
      requires alloc ==> level == 0 && Sound() && ROOT1 <= r < ROOT2 && RootPtr(d, r) == mb
      modifies this`d, this`dirty, Below()
      ensures vol.Valid()
      ensures err in {OK, EROFS, ENOSPC, ENOMEM} && (err == OK || vol.Because(err))
      ensures level == 0 ==> Lent(old(SlotsOf(vol.cache)), SlotsOf(vol.cache), {Key(vol.at.dev, mb)})
      ensures alloc ==> RootPtr(d, r) == mb && (err in {EROFS, ENOSPC} ==> Ptr(d, St(), Mid(r, bn % WORDS)) == 0)
      ensures !alloc ==>
                err in {OK, ENOMEM} && Idle() && (err == OK ==> blk == Entry(St(), mb, bn / Span(level) % WORDS))
      ensures alloc ==> Sound() && Grew()
      ensures alloc && err == OK ==> Found(blk, Mid(r, bn % WORDS), {})
      ensures alloc && err != OK ==> Idle()
      decreases level
    {
      hide BlkCache.Valid, Volume.Sound, Volume.Shaped, Volume.Exact, Grown, Good, ByteAt, Word, Ptr, Entry, Span,
           SlotsOf, Lent, Volume.Because, MapKeys;
      ghost var was := SlotsOf(vol.cache);
      GrownReflexive(d, St(), vol.used);
      SpanZero();
      var h;
      err, h := Hold(mb);
      blk := 0;
      if err != OK { return; }
      ghost var mid := SlotsOf(vol.cache);
      err, blk := MidEntry(h, mb, bn / Span(level) % WORDS, alloc, r);
      LentBoth(was, mid, SlotsOf(vol.cache), {Key(vol.at.dev, mb)}, {}, {Key(vol.at.dev, mb)});
      if err != OK || blk == 0 { return; }
      if level > 0 {
        var _, _ := Bmindir(blk, bn, level - 1, alloc, r);
      }
    }

    static lemma MidIsEntry(d: Dinode, st: Store, r: nat, m: u32, j: nat)
      requires m != 0 && j < WORDS
      ensures Entry(st, m, j) == Word(st.Block(m), j)
      ensures ROOT1 <= r < ROOT2 && RootPtr(d, r) == m ==> Ptr(d, st, Mid(r, j)) == Word(st.Block(m), j)
    {}

    /** The three pointer arrays of an inode: where they start, their length, and their level. */
    static predicate IsArray(base: nat, mapsz: nat, level: nat) {
      || (base == 0 && mapsz == BMAP0_SIZE && level == 0)
      || (base == ROOT1 && mapsz == BMAP1_SIZE && level == 1)
      || (base == ROOT2 && mapsz == BMAP2_SIZE && level == 2)
    }

    /** The slot that bmap6 and bmindir arrive at for block bn of a root array. */
    static ghost function Target(bn: nat, base: nat, mapsz: nat, level: nat): (s: Slot)
      requires IsArray(base, mapsz, level) && bn / Span(level) < mapsz
      ensures InTree(s) && s.r == base + bn / Span(level)
    {
      if level == 0 then Root(base + bn) else Mid(base + bn / Span(level), bn / Span(level - 1) % WORDS)
    }

    static lemma TargetPtr(d: Dinode, st: Store, bn: nat, base: nat, mapsz: nat, level: nat)
      requires IsArray(base, mapsz, level) && bn / Span(level) < mapsz
      ensures var p := RootPtr(d, base + bn / Span(level));
              && Ptr(d, st, Target(bn, base, mapsz, level)) == (if level == 0 then p else Entry(st, p, bn / Span(level - 1) % WORDS))
              && Ptr(d, st, Root(base + bn / Span(level))) == p
              && (p == 0 ==> Ptr(d, st, Target(bn, base, mapsz, level)) == 0)
      ensures level == 0 ==> Target(bn, base, mapsz, level) == Root(base + bn / Span(level))
      ensures level == 1 ==> Target(bn, base, mapsz, level) == Mid(base + bn / Span(level), bn % WORDS)
    {}

    /** The first half of bmap6: the block in a root slot, taken from the free map if asked for. */
    method RootEntry(r: nat, alloc: bool) returns (err: Err, blk: u32)
      requires vol.Valid() && r < ROOTS && (alloc ==> Sound())
      modifies this`d, this`dirty, Below()
      ensures vol.Valid()
      ensures err in {OK, EROFS, ENOSPC, ENOMEM} && (err == OK || vol.Because(err)) && NoneHeld()
      ensures alloc && err != OK ==> RootPtr(d, r) == 0
      ensures !alloc ==> err == OK && Idle() && blk == RootPtr(d, r)
      ensures alloc ==> Sound() && Grew()
      ensures alloc && err == OK ==> blk == RootPtr(d, r) && Found(blk, Root(r), {})
      ensures alloc && err != OK ==> Idle()
    {
      hide BlkCache.Valid, Volume.Sound, Grown, Good, ByteAt, SlotsOf, Lent, Volume.Because;
      GrownReflexive(d, St(), vol.used);
      LentSame(SlotsOf(vol.cache), {});
      err, blk := OK, 0;
      if RootPtr(d, r) == 0 && alloc {
        err := FillRoot(r);
        if err != OK { return; }
      }
      blk := RootPtr(d, r);
    }

    /** bmap6 */
    method Bmap6(bn: nat, base: nat, mapsz: nat, level: nat, alloc: bool) returns (err: Err, blk: u32)
      requires vol.Valid() && IsArray(base, mapsz, level)
      requires alloc ==> level <= 1 && Sound()
      modifies this`d, this`dirty, Below()
      ensures vol.Valid()
      ensures err in {OK, EROFS, ENOSPC, ENOMEM, EFBIG} && (err in {OK, EFBIG} || vol.Because(err))
      ensures level <= 1 && err != EFBIG ==> Lends(RootBelow(level, base + bn / Span(level)))
      ensures err == EFBIG <==> bn / Span(level) >= mapsz
      ensures err == EFBIG ==> Idle()
      ensures !alloc ==> err in {OK, ENOMEM, EFBIG} && Idle() && (err == OK ==> blk == Ptr(d, St(), Target(bn, base, mapsz, level)))
      ensures alloc ==> Sound() && Grew()
      ensures alloc && err == OK ==> var s := Target(bn, base, mapsz, level); Found(blk, s, {Root(s.r)})
      ensures alloc && err in {EROFS, ENOSPC} ==> Ptr(d, St(), Target(bn, base, mapsz, level)) == 0
      ensures alloc && err !in {OK, EFBIG} ==> OnlySlots(if level == 0 then {} else {Root(Target(bn, base, mapsz, level).r)})
    {
      hide BlkCache.Valid, Volume.Valid, Volume.Exact, Grown, Good, ByteAt, Word, Span, Ptr, Entry, Target, RootPtr,
           InTree, SlotsOf, Lent, Volume.Because, MapKeys;
      SpanZero();
      blk := 0;
      var mi := bn / Span(level);
      if mi >= mapsz {
        GrownReflexive(d, St(), vol.used);
        return EFBIG, blk;
      }
      TargetPtr(d, St(), bn, base, mapsz, level);
      if level == 0 {
        err, blk := RootEntry(base + mi, alloc);
        LentMore(old(SlotsOf(vol.cache)), SlotsOf(vol.cache), {}, MapKeys(d, vol.at.dev, {}));
      } else {
        err, blk := ThroughRoot(bn, level - 1, alloc, base + mi);
      }
      TargetPtr(d, St(), bn, base, mapsz, level);
    }

    /** bmap6 below a root slot that is for a map block. */
    method ThroughRoot(bn: nat, level: nat, alloc: bool, r: nat) returns (err: Err, blk: u32)
      requires vol.Valid() && ROOT1 <= r < ROOTS && (alloc ==> level == 0 && Sound() && r < ROOT2)
      modifies this`d, this`dirty, Below()
      ensures vol.Valid()
      ensures err in {OK, EROFS, ENOSPC, ENOMEM} && (err == OK || vol.Because(err))
      ensures level == 0 ==> Lends({r})
      ensures !alloc ==>
                && err in {OK, ENOMEM} && Idle()
                && (err == OK ==> blk == Entry(St(), RootPtr(d, r), bn / Span(level) % WORDS))
      ensures alloc ==> Sound() && Grew() && (err in {EROFS, ENOSPC} ==> Ptr(d, St(), Mid(r, bn % WORDS)) == 0)
      ensures alloc && err == OK ==> Found(blk, Mid(r, bn % WORDS), {Root(r)})
      ensures alloc && err != OK ==> OnlySlots({Root(r)})
    {
      hide BlkCache.Valid, Volume.Valid, Volume.Exact, Grown, Good, ByteAt, Word, Span, Ptr, Entry, RootPtr, SlotsOf,
           Lent, Volume.Because, MapKeys;
      ghost var was := SlotsOf(vol.cache);
      NoRoot(d, St(), r);
      err, blk := RootEntry(r, alloc);
      NoRoot(d, St(), r);
      LentMore(was, SlotsOf(vol.cache), {}, MapKeys(d, vol.at.dev, {r}));
      if err != OK || blk == 0 { return; }
      ghost var d1, st1, used1, mid := d, St(), vol.used, SlotsOf(vol.cache);
      err, blk := BelowRoot(blk, bn, level, alloc, r);
      if alloc {
        GrownTransitive(old(d), old(St()), old(vol.used), d1, st1, used1, d, St(), vol.used);
      }
      if level == 0 {
        var keys := MapKeys(d, vol.at.dev, {r});
        LentBoth(was, mid, SlotsOf(vol.cache), {}, keys, keys);
      }
    }

    /** Without a map block there is nothing below a root slot. */
    static lemma NoRoot(d: Dinode, st: Store, r: nat)
      requires ROOT1 <= r < ROOTS
      ensures Ptr(d, st, Root(r)) == RootPtr(d, r)
      ensures RootPtr(d, r) == 0 ==> forall j: nat :: j < WORDS ==> Ptr(d, st, Mid(r, j)) == 0
      ensures RootPtr(d, r) == 0 ==> forall j: nat :: j < WORDS ==> Entry(st, 0, j) == 0
    {
    }

    /** The second half of bmap6: the word below root slot r. */
    method BelowRoot(m: u32, bn: nat, level: nat, alloc: bool, r: nat) returns (err: Err, blk: u32)
      requires m != 0 && vol.Valid() && ROOT1 <= r < ROOTS && RootPtr(d, r) == m
      requires alloc ==> level == 0 && Sound() && r < ROOT2
      modifies this`d, this`dirty, Below()
      ensures vol.Valid()
      ensures err in {OK, EROFS, ENOSPC, ENOMEM} && (err == OK || vol.Because(err))
      ensures level == 0 ==> Lends({r})
      ensures !alloc ==>
                err in {OK, ENOMEM} && Idle() && (err == OK ==> blk == Entry(St(), m, bn / Span(level) % WORDS))
      ensures alloc ==> Sound() && Grew() && (err in {EROFS, ENOSPC} ==> Ptr(d, St(), Mid(r, bn % WORDS)) == 0)
      ensures alloc && err == OK ==> Found(blk, Mid(r, bn % WORDS), {})
      ensures alloc && err != OK ==> Idle()
    {
      hide BlkCache.Valid, Volume.Valid, Volume.Exact, Grown, Good, ByteAt, Word, Span, Ptr, Entry, RootPtr, SlotsOf,
           Lent, Volume.Because, MapKeys;
      err, blk := Bmindir(m, bn, level, alloc, r);
      MapKeysIs(d, vol.at.dev, r);
    }

    /** The array, level and index bmap3 picks for file block bn. */
    static lemma WalkIsTarget(d: Dinode, st: Store, bn: nat)
      ensures bn < BMAP0_SIZE ==> bn / Span(0) == bn && Target(bn, 0, BMAP0_SIZE, 0) == SlotOf(bn)
      ensures BMAP0_SIZE <= bn < BMAP_LOW ==> (bn - BMAP0_SIZE) / Span(1) < BMAP1_SIZE
      ensures BMAP0_SIZE <= bn < BMAP_LOW ==> Target(bn - BMAP0_SIZE, ROOT1, BMAP1_SIZE, 1) == SlotOf(bn)
      ensures bn < BMAP_LOW ==> Walk(d, st, bn) == Blk(Ptr(d, st, SlotOf(bn)))
      ensures bn >= BMAP_LOW ==>
        var n := bn - BMAP0_SIZE + BMAP1_SIZE * WORDS;
        Walk(d, st, bn) == if n / Span(2) >= BMAP2_SIZE then TooBig else Blk(Ptr(d, st, Target(n, ROOT2, BMAP2_SIZE, 2)))
    {
      assert Span(0) == 1 && Span(1) == WORDS && Span(2) == WORDS * WORDS;
      if bn >= BMAP_LOW {
        var n := bn - BMAP0_SIZE + BMAP1_SIZE * WORDS;
        assert n / Span(2) == n / WORDS / WORDS;
      }
    }

    /** bmap3 */
    method Bmap3(bn: nat, alloc: bool) returns (err: Err, blk: u32)
      requires vol.Valid()
      requires alloc ==> bn < BMAP_LOW && Sound()
      modifies this`d, this`dirty, Below()
      ensures vol.Valid()
      ensures err in {OK, EROFS, ENOSPC, ENOMEM, EFBIG} && (err in {OK, EFBIG} || vol.Because(err))
      ensures bn < BMAP_LOW ==> Lends(MapRoot(bn))
      ensures alloc ==> OnlySlots(SlotsFor(bn)) && (err in {EROFS, ENOSPC} ==> Ptr(d, St(), SlotOf(bn)) == 0)
      ensures err == EFBIG <==> Walk(d, St(), bn) == TooBig
      ensures !alloc ==> err in {OK, ENOMEM, EFBIG} && Idle() && (err == OK ==> Walk(d, St(), bn) == Blk(blk))
      ensures alloc ==> Sound() && Grew()
      ensures alloc && err == OK ==> blk == Ptr(d, St(), SlotOf(bn)) != 0
      ensures alloc ==> forall cn: nat :: cn < BMAP_LOW && (cn != bn || err != OK) ==> Ptr(d, St(), SlotOf(cn)) == old(Ptr(d, St(), SlotOf(cn)))
      ensures alloc && err == OK && old(Ptr(d, St(), SlotOf(bn))) != 0 ==> Idle()
    {
      hide BlkCache.Valid, Volume.Sound, Grown, Good, ByteAt, Word, Ptr, Walk, SlotsOf, Lent, Volume.Because, MapKeys,
           Target, Volume.Valid;
      WalkIsTarget(d, St(), bn);
      if bn >= BMAP_LOW {
        err, blk := Bmap6(bn - BMAP0_SIZE + BMAP1_SIZE * WORDS, ROOT2, BMAP2_SIZE, 2, alloc);
      } else if bn >= BMAP0_SIZE {
        err, blk := Bmap6(bn - BMAP0_SIZE, ROOT1, BMAP1_SIZE, 1, alloc);
      } else {
        err, blk := Bmap6(bn, 0, BMAP0_SIZE, 0, alloc);
      }
      WalkIsTarget(d, St(), bn);
    }
  }
}
