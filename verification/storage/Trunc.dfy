/** Truncation, kern/fs/bmap.c: every block of the tree goes back to the free map. */
module Trunc {
  import opened Bytes
  import opened Errors
  import opened Cache
  import opened Holders
  import opened Volume
  import opened FileTree
  import opened TruncTree
  import opened Bmap

  /** The objects below a volume that truncation changes. */
  ghost function Below(vol: Volume): set<object> {
    {vol, vol.freemap, vol.freedirt, vol.cache, vol.cache.ways}
  }

  ghost function StoreOf(vol: Volume): Store
    reads vol.cache`view
  {
    Store(vol.at.dev, vol.cache.view)
  }

  /** All blocks of s may be released. */
  ghost predicate Held(vol: Volume, s: set<nat>)
    reads vol`used
  {
    s <= vol.used && forall x :: x in s ==> vol.at.InData(x)
  }

  /** Blocks outside s, and other devices, read as before. */
  ghost predicate SameOutside(st: Store, st': Store, s: set<nat>) {
    && st'.dev == st.dev
    && (forall x: nat :: x !in s ==> st'.Block(x) == st.Block(x))
    && (forall k: Key :: k.dev != st.dev ==> st'.v[k] == st.v[k])
  }

  /** The blocks that releasing the first n entries of map block m may change. */
  ghost function Dirtied(st: Store, m: u32, level: nat, n: nat, umap: bool): set<nat>
    requires n <= WORDS
  {
    if umap then Under(st, m, level, n) + {m as nat} else {}
  }

  /** The buffer of map block m is referenced and current. */
  ghost predicate Pinned(vol: Volume, h: Way, m: nat)
    reads vol.cache.ways
  {
    vol.cache.Holds(h, Key(vol.at.dev, m)) && vol.cache.Slot(h).valid
  }

  /** What releasing the blocks of s means: when there was no error, exactly they are free and no
      buffer is held that was not before. */
  twostate predicate Released(vol: Volume, new s: set<nat>, err: Err)
    reads Below(vol)
  {
    && vol.Valid()
    && old(vol.used) - s <= vol.used <= old(vol.used)
    && (err == OK ==> vol.used == old(vol.used) - s && vol.cache.Balanced())
    && (old(vol.Exact()) ==> vol.Exact())
    && vol.cache.Kept()
    && (err == OK || vol.Because(err))
  }

  /** The loop body of trunc_i: the block an entry names, after all blocks below it. */
  method TruncEntry(vol: Volume, w: u32, umap: bool, level: nat) returns (err: Err)
    requires vol.Valid() && vol.at.InData(w) && w in vol.used
    requires level > 0 ==> Tidy(StoreOf(vol), w, level - 1) && w !in Under(StoreOf(vol), w, level - 1, WORDS)
    requires level > 0 ==> Held(vol, Under(StoreOf(vol), w, level - 1, WORDS))
    modifies Below(vol)
    ensures err in {OK, ENOMEM}
    ensures var s := {w as nat} + if level > 0 then old(Under(StoreOf(vol), w, level - 1, WORDS)) else {};
            Released(vol, s, err) && SameOutside(old(StoreOf(vol)), StoreOf(vol), if umap then s else {})
    decreases level, 0
  {
    hide Volume.Because, BlkCache.Valid, Volume.Sound, Tidy, Under, Volume.Free, Volume.Exact, SameOutside, Dirtied;
    ghost var s := {w as nat} + if level > 0 then Under(StoreOf(vol), w, level - 1, WORDS) else {};
    SameIsSame(StoreOf(vol), if umap then s else {});
    err := OK;
    if level > 0 {
      DirtiedAll(StoreOf(vol), w, level - 1, umap);
      err := TruncI(vol, w, umap, level - 1);
      if err != OK { return; }
    }
    vol.Release(w);
  }

  lemma SameIsSame(st: Store, s: set<nat>)
    ensures SameOutside(st, st, s)
  {}

  lemma DirtiedAll(st: Store, m: u32, level: nat, umap: bool)
    ensures Dirtied(st, m, level, WORDS, umap) == if umap then {m as nat} + Under(st, m, level, WORDS) else {}
  {}

  /** Where trunc_i stands before entry i: only blocks of earlier entries and the map block itself
      may have changed, the entries from i on are as they were, and those before are empty if
      asked for. */
  ghost predicate Reached(st0: Store, st: Store, m: u32, level: nat, i: nat, umap: bool)
    requires i <= WORDS
  {
    && SameOutside(st0, st, Dirtied(st0, m, level, i, umap))
    && (forall j: nat :: i <= j < WORDS ==> Word(st.Block(m), j) == Word(st0.Block(m), j))
    && (umap ==> forall j: nat :: j < i ==> Word(st.Block(m), j) == 0)
  }

  /** The blocks of an entry are none of those of earlier entries. */
  lemma AheadOfUnder(st0: Store, m: u32, level: nat, i: nat)
    requires i < WORDS && Tidy(st0, m, level)
    ensures Sub(st0, m, level, i) !! Under(st0, m, level, i)
    ensures Sub(st0, m, level, i) <= Under(st0, m, level, WORDS)
  {
    SubInUnder(st0, m, level, WORDS, i);
    forall x | x in Under(st0, m, level, i) ensures x !in Sub(st0, m, level, i) {
      var j := EntryOf(st0, m, level, i, x);
    }
  }

  /** The tree of the next entry has not been touched yet. */
  lemma NextIsWhole(st0: Store, st: Store, m: u32, level: nat, i: nat, umap: bool)
    requires i < WORDS && Tidy(st0, m, level) && Reached(st0, st, m, level, i, umap)
    requires Word(st0.Block(m), i) != 0
    ensures var w := Word(st0.Block(m), i);
            && m != w && w in Sub(st0, m, level, i)
            && (level > 0 ==>
                  && Tidy(st, w, level - 1)
                  && Under(st, w, level - 1, WORDS) == Under(st0, w, level - 1, WORDS)
                  && w !in Under(st, w, level - 1, WORDS))
            && Sub(st0, m, level, i) == {w as nat} + if level > 0 then Under(st, w, level - 1, WORDS) else {}
  {
    var w := Word(st0.Block(m), i);
    assert m !in Sub(st0, m, level, i);
    if level > 0 {
      assert Sub(st0, m, level, i) == {w as nat} + Under(st0, w, level - 1, WORDS);
      forall x | x in Sub(st0, m, level, i) ensures st.Block(x) == st0.Block(x) {
        if x in Under(st0, m, level, i) {
          var j := EntryOf(st0, m, level, i, x);
        }
      }
      UnderFrame(st0, st, w, level - 1, WORDS);
      TidyFrame(st0, st, w, level - 1);
    }
  }

  lemma UnderNext(st: Store, m: u32, level: nat, i: nat)
    requires i < WORDS
    ensures Under(st, m, level, 0) == {}
    ensures Under(st, m, level, i + 1) == Under(st, m, level, i) + Sub(st, m, level, i)
    ensures Word(st.Block(m), i) == 0 ==> Sub(st, m, level, i) == {}
  {}

  /** An empty entry needs nothing done. */
  lemma SkipReached(st0: Store, st: Store, m: u32, level: nat, i: nat, umap: bool)
    requires i < WORDS && Reached(st0, st, m, level, i, umap)
    ensures Word(st.Block(m), i) == Word(st0.Block(m), i)
    ensures Word(st0.Block(m), i) == 0 ==> Reached(st0, st, m, level, i + 1, umap)
  {
    UnderNext(st0, m, level, i);
  }

  /** Entry i is done: its tree was released and, if asked for, its word cleared. */
  lemma StepReached(st0: Store, st: Store, st1: Store, st2: Store, m: u32, level: nat, i: nat, umap: bool)
    requires i < WORDS && Tidy(st0, m, level) && Reached(st0, st, m, level, i, umap)
    requires SameOutside(st, st1, if umap then Sub(st0, m, level, i) else {})
    requires st2 == if umap then st1.Put(m, PutWord(st1.Block(m), i, 0)) else st1
    ensures Reached(st0, st2, m, level, i + 1, umap)
    ensures SameOutside(st0, st1, Dirtied(st0, m, level, i + 1, umap))
  {
    hide Word, PutWord, Tidy, Sub, Under, SameOutside, Dirtied;
    StepDirtied(st0, st, st1, st2, m, level, i, umap);
    if umap { EntryEmptied(st.Block(m), i); }
  }

  lemma EntryEmptied(b: Block, i: nat)
    requires i < WORDS
    ensures forall j: nat :: j < WORDS ==> Word(PutWord(b, i, 0), j) == if j == i then 0 else Word(b, j)
  {
    forall j: nat | j < WORDS ensures Word(PutWord(b, i, 0), j) == if j == i then 0 else Word(b, j) {
      WordPutWord(b, i, 0, j);
    }
  }

  /** Only what is below the entry has changed, and the map block if it is stored to. */
  lemma StepDirtied(st0: Store, st: Store, st1: Store, st2: Store, m: u32, level: nat, i: nat, umap: bool)
    requires i < WORDS && Tidy(st0, m, level) && SameOutside(st0, st, Dirtied(st0, m, level, i, umap))
    requires SameOutside(st, st1, if umap then Sub(st0, m, level, i) else {})
    requires st2 == if umap then st1.Put(m, PutWord(st1.Block(m), i, 0)) else st1
    ensures SameOutside(st0, st2, Dirtied(st0, m, level, i + 1, umap)) && st1.Block(m) == st.Block(m)
    ensures SameOutside(st0, st1, Dirtied(st0, m, level, i + 1, umap))
    ensures st2.Block(m) == if umap then PutWord(st.Block(m), i, 0) else st.Block(m)
  {
    hide Word, PutWord;
    assert m !in Sub(st0, m, level, i);
    UnderNext(st0, m, level, i);
    hide Sub, Under, Tidy;
  }

  /** trunc_i. On an error the buffer of the map block is not given back. */
  method TruncI(vol: Volume, m: u32, umap: bool, level: nat) returns (err: Err)
    requires vol.Valid() && vol.at.InData(m) && Tidy(StoreOf(vol), m, level)
    requires Held(vol, Under(StoreOf(vol), m, level, WORDS))
    modifies Below(vol)
    ensures err in {OK, ENOMEM}
    ensures Released(vol, old(Under(StoreOf(vol), m, level, WORDS)), err)
    ensures SameOutside(old(StoreOf(vol)), StoreOf(vol), old(Dirtied(StoreOf(vol), m, level, WORDS, umap)))
    ensures err == OK && umap ==> forall j: nat :: j < WORDS ==> Word(StoreOf(vol).Block(m), j) == 0
    decreases level, 3
  {
    hide Volume.Because, BlkCache.Valid, Volume.Sound, Volume.Exact, Tidy, Volume.Free, Sub, Under, SameOutside,
         Dirtied, Word, Row,
         Held;
    assert SameOutside(StoreOf(vol), StoreOf(vol), Dirtied(StoreOf(vol), m, level, WORDS, umap)) by {
      SameIsSame(StoreOf(vol), Dirtied(StoreOf(vol), m, level, WORDS, umap));
    }
    var h;
    err, h := ReadMap(vol, m);
    if err != OK { return; }
    err := TruncLoop(vol, h, m, umap, level);
    if err != OK { return; }
    assert vol.cache.Kept() && vol.cache.Slot(h).refcnt > old(vol.cache.Slot(h).refcnt);
    GiveBack(vol, h);
  }

  /** blk_read of a map block: one reference more for its slot. */
  method ReadMap(vol: Volume, m: u32) returns (err: Err, h: Way)
    requires vol.Valid()
    modifies Below(vol)
    ensures vol.Valid() && err in {OK, ENOMEM} && (err == OK || vol.Because(err))
    ensures (old(vol.Exact()) ==> vol.Exact()) && vol.cache.Kept()
    ensures vol.used == old(vol.used) && StoreOf(vol) == old(StoreOf(vol))
    ensures err == OK ==> Pinned(vol, h, m) && vol.cache.OthersSame(h)
    ensures err == OK ==> vol.cache.Slot(h).refcnt == old(vol.cache.Slot(h)).refcnt + 1
  {
    hide BlkCache.Valid, Volume.Sound, Volume.Exact;
    err, h := vol.Hold(m);
  }

  /** blk_put at the end of trunc_i. */
  method GiveBack(vol: Volume, h: Way)
    requires vol.Valid() && vol.cache.At(h) && vol.cache.Slot(h).refcnt > 0
    modifies vol.cache.ways
    ensures vol.Valid() && vol.cache.OthersSame(h)
    ensures vol.cache.Slot(h) == old(vol.cache.Slot(h)).(refcnt := old(vol.cache.Slot(h)).refcnt - 1)
  {
    hide BlkCache.Valid;
    vol.cache.Put(h);
  }

  /** The loop of trunc_i, over the map block held in h. */
  method TruncLoop(vol: Volume, h: Way, m: u32, umap: bool, level: nat) returns (err: Err)
    requires vol.Valid() && vol.at.InData(m) && Tidy(StoreOf(vol), m, level) && Pinned(vol, h, m)
    requires Held(vol, Under(StoreOf(vol), m, level, WORDS))
    modifies Below(vol)
    ensures err in {OK, ENOMEM}
    ensures Released(vol, old(Under(StoreOf(vol), m, level, WORDS)), err)
    ensures SameOutside(old(StoreOf(vol)), StoreOf(vol), old(Dirtied(StoreOf(vol), m, level, WORDS, umap)))
    ensures err == OK && umap ==> forall j: nat :: j < WORDS ==> Word(StoreOf(vol).Block(m), j) == 0
    decreases level, 2
  {
    hide Volume.Because, BlkCache.Valid, Volume.Sound, Tidy, Volume.Free, Volume.Exact, Sub, Under, Reached, Word, SameOutside,
         Dirtied;
    ghost var st0 := StoreOf(vol);
    UnderNext(st0, m, level, 0);
    ReachedFirst(st0, m, level, umap);
    err := OK;
    for i := 0 to WORDS
      invariant err == OK && Released(vol, Under(st0, m, level, i), OK) && Reached(st0, StoreOf(vol), m, level, i, umap)
    {
      AheadOfUnder(st0, m, level, i);
      UnderNext(st0, m, level, i);
      err := TruncStep(vol, h, m, umap, level, i, st0);
      if err != OK {
        UnderUpTo(st0, m, level, i + 1);
        DirtiedUpTo(st0, StoreOf(vol), m, level, i + 1, umap);
        return;
      }
    }
    ReachedIsSame(st0, StoreOf(vol), m, level, WORDS, umap);
  }

  lemma ReachedFirst(st0: Store, m: u32, level: nat, umap: bool)
    ensures Reached(st0, st0, m, level, 0, umap)
  {}

  lemma DirtiedUpTo(st0: Store, st: Store, m: u32, level: nat, n: nat, umap: bool)
    requires n <= WORDS && SameOutside(st0, st, Dirtied(st0, m, level, n, umap))
    ensures SameOutside(st0, st, Dirtied(st0, m, level, WORDS, umap))
  {
    UnderUpTo(st0, m, level, n);
  }

  lemma {:induction false} UnderUpTo(st: Store, m: u32, level: nat, n: nat)
    requires n <= WORDS
    ensures Under(st, m, level, n) <= Under(st, m, level, WORDS)
    decreases WORDS - n
  {
    if n < WORDS {
      UnderUpTo(st, m, level, n + 1);
      UnderNext(st, m, level, n);
    }
  }

  /** One round of the loop of trunc_i. */
  method TruncStep(vol: Volume, h: Way, m: u32, umap: bool, level: nat, i: nat, ghost st0: Store) returns (err: Err)
    requires vol.Valid() && vol.at.InData(m) && Tidy(st0, m, level) && i < WORDS
    requires Reached(st0, StoreOf(vol), m, level, i, umap)
    requires Held(vol, Sub(st0, m, level, i))
    requires Pinned(vol, h, m)
    modifies Below(vol)
    ensures err in {OK, ENOMEM}
    ensures Released(vol, Sub(st0, m, level, i), err)
    ensures err == OK ==> Reached(st0, StoreOf(vol), m, level, i + 1, umap)
    ensures SameOutside(st0, StoreOf(vol), Dirtied(st0, m, level, i + 1, umap))
    decreases level, 1
  {
    hide Volume.Because, BlkCache.Valid, Volume.Sound, Tidy, Volume.Free, Sub, Under, Reached, SameOutside, Word, PutWord;
    UnderNext(st0, m, level, i);
    ghost var st := StoreOf(vol);
    err := OK;
    vol.cache.ValidIsCurrent(h);
    SkipReached(st0, st, m, level, i, umap);
    var w := Word(vol.cache.Slot(h).data, i);
    if w != 0 {
      NextIsWhole(st0, st, m, level, i, umap);
      err := TruncEntry(vol, w, umap, level);
      ghost var st1 := StoreOf(vol);
      StepReached(st0, st, st1, if umap then st1.Put(m, PutWord(st1.Block(m), i, 0)) else st1, m, level, i, umap);
      if err != OK { return; }
      if umap {
        EmptyEntry(vol, h, m, i);
      }
    }
    ReachedIsSame(st0, StoreOf(vol), m, level, i + 1, umap);
  }

  /** Entry i of the map block is set to zero, in its buffer too. */
  method EmptyEntry(vol: Volume, h: Way, ghost m: nat, i: nat)
    requires vol.Valid() && vol.at.InData(m) && i < WORDS && Pinned(vol, h, m)
    modifies vol.cache`view, vol.cache.ways
    ensures vol.Valid() && vol.cache.Kept() && vol.cache.Balanced()
    ensures StoreOf(vol) == old(StoreOf(vol)).Put(m, PutWord(old(StoreOf(vol)).Block(m), i, 0))
  {
    hide BlkCache.Valid, Volume.Sound, PutWord, Lent, SlotsOf;
    vol.StoreWord(h, m, i, 0);
  }

  lemma ReachedIsSame(st0: Store, st: Store, m: u32, level: nat, i: nat, umap: bool)
    requires i <= WORDS && Reached(st0, st, m, level, i, umap)
    ensures SameOutside(st0, st, Dirtied(st0, m, level, i, umap))
    ensures umap ==> forall j: nat :: j < i ==> Word(st.Block(m), j) == 0
  {}

  /** Where trunc stands before root slot r: only blocks of earlier roots may have changed. */
  ghost predicate RootReached(d0: Dinode, st0: Store, d: Dinode, st: Store, r: nat, umap: bool)
    requires r <= ROOTS
  {
    && SameOutside(st0, st, if umap then RootsUpTo(d0, st0, r) else {})
    && (forall q: nat :: q < ROOTS ==> RootPtr(d, q) == if q < r then 0 else RootPtr(d0, q))
    && d.size == d0.size
  }

  /** The tree of the next root has not been touched yet. */
  lemma RootIsWhole(d0: Dinode, st0: Store, d: Dinode, st: Store, r: nat, umap: bool)
    requires r < ROOTS && Unshared(d0, st0) && RootReached(d0, st0, d, st, r, umap)
    requires ROOT1 <= r && RootPtr(d0, r) != 0
    ensures var p := RootPtr(d0, r);
            && Tidy(st, p, LevelBelow(r))
            && Under(st, p, LevelBelow(r), WORDS) == Under(st0, p, LevelBelow(r), WORDS)
            && p !in Under(st, p, LevelBelow(r), WORDS)
            && RootSub(d0, st0, r) == {p as nat} + Under(st, p, LevelBelow(r), WORDS)
  {
    UpToApart(d0, st0, r, r);
    TidyRoot(d0, st0, r);
    UnderFrame(st0, st, RootPtr(d0, r), LevelBelow(r), WORDS);
    TidyFrame(st0, st, RootPtr(d0, r), LevelBelow(r));
  }

  /** Root slot r is done. */
  lemma RootDone(d0: Dinode, st0: Store, d: Dinode, st: Store, st1: Store, r: nat, umap: bool)
    requires r < ROOTS && RootReached(d0, st0, d, st, r, umap)
    requires SameOutside(st, st1, if umap then RootSub(d0, st0, r) else {})
    ensures RootReached(d0, st0, SetRoot(d, r, 0), st1, r + 1, umap)
    ensures RootPtr(d, r) == 0 ==> RootReached(d0, st0, d, st, r + 1, umap)
  {
    forall q: nat | q < ROOTS ensures RootPtr(SetRoot(d, r, 0), q) == if q == r then 0 else RootPtr(d, q) {}
  }

  /** The loop bodies of trunc, for the root slot r of whichever array. */
  method TruncRoot(f: Inode, r: nat, umap: bool, ghost d0: Dinode, ghost st0: Store) returns (err: Err)
    requires f.vol.Valid() && r < ROOTS && Unshared(d0, st0)
    requires RootReached(d0, st0, f.d, StoreOf(f.vol), r, umap)
    requires Held(f.vol, RootSub(d0, st0, r))
    modifies f`d, Below(f.vol)
    ensures err in {OK, ENOMEM}
    ensures Released(f.vol, RootSub(d0, st0, r), err)
    ensures RootReached(d0, st0, f.d, StoreOf(f.vol), r + 1, umap)
  {
    hide Spare, SlotsOf, BlkCache.Valid, Volume.Sound, Tidy, Volume.Free, Volume.Exact, Under, RootsUpTo, RootReached,
         Unshared, SameOutside, Dirtied, SetRoot, Volume.Shaped, StoreOf, Volume.Hinted;
    ghost var st := StoreOf(f.vol);
    SameIsSame(st, if umap then RootSub(d0, st0, r) else {});
    err := OK;
    RootNext(d0, st0, f.d, st, r, umap);
    if RootPtr(f.d, r) != 0 {
      if r >= ROOT1 {
        RootIsWhole(d0, st0, f.d, st, r, umap);
        DirtiedAll(st, RootPtr(f.d, r), LevelBelow(r), umap);
        err := TruncI(f.vol, RootPtr(f.d, r), umap, LevelBelow(r));
      }
      f.vol.Release(RootPtr(f.d, r));
      RootDone(d0, st0, f.d, st, StoreOf(f.vol), r, umap);
      f.d := SetRoot(f.d, r, 0);
    } else {
      RootDone(d0, st0, f.d, st, StoreOf(f.vol), r, umap);
    }
  }

  /** One root after the other: an error stays, and so does what it says of the buffers. */
  method NextRoot(f: Inode, r: nat, umap: bool, ghost d0: Dinode, ghost st0: Store, before: Err) returns (err: Err)
    requires f.vol.Valid() && r < ROOTS && Unshared(d0, st0) && before in {OK, ENOMEM}
    requires before == OK || f.vol.Because(before)
    requires RootReached(d0, st0, f.d, StoreOf(f.vol), r, umap)
    requires Held(f.vol, RootSub(d0, st0, r))
    modifies f`d, Below(f.vol)
    ensures err in {OK, ENOMEM} && (err == OK || f.vol.Because(err)) && (before != OK ==> err != OK)
    ensures exists e :: e in {OK, err} && Released(f.vol, RootSub(d0, st0, r), e) && (err == OK ==> e == OK)
    ensures before == OK ==> Released(f.vol, RootSub(d0, st0, r), err)
    ensures RootReached(d0, st0, f.d, StoreOf(f.vol), r + 1, umap)
  {
    var e := TruncRoot(f, r, umap, d0, st0);
    err := if e == OK then before else e;
    if before != OK { f.vol.cache.HeldStays(); }
  }

  lemma RootNext(d0: Dinode, st0: Store, d: Dinode, st: Store, r: nat, umap: bool)
    requires r < ROOTS && RootReached(d0, st0, d, st, r, umap)
    ensures RootPtr(d, r) == RootPtr(d0, r)
    ensures RootPtr(d, r) == 0 ==> RootSub(d0, st0, r) == {}
  {}

  /** Releasing after releasing: what is left to say about two stretches of roots. */
  lemma RootsNext(d0: Dinode, st0: Store, r: nat)
    requires r < ROOTS && Unshared(d0, st0)
    ensures RootsUpTo(d0, st0, 0) == {}
    ensures RootsUpTo(d0, st0, r + 1) == RootsUpTo(d0, st0, r) + RootSub(d0, st0, r)
    ensures RootsUpTo(d0, st0, r) !! RootSub(d0, st0, r)
    ensures RootSub(d0, st0, r) <= RootsUpTo(d0, st0, ROOTS)
  {
    UpToApart(d0, st0, r, r);
    InUpTo(d0, st0, ROOTS, r);
  }

  lemma RootsFirst(d0: Dinode, st0: Store, umap: bool)
    ensures RootsUpTo(d0, st0, 0) == {} && RootReached(d0, st0, d0, st0, 0, umap)
  {}

  /** The three loops of trunc, which visit the root slots in order. */
  method TruncRoots(f: Inode, umap: bool) returns (err: Err)
    requires f.vol.Valid() && Unshared(f.d, StoreOf(f.vol))
    requires Held(f.vol, RootsUpTo(f.d, StoreOf(f.vol), ROOTS))
    modifies f`d, Below(f.vol)
    ensures err in {OK, ENOMEM}
    ensures Released(f.vol, old(RootsUpTo(f.d, StoreOf(f.vol), ROOTS)), err)
    ensures RootReached(old(f.d), old(StoreOf(f.vol)), f.d, StoreOf(f.vol), ROOTS, umap)
  {
    hide Volume.Because, BlkCache.Valid, Volume.Sound, Volume.Free, RootsUpTo, RootSub, RootReached, Unshared;
    ghost var d0, st0 := f.d, StoreOf(f.vol);
    err := OK;
    RootsFirst(d0, st0, umap);
    for r := 0 to ROOTS
      invariant err in {OK, ENOMEM}
      invariant Released(f.vol, RootsUpTo(d0, st0, r), err) && RootReached(d0, st0, f.d, StoreOf(f.vol), r, umap)
    {
      RootsNext(d0, st0, r);
      err := NextRoot(f, r, umap, d0, st0, err);
    }
  }

  /** What truncating one file does to the device: only blocks of that file are freed or changed,
      and all of them are freed unless there was an error. */
  ghost predicate Shrunk(d: Dinode, st: Store, used: set<nat>, st': Store, used': set<nat>, umap: bool, err: Err) {
    && st'.dev == st.dev
    && used' <= used
    && (forall b: nat :: b in used && !Owns(d, st, b) ==> b in used')
    && (err == OK ==> forall b: nat :: Owns(d, st, b) ==> b !in used')
    && (forall b: nat :: !umap || !Owns(d, st, b) ==> st'.Block(b) == st.Block(b))
    && (forall k: Key :: k.dev != st.dev ==> st'.v[k] == st.v[k])
  }

  /** An inode with no pointers is a sound, empty file. */
  lemma EmptyIsGood(d: Dinode, st: Store, used: set<nat>, at: Layout)
    requires forall r: nat :: r < ROOTS ==> RootPtr(d, r) == 0
    requires d.size == 0 && d.blocks == 0
    ensures Good(d, st, used, at) && Contents(d, st) == []
  {
    forall s: Slot | InTree(s) ensures Ptr(d, st, s) == 0 {
      assert RootPtr(d, s.r) == 0;
    }
    assert Mapped(d, st) == {} by {
      forall s: Slot | s in Mapped(d, st) ensures false {
        AllSlotsAre(s);
      }
    }
  }

  lemma OwnedIsHeld(d: Dinode, st: Store, vol: Volume)
    requires Unshared(d, st) && Allocated(d, st, vol.used, vol.at)
    ensures Held(vol, RootsUpTo(d, st, ROOTS))
  {
    RootsAreOwned(d, st);
  }

  lemma RootsAreShrunk(d: Dinode, st: Store, used: set<nat>, e: Dinode, st': Store, used': set<nat>, umap: bool,
                       err: Err)
    requires Unshared(d, st) && RootReached(d, st, e, st', ROOTS, umap)
    requires used - RootsUpTo(d, st, ROOTS) <= used' <= used
    requires err == OK ==> used' == used - RootsUpTo(d, st, ROOTS)
    ensures Shrunk(d, st, used, st', used', umap, err)
    ensures forall r: nat :: r < ROOTS ==> RootPtr(e, r) == 0
  {
    RootsAreOwned(d, st);
  }

  /** trunc. umap also clears the released map blocks; free_inode goes without. */
  method Trunc(f: Inode, umap: bool) returns (err: Err)
    requires f.Sound()
    modifies f`d, f`dirty, Below(f.vol)
    ensures f.Sound()
    ensures err in {OK, ENOMEM} && (err == OK || f.vol.Because(err))
    ensures Shrunk(old(f.d), old(f.St()), old(f.vol.used), f.St(), f.vol.used, umap, err)
    ensures forall r: nat :: r < ROOTS ==> RootPtr(f.d, r) == 0
    ensures f.d.size == 0 && f.d.blocks == 0 && Contents(f.d, f.St()) == [] && f.dirty == 2
    ensures err == OK ==> f.vol.cache.Balanced()
    // no block is freed twice
    ensures old(f.vol.Exact()) ==> f.vol.Exact()
  {
    hide Volume.Because, BlkCache.Valid, Volume.Sound, Volume.Free, RootsUpTo, RootReached, Unshared, Allocated,
         Counted, ZeroTail,
         Shrunk;
    OwnedIsHeld(f.d, f.St(), f.vol);
    err := TruncRoots(f, umap);
    RootsAreShrunk(old(f.d), old(f.St()), old(f.vol.used), f.d, f.St(), f.vol.used, umap, err);
    f.dirty := 2;
    ghost var d1 := f.d;
    f.d := f.d.(size := 0, blocks := 0);
    assert forall r: nat :: r < ROOTS ==> RootPtr(f.d, r) == RootPtr(d1, r);
    EmptyIsGood(f.d, f.St(), f.vol.used, f.vol.at);
  }

  /** Truncating one file keeps the whole volume sound; every other file reads as before. */
  lemma VolumeKeptByTrunc(files: map<nat, Dinode>, ino: nat, st: Store, used: set<nat>, e: Dinode, st': Store,
                          used': set<nat>, at: Layout, umap: bool, err: Err)
    requires FilesOk(files, st, used, at) && ino in files
    requires Shrunk(files[ino], st, used, st', used', umap, err)
    requires (forall r: nat :: r < ROOTS ==> RootPtr(e, r) == 0) && e.size == 0 && e.blocks == 0
    ensures FilesOk(files[ino := e], st', used', at)
    ensures forall i, p: nat :: i in files && i != ino && p < MAXFSZ ==> ByteAt(files[i], st', p) == ByteAt(files[i], st, p)
    ensures forall i :: i in files ==> st'.Block(i) == st.Block(i)
  {
    hide Good, ByteAt, Ptr, Owns, Disjoint, Shrunk, SameTree;
    var d := files[ino];
    EmptyIsGood(e, st', used', at);
    forall i | i in files ensures !Owns(d, st, i) && st'.Block(i) == st.Block(i) && i in used' {
      NotShrunk(d, st, used, st', used', umap, err, i);
    }
    forall i | i in files && i != ino
      ensures Good(files[i], st', used', at) && SameTree(files[i], st, files[i], st')
      ensures forall p: nat :: p < MAXFSZ ==> ByteAt(files[i], st', p) == ByteAt(files[i], st, p)
      ensures Disjoint(files[i], e, st') && Disjoint(e, files[i], st')
    {
      OtherKeptByTrunc(files[i], d, st, used, st', used', at, umap, err);
      EmptyIsApart(e, files[i], st');
    }
    forall i, j | i in files && j in files && i != ino
      ensures !Owns(files[i], st', j)
      ensures j != ino && i != j ==> Disjoint(files[i], files[j], st')
    {
      SameTrees(files[i], if j == ino then files[i] else files[j], st, st');
    }
    EmptyIsApart(e, e, st');
  }

  /** A file without pointers has nothing in common with any file. */
  lemma EmptyIsApart(e: Dinode, f: Dinode, st: Store)
    requires forall r: nat :: r < ROOTS ==> RootPtr(e, r) == 0
    ensures Disjoint(f, e, st) && Disjoint(e, f, st)
    ensures forall b: nat :: !Owns(e, st, b)
  {
    forall s: Slot | InTree(s) ensures Ptr(e, st, s) == 0 {
      assert RootPtr(e, s.r) == 0;
    }
  }

  lemma NotShrunk(d: Dinode, st: Store, used: set<nat>, st': Store, used': set<nat>, umap: bool, err: Err, b: nat)
    requires Shrunk(d, st, used, st', used', umap, err) && b in used && !Owns(d, st, b)
    ensures st'.Block(b) == st.Block(b) && b in used'
  {}

  lemma OtherKeptByTrunc(f: Dinode, d: Dinode, st: Store, used: set<nat>, st': Store, used': set<nat>, at: Layout,
                         umap: bool, err: Err)
    requires Good(f, st, used, at) && Disjoint(f, d, st) && Shrunk(d, st, used, st', used', umap, err)
    ensures Good(f, st', used', at) && SameTree(f, st, f, st')
    ensures forall p: nat :: p < MAXFSZ ==> ByteAt(f, st', p) == ByteAt(f, st, p)
  {
    forall s: Slot | InTree(s) && Ptr(f, st, s) != 0
      ensures st'.Block(Ptr(f, st, s)) == st.Block(Ptr(f, st, s)) && Ptr(f, st, s) in used'
    {
      assert !Owns(d, st, Ptr(f, st, s));
    }
    FrameBytes(f, st, st');
  }
}
