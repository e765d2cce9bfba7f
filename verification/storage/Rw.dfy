/** Reading and writing byte ranges of a regular file, kern/fs/rw.c. */
module Rw {
  import opened Bytes
  import opened Errors
  import opened Cache
  import opened Holders
  import opened Volume
  import opened FileTree
  import opened Bmap
  import opened Room

  /** The bytes that fit into the block of position pos, of count bytes from there on. */
  function ChunkLen(pos: nat, count: nat): (l: nat)
    ensures l <= count && pos % BLK_SIZE + l <= BLK_SIZE && (count > 0 ==> l > 0)
  {
    var l := BLK_SIZE - pos % BLK_SIZE;
    if l > count then count else l
  }

  /** Byte p of a file as reg_read finds it, where the lookup of its file block leads. */
  ghost function Seen(d: Dinode, st: Store, p: nat): byte {
    var a := Walk(d, st, p / BLK_SIZE);
    if a == TooBig || a == Blk(0) then 0 else st.Block(a.b)[p % BLK_SIZE]
  }

  ghost function SeenRange(d: Dinode, st: Store, from: nat, to: nat): (s: seq<byte>)
    requires from <= to
    ensures |s| == to - from && forall i :: 0 <= i < to - from ==> s[i] == Seen(d, st, from + i)
  {
    seq<byte>(to - from, i requires 0 <= i < to - from => Seen(d, st, from + i))
  }

  /** Some byte of the range has a file block for which the lookup answers EFBIG. */
  ghost predicate BeyondMap(d: Dinode, st: Store, from: nat, to: nat) {
    exists p: nat :: from <= p < to && Walk(d, st, p / BLK_SIZE) == TooBig
  }

  /** What is seen are the bytes of the file where the lookup is right, and everywhere below BMAP_LOW. */
  lemma SeenIsByte(d: Dinode, st: Store, p: nat)
    requires p < MAXFSZ
    ensures Walk(d, st, p / BLK_SIZE) == Blk(Ptr(d, st, SlotOf(p / BLK_SIZE))) ==> Seen(d, st, p) == ByteAt(d, st, p)
    ensures p / BLK_SIZE < BMAP_LOW ==> Seen(d, st, p) == ByteAt(d, st, p) && Walk(d, st, p / BLK_SIZE) != TooBig
  {
    if p / BLK_SIZE < BMAP_LOW { WalkFindsData(d, st, p / BLK_SIZE); }
  }

  lemma SeenIsContents(d: Dinode, st: Store, from: nat, to: nat)
    requires from <= to <= d.size <= MAXFSZ && to <= BMAP_LOW * BLK_SIZE
    ensures SeenRange(d, st, from, to) == Contents(d, st)[from..to] && !BeyondMap(d, st, from, to)
  {
    hide Seen, ByteAt, Walk;
    forall p: nat | from <= p < to ensures Seen(d, st, p) == ByteAt(d, st, p) && Walk(d, st, p / BLK_SIZE) != TooBig {
      SeenIsByte(d, st, p);
    }
  }

  /** reg_read. A failed lookup or read gives up the whole transfer. */
  method RegRead(f: Inode, start: nat, count: nat) returns (err: Err, out: seq<byte>, next: nat)
    requires f.vol.Valid()
    modifies f`d, f`dirty, f.Below()
    ensures f.vol.Valid() && f.Idle()
    ensures err in {OK, ENOMEM, EFBIG} && (err in {OK, EFBIG} || f.vol.Because(err))
    ensures next == if err == OK then start + |out| else start
    ensures start + count <= BMAP_LOW * BLK_SIZE && Roomy(old(SlotsOf(f.vol.cache)), |MapRoots(start, start + count)|) ==>
              err == OK
    ensures start > f.d.size ==> err == OK && out == []
    ensures start <= f.d.size ==>
              var end := Min(start + count, f.d.size);
              && (err == OK ==> out == SeenRange(f.d, f.St(), start, end))
              && (err == EFBIG ==> BeyondMap(f.d, f.St(), start, end))
              && (end <= BMAP_LOW * BLK_SIZE && f.d.size <= MAXFSZ ==>
                    err != EFBIG && (err == OK ==> out == Contents(f.d, f.St())[start..end]))
  {
    hide BlkCache.Valid, Volume.Sound, Volume.Because, Ptr, Word, Good, ByteAt, Walk, Seen, Contents, SlotsOf, Roomy,
         MapRoots, Needed, BeyondMap;
    var left: nat := count;
    out, next, err := [], start, OK;
    if start > f.d.size { return; }
    if left + start > f.d.size {
      left := f.d.size - start;
    }
    ghost var end := start + left;
    if end <= BMAP_LOW * BLK_SIZE && f.d.size <= MAXFSZ { SeenIsContents(f.d, f.St(), start, end); }
    if Roomy(SlotsOf(f.vol.cache), |MapRoots(start, start + count)|) {
      RoomyFor(SlotsOf(f.vol.cache), start, end, start + count);
    }
    if end <= BMAP_LOW * BLK_SIZE { NothingBeyond(f.d, f.St(), start, end); }
    err, out := ReadRange(f, start, left);
    if err == OK { next := start + left; }
  }

  lemma NothingBeyond(d: Dinode, st: Store, from: nat, to: nat)
    requires to <= BMAP_LOW * BLK_SIZE
    ensures !BeyondMap(d, st, from, to)
  {
    forall p: nat | from <= p < to ensures Walk(d, st, p / BLK_SIZE) != TooBig {
      WalkFindsData(d, st, p / BLK_SIZE);
    }
  }

  /** The loop of reg_read. */
  method ReadRange(f: Inode, start: nat, count: nat) returns (err: Err, out: seq<byte>)
    requires f.vol.Valid()
    modifies f`d, f`dirty, f.Below()
    ensures f.vol.Valid() && f.Idle()
    ensures err in {OK, ENOMEM, EFBIG} && (err == ENOMEM ==> f.vol.Because(ENOMEM))
    ensures err == OK ==> out == SeenRange(f.d, f.St(), start, start + count)
    ensures err == EFBIG ==> BeyondMap(f.d, f.St(), start, start + count)
    ensures start + count <= BMAP_LOW * BLK_SIZE && Roomy(old(SlotsOf(f.vol.cache)), |MapRoots(start, start + count)|) ==>
              err != ENOMEM
  {
    hide BlkCache.Valid, Volume.Sound, Volume.Because, Ptr, Word, Good, ByteAt, Walk, Seen, Contents, SlotsOf, Lent,
         Spare, Roomy, MapRoots, MapKeys, MapRoot, Needed;
    ghost var was, end := SlotsOf(f.vol.cache), start + count;
    var pos: nat, left: nat := start, count;
    out, err := [], OK;
    LentSame(was, MapKeys(f.d, f.vol.at.dev, MapRoots(start, start)));
    while left > 0
      invariant start <= pos && pos + left == end && f.vol.Valid() && f.Idle() && err == OK
      invariant out == SeenRange(f.d, f.St(), start, pos)
      invariant end <= BMAP_LOW * BLK_SIZE ==>
                  Lent(was, SlotsOf(f.vol.cache), MapKeys(f.d, f.vol.at.dev, MapRoots(start, pos)))
    {
      var l := ChunkLen(pos, left);
      var part;
      ghost var mid := SlotsOf(f.vol.cache);
      err, part := ReadChunk(f, pos, l);
      if end <= BMAP_LOW * BLK_SIZE {
        LendChunk(was, mid, f, f.d, start, pos, l);
        if Roomy(was, |MapRoots(start, end)|) { EnoughWays(f, was, start, pos + l, end); }
      }
      if err == EFBIG { assert BeyondMap(f.d, f.St(), start, end); }
      if err != OK { return; }
      out := out + part;
      left := left - l;
      pos := pos + l;
    }
  }

  lemma EnoughWays(f: Inode, was: imap<Way, Buf>, lo: nat, mid: nat, hi: nat)
    requires f.vol.Valid() && lo <= mid <= hi && Roomy(was, |MapRoots(lo, hi)|)
    requires Lent(was, SlotsOf(f.vol.cache), MapKeys(f.d, f.vol.at.dev, MapRoots(lo, mid)))
    ensures !f.vol.Because(ENOMEM)
  {
    hide BlkCache.Valid, Volume.Sound, SlotsOf, Lent, Roomy, Spare, MapKeys, MapRoots;
    SpareLeft(f.vol.cache, was, f.d, f.vol.at.dev, lo, mid, hi);
  }

  /** The map block of one file block more is held. */
  lemma LendChunk(was: imap<Way, Buf>, mid: imap<Way, Buf>, f: Inode, d1: Dinode, start: nat, pos: nat, l: nat)
    requires start <= pos && l > 0 && pos % BLK_SIZE + l <= BLK_SIZE && pos / BLK_SIZE < BMAP_LOW && SameRoots(d1, f.d)
    requires Lent(was, mid, MapKeys(d1, f.vol.at.dev, MapRoots(start, pos)))
    requires Lent(mid, SlotsOf(f.vol.cache), MapKeys(f.d, f.vol.at.dev, MapRoot(pos / BLK_SIZE)))
    ensures Lent(was, SlotsOf(f.vol.cache), MapKeys(f.d, f.vol.at.dev, MapRoots(start, pos + l)))
  {
    hide Lent, MapKeys, MapRoots, MapRoot, SlotsOf, Needed, SameRoots;
    NeededMore(start, pos, l);
    LendMore(was, mid, SlotsOf(f.vol.cache), d1, f.d, f.vol.at.dev, MapRoots(start, pos), MapRoot(pos / BLK_SIZE));
  }

  /** The loop body of reg_read: part of one block, or zeros for a hole. */
  method ReadChunk(f: Inode, pos: nat, l: nat) returns (err: Err, part: seq<byte>)
    requires f.vol.Valid() && l > 0 && pos % BLK_SIZE + l <= BLK_SIZE
    modifies f`d, f`dirty, f.Below()
    ensures f.vol.Valid() && f.Idle()
    ensures err in {OK, ENOMEM, EFBIG} && (err == EFBIG <==> Walk(f.d, f.St(), pos / BLK_SIZE) == TooBig)
    ensures err == ENOMEM ==> f.vol.Because(ENOMEM)
    ensures pos / BLK_SIZE < BMAP_LOW ==> f.Lends(MapRoot(pos / BLK_SIZE))
    ensures err == OK ==> part == SeenRange(f.d, f.St(), pos, pos + l)
  {
    hide BlkCache.Valid, Volume.Sound, Volume.Because, Ptr, Word, Walk, SlotsOf, Lent, MapKeys, MapRoot;
    var blk;
    err, blk := f.Bmap3(pos / BLK_SIZE, false);
    part := [];
    if err != OK { return; }
    if blk != 0 {
      ghost var mid, keys := SlotsOf(f.vol.cache), if pos / BLK_SIZE < BMAP_LOW then MapRoot(pos / BLK_SIZE) else {};
      err, part := f.vol.ReadData(blk, pos % BLK_SIZE, l);
      if pos / BLK_SIZE < BMAP_LOW {
        LentBoth(old(SlotsOf(f.vol.cache)), mid, SlotsOf(f.vol.cache), MapKeys(f.d, f.vol.at.dev, keys), {},
                 MapKeys(f.d, f.vol.at.dev, keys));
      }
      if err != OK { return; }
    } else {
      part := seq(l, _ => 0);
    }
    ChunkSeen(f.d, f.St(), pos, l, blk);
  }

  /** A stretch of the file that lies within one file block. */
  lemma ChunkSeen(d: Dinode, st: Store, pos: nat, l: nat, blk: u32)
    requires pos % BLK_SIZE + l <= BLK_SIZE && Walk(d, st, pos / BLK_SIZE) == Blk(blk)
    ensures SeenRange(d, st, pos, pos + l) ==
      if blk == 0 then seq(l, _ => 0) else st.Block(blk)[pos % BLK_SIZE..pos % BLK_SIZE + l]
  {
    hide Walk;
    var o := pos % BLK_SIZE;
    forall p: nat | pos <= p < pos + l ensures Seen(d, st, p) == if blk == 0 then 0 else st.Block(blk)[p - pos + o] {
      assert p / BLK_SIZE == pos / BLK_SIZE && p % BLK_SIZE == p - pos + o;
    }
  }

  /** c, made at least n long with zeros. */
  function Extended(c: seq<byte>, n: nat): seq<byte> {
    c + seq(Max(n, |c|) - |c|, _ => 0)
  }

  /** c with src laid over it from position pos on; a gap is filled with zeros. */
  function Splice(c: seq<byte>, pos: nat, src: seq<byte>): seq<byte> {
    var e := Extended(c, pos + |src|);
    e[..pos] + src + e[pos + |src|..]
  }

  /** Bytes lo up to hi of the file are now those of src, which starts at lo; all others are the same. */
  ghost predicate Wrote(d: Dinode, st: Store, e: Dinode, st': Store, lo: nat, hi: nat, src: seq<byte>)
    requires lo <= hi <= lo + |src|
  {
    forall p: nat :: p < MAXFSZ ==> ByteAt(e, st', p) == if lo <= p < hi then src[p - lo] else ByteAt(d, st, p)
  }

  lemma WroteNone(d: Dinode, st: Store, e: Dinode, st': Store, start: nat, src: seq<byte>)
    requires forall p: nat :: p < MAXFSZ ==> ByteAt(e, st', p) == ByteAt(d, st, p)
    ensures Wrote(d, st, e, st', start, start, src)
  {
    hide ByteAt;
  }

  /** The next bytes of src are stored, or none of them. */
  lemma WroteMore(d: Dinode, st: Store, d1: Dinode, st1: Store, e: Dinode, st': Store, start: nat, done: nat, l: nat,
                  src: seq<byte>)
    requires done + l <= |src| && Wrote(d, st, d1, st1, start, start + done, src)
    ensures Wrote(d1, st1, e, st', start + done, start + done + l, src[done..done + l]) ==>
              Wrote(d, st, e, st', start, start + done + l, src)
    ensures Wrote(d1, st1, e, st', start + done, start + done, src[done..done + l]) ==>
              Wrote(d, st, e, st', start, start + done, src)
  {
    hide ByteAt;
  }

  /** The loop body of reg_write: one block is found or allocated, and its part of the range stored. */
  method WriteChunk(f: Inode, pos: nat, part: seq<byte>) returns (err: Err)
    requires f.Sound() && pos % BLK_SIZE + |part| <= BLK_SIZE && pos + |part| <= f.d.size && pos / BLK_SIZE < BMAP_LOW
    modifies f`d, f`dirty, f.Below()
    ensures f.Sound()
    ensures err in {OK, EROFS, ENOSPC, ENOMEM} && (err == OK || f.vol.Because(err))
    ensures Grown(old(f.d), old(f.St()), old(f.vol.used), f.d, f.St(), f.vol.used)
    ensures Wrote(old(f.d), old(f.St()), f.d, f.St(), pos, if err == OK then pos + |part| else pos, part)
    ensures f.d.size == old(f.d.size) && (f.dirty == 2 || (f.d == old(f.d) && f.dirty == old(f.dirty)))
    ensures old(f.vol.Exact()) ==> f.vol.Exact()
    ensures f.vol.ro == old(f.vol.ro) && (f.vol.ro ==> f.vol.used == old(f.vol.used))
    ensures OnlyFilled(old(f.d), old(f.St()), f.d, f.St(), SlotsFor(pos / BLK_SIZE)) && f.Lends(MapRoot(pos / BLK_SIZE))
    ensures err == OK ==> Ptr(f.d, f.St(), SlotOf(pos / BLK_SIZE)) != 0
    ensures err in {EROFS, ENOSPC} ==> Ptr(f.d, f.St(), SlotOf(pos / BLK_SIZE)) == 0
  {
    hide BlkCache.Valid, Volume.Sound, Volume.Exact, Volume.Because, Ptr, Word, ByteAt, Owns, Good, Grown, SlotsOf, Lent,
         MapKeys, MapRoot, SlotsFor, SlotOf;
    var blk;
    err, blk := f.Bmap3(pos / BLK_SIZE, true);
    if err != OK { return; }
    ghost var d1, st1, used1, mid, keys := f.d, f.St(), f.vol.used, SlotsOf(f.vol.cache),
                                           MapKeys(f.d, f.vol.at.dev, MapRoot(pos / BLK_SIZE));
    // bmap_alloc never answers 0 here, so the source's other branch is dead
    err := StorePart(f, blk, pos, part);
    GrownTransitive(old(f.d), old(f.St()), old(f.vol.used), d1, st1, used1, f.d, f.St(), f.vol.used);
    LentBoth(old(SlotsOf(f.vol.cache)), mid, SlotsOf(f.vol.cache), keys, {}, keys);
  }

  lemma InDataArea(f: Inode, n: nat)
    requires f.Sound() && n < BMAP_END && Ptr(f.d, f.St(), SlotOf(n)) != 0
    ensures f.vol.at.InData(Ptr(f.d, f.St(), SlotOf(n)))
  {
  }

  /** blk_upwrite of part of a block of the file. */
  method StorePart(f: Inode, blk: u32, pos: nat, part: seq<byte>) returns (err: Err)
    requires f.Sound() && pos % BLK_SIZE + |part| <= BLK_SIZE && pos + |part| <= f.d.size && pos / BLK_SIZE < BMAP_LOW
    requires blk == Ptr(f.d, f.St(), SlotOf(pos / BLK_SIZE)) != 0
    modifies f.Below()
    ensures f.Sound() && err in {OK, ENOMEM} && (err == OK || f.vol.Because(err))
    ensures Grown(f.d, old(f.St()), old(f.vol.used), f.d, f.St(), f.vol.used)
    ensures Wrote(f.d, old(f.St()), f.d, f.St(), pos, if err == OK then pos + |part| else pos, part)
    ensures old(f.vol.Exact()) ==> f.vol.Exact()
    ensures f.vol.ro == old(f.vol.ro) && f.vol.used == old(f.vol.used)
    ensures f.OnlySlots({}) && f.NoneHeld()
  {
    hide BlkCache.Valid, Volume.Sound, Volume.Exact, Volume.Because, Ptr, Word, ByteAt, Owns, Allocated, Unshared, Counted,
         ZeroTail, Grown, SlotsOf, Lent, SlotOf;
    InDataArea(f, pos / BLK_SIZE);
    ghost var st := f.St();
    GrownReflexive(f.d, st, f.vol.used);
    err := f.vol.WriteData(blk, pos % BLK_SIZE, part);
    if err != OK { return; }
    DataStep(f.d, st, f.vol.used, f.vol.at, pos / BLK_SIZE, pos % BLK_SIZE, part);
    assert f.St() == st.Put(blk, Patch(st.Block(blk), pos % BLK_SIZE, part));
  }

  /** Bytes in place and size raised, the file's contents are the old ones with src laid over them;
      of a broken-off write only the first done bytes, and zeros up to the raised size. */
  lemma WroteIsSplice(d: Dinode, st: Store, e: Dinode, st': Store, start: nat, done: nat, src: seq<byte>)
    requires done <= |src| && Wrote(d, st, e, st', start, start + done, src)
    requires ZeroTail(d, st) && e.size == Max(d.size, start + |src|) <= MAXFSZ
    ensures Contents(e, st') == Extended(Splice(Contents(d, st), start, src[..done]), start + |src|)
    ensures done == |src| ==> Contents(e, st') == Splice(Contents(d, st), start, src)
  {
    hide ByteAt;
    var c := Contents(d, st);
    assert src[..|src|] == src;
    assert Contents(e, st') == Extended(Splice(c, start, src[..done]), start + |src|);
  }

  /** What a transfer of src to position start leaves behind when its first done bytes were
      stored: those bytes are in place, the size covers the whole request, nothing else changed. */
  twostate predicate Stored(f: Inode, start: nat, src: seq<byte>, done: nat)
    requires done <= |src|
    reads f, f.Below()
  {
    && Grown(old(f.d), old(f.St()), old(f.vol.used), f.d, f.St(), f.vol.used)
    && Wrote(old(f.d), old(f.St()), f.d, f.St(), start, start + done, src)
    && f.d.size == Max(old(f.d.size), start + |src|)
    && (f.dirty == 2 || (f.d == old(f.d) && f.dirty == old(f.dirty)))
    && (old(f.vol.Exact()) ==> f.vol.Exact())
  }

  /** reg_write past its two limit checks. */
  method WriteRange(f: Inode, start: nat, src: seq<byte>) returns (err: Err, next: nat, ghost done: nat)
    requires f.Sound() && start + |src| <= BMAP_LOW * BLK_SIZE
    modifies f`d, f`dirty, f.Below()
    ensures f.Sound()
    ensures err in {OK, EROFS, ENOSPC, ENOMEM}
    ensures done <= |src| && (err == OK ==> done == |src|)
    ensures next == if err == OK then start + |src| else start
    ensures Stored(f, start, src, done)
    ensures err == OK || f.vol.Because(err)
    ensures f.vol.ro == old(f.vol.ro) && (f.vol.ro ==> f.vol.used == old(f.vol.used))
    ensures OnlyFilled(old(f.d), old(f.St()), f.d, f.St(), Needed(start, start + |src|))
    ensures err == OK ==> Missing(f.d, f.St(), start, start + |src|) == {}
    ensures err in {EROFS, ENOSPC} ==> Missing(f.d, f.St(), start, start + |src|) != {}
    ensures Roomy(old(SlotsOf(f.vol.cache)), |MapRoots(start, start + |src|)|) ==> err != ENOMEM
  {
    hide BlkCache.Valid, Volume.Sound, Volume.Because, Volume.Exact, Ptr, ByteAt, Owns, Allocated, Unshared, Counted,
         ZeroTail, Grown, SlotsOf, Lent, Roomy, MapRoots, MapRoot, MapKeys, Needed, SlotsFor, Through, OnlyFilled,
         SameTree, Missing, Good, Wrote;
    ghost var d0, st0, used0, was := f.d, f.St(), f.vol.used, SlotsOf(f.vol.cache);
    if |src| + start > f.d.size {
      Enlarge(f, |src| + start, src);
    } else {
      WroteNone(f.d, f.St(), f.d, f.St(), start, src);
      GrownReflexive(f.d, f.St(), f.vol.used);
      SameIsSameTree(f.d, f.St());
    }
    ThroughNone(d0, st0, f.d, f.St(), start);
    LentSame(was, MapKeys(f.d, f.vol.at.dev, MapRoots(start, start)));
    err, done := WriteLoop(f, start, src, d0, st0, used0, was);
    next := if err == OK then start + |src| else start;
  }

  /** The loop of reg_write, of a file that was d0 over st0 when the call began. */
  method WriteLoop(f: Inode, start: nat, src: seq<byte>, ghost d0: Dinode, ghost st0: Store, ghost used0: set<nat>,
                   ghost was: imap<Way, Buf>)
    returns (err: Err, ghost done: nat)
    requires f.Sound() && start + |src| <= f.d.size && start + |src| <= BMAP_LOW * BLK_SIZE
    requires Grown(d0, st0, used0, f.d, f.St(), f.vol.used) && Wrote(d0, st0, f.d, f.St(), start, start, src)
    requires Through(d0, st0, f.d, f.St(), start, start)
    requires Lent(was, SlotsOf(f.vol.cache), MapKeys(f.d, f.vol.at.dev, MapRoots(start, start)))
    modifies f`d, f`dirty, f.Below()
    ensures f.Sound() && err in {OK, EROFS, ENOSPC, ENOMEM} && (err == OK || f.vol.Because(err))
    ensures done <= |src| && (err == OK ==> done == |src|)
    ensures Grown(d0, st0, used0, f.d, f.St(), f.vol.used) && Wrote(d0, st0, f.d, f.St(), start, start + done, src)
    ensures f.d.size == old(f.d.size) && (f.dirty == 2 || (f.d == old(f.d) && f.dirty == old(f.dirty)))
    ensures old(f.vol.Exact()) ==> f.vol.Exact()
    ensures f.vol.ro == old(f.vol.ro) && (f.vol.ro ==> f.vol.used == old(f.vol.used))
    ensures OnlyFilled(d0, st0, f.d, f.St(), Needed(start, start + |src|))
    ensures err == OK ==> Missing(f.d, f.St(), start, start + |src|) == {}
    ensures err in {EROFS, ENOSPC} ==> Missing(f.d, f.St(), start, start + |src|) != {}
    ensures Roomy(was, |MapRoots(start, start + |src|)|) ==> err != ENOMEM
  {
    hide BlkCache.Valid, Volume.Sound, Volume.Because, Volume.Exact, Ptr, ByteAt, Good, Grown, Wrote, SlotsOf, Lent, Roomy,
         MapRoots, MapRoot, MapKeys, Needed, SlotsFor, Through, OnlyFilled, Missing;
    var pos: nat, left: nat := start, |src|;
    done, err := 0, OK;
    while left > 0
      invariant pos == start + done && pos + left == start + |src| && err == OK && f.Sound()
      invariant Grown(d0, st0, used0, f.d, f.St(), f.vol.used) && Wrote(d0, st0, f.d, f.St(), start, start + done, src)
      invariant f.d.size == old(f.d.size) && (f.dirty == 2 || (f.d == old(f.d) && f.dirty == old(f.dirty)))
      invariant old(f.vol.Exact()) ==> f.vol.Exact()
      invariant f.vol.ro == old(f.vol.ro) && (f.vol.ro ==> f.vol.used == old(f.vol.used))
      invariant Through(d0, st0, f.d, f.St(), start, pos)
      invariant Lent(was, SlotsOf(f.vol.cache), MapKeys(f.d, f.vol.at.dev, MapRoots(start, pos)))
    {
      var l := ChunkLen(pos, left);
      ghost var d1, st1, used1 := f.d, f.St(), f.vol.used;
      assert done + l <= |src| && pos - start == done;
      err := WriteNext(f, pos, src[pos - start..pos - start + l], d0, st0, was, start, start + |src|);
      GrownTransitive(d0, st0, used0, d1, st1, used1, f.d, f.St(), f.vol.used);
      WroteMore(d0, st0, d1, st1, f.d, f.St(), start, done, l, src);
      if err != OK { return; }
      left := left - l;
      pos := pos + l;
      done := done + l;
    }
    ThroughAll(d0, st0, f.d, f.St(), start, pos);
  }

  /** The size is raised. */
  method Enlarge(f: Inode, size: nat, ghost src: seq<byte>)
    requires f.Sound() && f.d.size <= size <= MAXFSZ && |src| <= size
    modifies f`d, f`dirty
    ensures f.Sound() && f.d == old(f.d).(size := size) && f.dirty == 2
    ensures Grown(old(f.d), f.St(), f.vol.used, f.d, f.St(), f.vol.used) && SameTree(old(f.d), f.St(), f.d, f.St())
    ensures Wrote(old(f.d), f.St(), f.d, f.St(), size - |src|, size - |src|, src)
  {
    hide BlkCache.Valid, Volume.Sound, ByteAt, Good, Grown, SameTree, Wrote;
    SizeStep(f.d, f.St(), f.vol.used, f.vol.at, size);
    WroteNone(f.d, f.St(), f.d.(size := size), f.St(), size - |src|, src);
    f.d := f.d.(size := size);
    f.dirty := 2;
  }

  /** The loop body of reg_write, within the whole range: which slots have been filled so far, and which
      buffers are held. */
  method WriteNext(f: Inode, pos: nat, part: seq<byte>, ghost d0: Dinode, ghost st0: Store, ghost was: imap<Way, Buf>,
                   ghost start: nat, ghost end: nat)
    returns (err: Err)
    requires f.Sound() && pos % BLK_SIZE + |part| <= BLK_SIZE && pos + |part| <= f.d.size && pos / BLK_SIZE < BMAP_LOW
    requires |part| > 0 && start <= pos && pos + |part| <= end && Through(d0, st0, f.d, f.St(), start, pos)
    requires Lent(was, SlotsOf(f.vol.cache), MapKeys(f.d, f.vol.at.dev, MapRoots(start, pos)))
    modifies f`d, f`dirty, f.Below()
    ensures f.Sound() && err in {OK, EROFS, ENOSPC, ENOMEM} && (err == OK || f.vol.Because(err))
    ensures Grown(old(f.d), old(f.St()), old(f.vol.used), f.d, f.St(), f.vol.used)
    ensures Wrote(old(f.d), old(f.St()), f.d, f.St(), pos, if err == OK then pos + |part| else pos, part)
    ensures f.d.size == old(f.d.size) && (f.dirty == 2 || (f.d == old(f.d) && f.dirty == old(f.dirty)))
    ensures old(f.vol.Exact()) ==> f.vol.Exact()
    ensures f.vol.ro == old(f.vol.ro) && (f.vol.ro ==> f.vol.used == old(f.vol.used))
    ensures err == OK ==> Through(d0, st0, f.d, f.St(), start, pos + |part|)
    ensures Lent(was, SlotsOf(f.vol.cache), MapKeys(f.d, f.vol.at.dev, MapRoots(start, pos + |part|)))
    ensures OnlyFilled(d0, st0, f.d, f.St(), Needed(start, end))
    ensures err in {EROFS, ENOSPC} ==> Missing(f.d, f.St(), start, end) != {}
    ensures Roomy(was, |MapRoots(start, end)|) ==> err != ENOMEM
  {
    hide BlkCache.Valid, Volume.Sound, Volume.Because, Volume.Exact, Ptr, ByteAt, Good, Wrote, Grown, SlotsOf, Lent, Roomy,
         MapRoots, MapRoot, MapKeys, Needed, SlotsFor, SlotOf, Through, OnlyFilled, SameRoots, Missing;
    ghost var d1, st1, used1, mid := f.d, f.St(), f.vol.used, SlotsOf(f.vol.cache);
    err := WriteChunk(f, pos, part);
    GrownRoots(d1, st1, used1, f.d, f.St(), f.vol.used);
    LendChunk(was, mid, f, d1, start, pos, |part|);
    if Roomy(was, |MapRoots(start, end)|) { EnoughWays(f, was, start, pos + |part|, end); }
    ThroughStop(d0, st0, d1, st1, f.d, f.St(), start, pos, end);
    if err == OK {
      ThroughMore(d0, st0, d1, st1, used1, f.d, f.St(), f.vol.used, start, pos, |part|);
    }
  }

  /** reg_write. The size is raised before the first byte is stored and stays raised on failure. */
  method RegWrite(f: Inode, start: nat, src: seq<byte>, fslimit: nat) returns (err: Err, next: nat, ghost done: nat)
    requires f.Sound()
    requires fslimit <= BMAP_LOW || start + |src| <= BMAP_LOW * BLK_SIZE
    modifies f`d, f`dirty, f.Below()
    ensures f.Sound()
    ensures err in {OK, EFBIG, EROFS, ENOSPC, ENOMEM}
    ensures err == EFBIG <==> start + |src| > fslimit * BLK_SIZE || start + |src| > MAXFSZ
    ensures err == EFBIG ==> f.Idle()
    ensures done <= |src| && (err == OK ==> done == |src|)
    ensures next == if err == OK then start + |src| else start
    ensures err != EFBIG ==> Stored(f, start, src, done)
    ensures err == OK ==> Contents(f.d, f.St()) == Splice(old(Contents(f.d, f.St())), start, src)
    ensures err in {OK, EFBIG} || f.vol.Because(err)
    ensures f.vol.ro == old(f.vol.ro)
    // the range takes a free block for each of its slots that is empty, and fails only if there are too few
    ensures err == OK ==> var at, end := f.vol.at, start + |src|;
              |at.Room(f.vol.used)| + old(|Missing(f.d, f.St(), start, end)|) == old(|at.Room(f.vol.used)|)
    ensures err == ENOSPC ==> old(|f.vol.at.Room(f.vol.used)|) < old(|Missing(f.d, f.St(), start, start + |src|)|)
    ensures f.vol.ro && err == OK ==> old(Missing(f.d, f.St(), start, start + |src|)) == {}
    ensures Roomy(old(SlotsOf(f.vol.cache)), |MapRoots(start, start + |src|)|) ==> err != ENOMEM
    ensures Roomy(old(SlotsOf(f.vol.cache)), |MapRoots(start, start + |src|)|) && !f.vol.ro && err != EFBIG ==>
              (err == OK <==>
               old(|Missing(f.d, f.St(), start, start + |src|)|) <= old(|f.vol.at.Room(f.vol.used)|))
    ensures err !in {OK, EFBIG} ==>
      Contents(f.d, f.St()) == Extended(Splice(old(Contents(f.d, f.St())), start, src[..done]), start + |src|)
  {
    hide BlkCache.Valid, Volume.Sound, Volume.Exact, ByteAt, ZeroTail, Grown, Contents, Splice, Extended, Wrote, Good,
         SlotsOf, Spare, Roomy, MapRoots, Missing, OnlyFilled, Layout.Room;
    SoundTail(f);
    next, done := start, 0;
    if |src| + start > fslimit * BLK_SIZE { return EFBIG, next, done; }
    if |src| + start > MAXFSZ { return EFBIG, next, done; }
    err, next, done := WriteRange(f, start, src);
    WroteIsSplice(old(f.d), old(f.St()), f.d, f.St(), start, done, src);
    WriteTakes(old(f.d), old(f.St()), old(f.vol.used), f.d, f.St(), f.vol.used, f.vol.at, start, start + |src|);
    NoneLeft(f, err, start, start + |src|);
  }

  lemma SoundTail(f: Inode)
    requires f.Sound()
    ensures ZeroTail(f.d, f.St()) && f.d.size <= MAXFSZ
  {
  }

  lemma NoneLeft(f: Inode, err: Err, lo: nat, hi: nat)
    requires err == OK ==> Missing(f.d, f.St(), lo, hi) == {}
    requires err == ENOSPC ==> Missing(f.d, f.St(), lo, hi) != {} && f.vol.Because(err)
    ensures err == OK ==> |Missing(f.d, f.St(), lo, hi)| == 0
    ensures err == ENOSPC ==> |Missing(f.d, f.St(), lo, hi)| > 0 && |f.vol.at.Room(f.vol.used)| == 0
  {
    hide Missing, Spare, SlotsOf, Layout.Room;
  }
}
