/** Where the numbers of Icore.answers come from: the requests for buffers, served by the cache of
    kern/fs/blk.c, and the reads and writes of inodes, kern/fs/inode.c, over it. */
module InodeBlocks {
  import opened Bytes
  import opened Errors
  import opened Cache
  import opened Calls
  import opened Holders
  import opened InodeImage
  import opened InodeTable
  import opened Mknod
  import opened Paths
  import opened Runs

  /** What the table keeps of the inode in a block. */
  function DnodeOf(b: Block): Dnode { Dnode(IsDir(b), NlinkOf(b)) }

  /** The disk of the table is what the cache has in the blocks of the inodes. */
  ghost predicate OnBlocks(disk: map<nat, Dnode>, view: View, dev: nat) {
    forall x :: x in disk ==> disk[x] == DnodeOf(view[Key(dev, x)])
  }

  /** No buffer can be had for the block: it is not in the cache, and all four ways of its row are held. */
  ghost predicate Denied(cache: BlkCache, k: Key)
    reads cache.ways
  {
    cache.Absent(k) && cache.Full(k)
  }

  /** The same of the slots alone: the row is held, and for other blocks. */
  ghost predicate HeldByOthers(slots: imap<Way, Buf>, k: Key) {
    RowHeld(slots, Row(k)) && forall h :: h in slots && h.row == Row(k) ==> slots[h].key != k
  }

  lemma DeniedIff(cache: BlkCache, k: Key)
    requires cache.Valid()
    ensures Denied(cache, k) <==> HeldByOthers(SlotsOf(cache), k)
  {
    forall h: Way | cache.At(h) ensures h in SlotsOf(cache) && cache.SlotOk(h) {}
  }

  /** Each slot has as many holders as before, and who holds one has the same block in it. */
  ghost predicate SameHolders(was: imap<Way, Buf>, now: imap<Way, Buf>) {
    && now.Keys == was.Keys
    && forall h :: h in was ==>
         now[h].refcnt == was[h].refcnt && (was[h].refcnt > 0 ==> now[h].key == was[h].key && (was[h].valid ==> now[h].valid))
  }

  lemma SameHoldersSame(slots: imap<Way, Buf>)
    ensures SameHolders(slots, slots)
  {
  }

  /** The read of inode_get, blk_read and a copy, or the write of inode_put, blk_get and a copy: how many
      buffers are had, of one. */
  method Ask(cache: BlkCache, dev: nat, x: nat, read: bool, data: Block) returns (good: nat)
    requires cache.Valid() && cache.Attached(dev)
    modifies cache`nind, cache`disk, cache`view, cache.ways
    ensures cache.Valid() && SameHolders(old(SlotsOf(cache)), SlotsOf(cache))
    ensures good == if old(Denied(cache, Key(dev, x))) then 0 else 1
    ensures cache.view == if read || good == 0 then old(cache.view) else old(cache.view)[Key(dev, x) := data]
  {
    hide BlkCache.Valid;
    var err;
    if read {
      var found;
      err, found := cache.Fetch(dev, x);
    } else {
      err := cache.Overwrite(dev, x, data);
    }
    good := if err == OK then 1 else 0;
  }

  /** inode_get with the blocks below it. */
  method Get(ic: Icore, cache: BlkCache, dev: nat, x: nat) returns (err: Err, i: nat)
    requires ic.Valid() && cache.Valid() && cache.Attached(dev) && x in ic.used && OnBlocks(ic.disk, cache.view, dev)
    modifies ic`refs, ic`answers, ic`misses, ic.table, cache`nind, cache`disk, cache`view, cache.ways
    ensures ic.Valid() && cache.Valid() && SameHolders(old(SlotsOf(cache)), SlotsOf(cache)) && OnBlocks(ic.disk, cache.view, dev)
    ensures cache.view == old(cache.view) && x in old(ic.refs) && err in {OK, ENOMEM}
    ensures err == ENOMEM <==> old(ic.refs)[x] == 0 && (AllTaken(old(ic.table[..])) || old(Denied(cache, Key(dev, x))))
    ensures err == OK ==>
              && i < MAXINODES && Holds(ic.table[..], i, x) && ic.refs == More(old(ic.refs), x)
              && (old(ic.refs)[x] == 0 ==> ic.table[i].d == DnodeOf(cache.view[Key(dev, x)]))
    ensures err != OK ==> ic.refs == old(ic.refs)
    // an inode that is held, or cannot be held, is not read
    ensures x in old(ic.refs) && (old(ic.refs)[x] > 0 || AllTaken(old(ic.table[..]))) ==> unchanged(cache, cache.ways)
  {
    hide BlkCache.Valid, Icore.Valid, More, Follows, StillHeld, SameDirt, Crowded, DnodeOf, Denied, SlotsOf,
         SameHolders, Icore.Buffers;
    SameHoldersSame(SlotsOf(cache));
    ic.HeldIff(x);
    var hit, j := ic.Lookup(x);
    var good := 1;
    if !hit && j < MAXINODES {
      good := Ask(cache, dev, x, true, ZERO_BLOCK);
    }
    ic.Supply([good]);
    err, i := ic.Get(x);
    if err == OK && old(ic.refs)[x] == 0 { ic.Unflagged(i); }
  }

  /** inode_put with the blocks below it; data is the inode as inode_write copies it to its block. A
      change is lost if and only if it is the last reference to an inode with links, the inode is
      flagged, its block is not in the cache, and all four ways of the row are held. */
  method Put(ic: Icore, cache: BlkCache, dev: nat, i: nat, data: Block) returns (err: Err)
    requires ic.Valid() && cache.Valid() && cache.Attached(dev) && OnBlocks(ic.disk, cache.view, dev)
    requires i < MAXINODES && ic.table[i].refcnt > 0 && DnodeOf(data) == ic.table[i].d
    modifies ic, ic.table, ic.dirs, cache`nind, cache`disk, cache`view, cache.ways
    ensures ic.Valid() && cache.Valid() && SameHolders(old(SlotsOf(cache)), SlotsOf(cache)) && OnBlocks(ic.disk, cache.view, dev)
    ensures var s := old(ic.table[i]);
            var lose := s.refcnt == 1 && s.d.nlink > 0 && s.dirty > 0 && old(Denied(cache, Key(dev, s.ino)));
            && s.ino in old(ic.refs) && s.ino in old(ic.disk) && old(ic.refs)[s.ino] > 0
            && (ic.lost <==> old(ic.lost) || lose)
            && ic.nodes == (if lose then old(ic.nodes)[s.ino := old(ic.disk)[s.ino]]
                            else PutNodes(old(ic.nodes), s.d.nlink, old(ic.refs), s.ino))
            && ic.refs == PutRefs(s.d.nlink, old(ic.refs), s.ino)
            && ic.dirs.binds == PutNodes(old(ic.dirs.binds), s.d.nlink, old(ic.refs), s.ino)
  {
    hide BlkCache.Valid, Icore.Valid, Follows, DnodeOf, HeldBut, PutNodes, PutRefs, Denied, SlotsOf, SameHolders,
         Holds;
    SameHoldersSame(SlotsOf(cache));
    ic.Entry(i);
    var s := ic.table[i];
    var good := 1;
    if s.refcnt == 1 && (s.d.nlink == 0 || s.dirty > 0) {
      good := Ask(cache, dev, s.ino, false, data);
    }
    ic.Supply([good]);
    err := ic.Put(i);
  }

  lemma HeldByOthersStill(was: imap<Way, Buf>, now: imap<Way, Buf>, k: Key)
    requires SameHolders(was, now)
    ensures HeldByOthers(was, k) <==> HeldByOthers(now, k)
  {
    assert RowHeld(was, Row(k)) <==> RowHeld(now, Row(k)) by {
      forall h | h in was && h.row == Row(k) ensures was[h].refcnt > 0 <==> now[h].refcnt > 0 { assert h in now; }
    }
    if RowHeld(was, Row(k)) {
      forall h | h in was && h.row == Row(k) ensures was[h].key == now[h].key { assert h in now; }
    }
  }

  lemma SameHoldersBoth(a: imap<Way, Buf>, b: imap<Way, Buf>, c: imap<Way, Buf>)
    requires SameHolders(a, b) && SameHolders(b, c)
    ensures SameHolders(a, c)
  {
  }

  /** Of a list of blocks that many can be had: all before the first whose row is held for others. */
  ghost predicate HadOf(slots: imap<Way, Buf>, dev: nat, blocks: seq<nat>, good: nat) {
    && good <= |blocks| && (forall i :: 0 <= i < good ==> !HeldByOthers(slots, Key(dev, blocks[i])))
    && (good < |blocks| ==> HeldByOthers(slots, Key(dev, blocks[good])))
  }

  /** A scan over blocks, each read and let go of before the next: how many of them can be had. It stops
      at the first whose row was held for other blocks before it. */
  method Scan(cache: BlkCache, dev: nat, blocks: seq<nat>) returns (good: nat)
    requires cache.Valid() && cache.Attached(dev)
    modifies cache`nind, cache`disk, cache`view, cache.ways
    ensures cache.Valid() && SameHolders(old(SlotsOf(cache)), SlotsOf(cache)) && cache.view == old(cache.view)
    ensures HadOf(old(SlotsOf(cache)), dev, blocks, good)
  {
    hide BlkCache.Valid, SlotsOf, SameHolders, HeldByOthers, Denied;
    ghost var was := SlotsOf(cache);
    SameHoldersSame(was);
    good := 0;
    while good < |blocks|
      invariant good <= |blocks| && forall i :: 0 <= i < good ==> !HeldByOthers(was, Key(dev, blocks[i]))
      invariant cache.Valid() && SameHolders(was, SlotsOf(cache)) && cache.view == old(cache.view)
    {
      ghost var mid := SlotsOf(cache);
      DeniedIff(cache, Key(dev, blocks[good]));
      HeldByOthersStill(was, mid, Key(dev, blocks[good]));
      var one := Ask(cache, dev, blocks[good], true, ZERO_BLOCK);
      SameHoldersBoth(was, mid, SlotsOf(cache));
      if one == 0 { return; }
      good := good + 1;
    }
  }

  /** Each number is short exactly where a row was held for other blocks from the start. */
  ghost predicate Served(slots: imap<Way, Buf>, dev: nat, requests: seq<seq<nat>>, answers: seq<nat>) {
    && |answers| == |requests|
    && forall j :: 0 <= j < |answers| ==> HadOf(slots, dev, requests[j], answers[j])
  }

  /** The numbers for requests that come one after the other. */
  method Serve(cache: BlkCache, dev: nat, requests: seq<seq<nat>>) returns (answers: seq<nat>)
    requires cache.Valid() && cache.Attached(dev)
    modifies cache`nind, cache`disk, cache`view, cache.ways
    ensures cache.Valid() && SameHolders(old(SlotsOf(cache)), SlotsOf(cache)) && cache.view == old(cache.view)
    ensures Served(old(SlotsOf(cache)), dev, requests, answers)
  {
    hide BlkCache.Valid, SlotsOf, SameHolders, HeldByOthers;
    ghost var was := SlotsOf(cache);
    SameHoldersSame(was);
    answers := [];
    while |answers| < |requests|
      invariant cache.Valid() && SameHolders(was, SlotsOf(cache)) && cache.view == old(cache.view)
      invariant |answers| <= |requests| && Served(was, dev, requests[..|answers|], answers)
    {
      ghost var mid := SlotsOf(cache);
      var r := requests[|answers|];
      var good := Scan(cache, dev, r);
      HadBefore(was, mid, dev, r, good);
      SameHoldersBoth(was, mid, SlotsOf(cache));
      answers := answers + [good];
    }
    assert requests[..|requests|] == requests;
  }

  lemma HadBefore(was: imap<Way, Buf>, now: imap<Way, Buf>, dev: nat, blocks: seq<nat>, good: nat)
    requires SameHolders(was, now) && HadOf(now, dev, blocks, good)
    ensures HadOf(was, dev, blocks, good)
  {
    hide HeldByOthers, SameHolders;
    forall i | 0 <= i <= good && i < |blocks|
      ensures HeldByOthers(was, Key(dev, blocks[i])) <==> HeldByOthers(now, Key(dev, blocks[i]))
    {
      HeldByOthersStill(was, now, Key(dev, blocks[i]));
    }
  }

  /** With a way to spare in every row each request gets all it needs. */
  lemma ServedInFull(slots: imap<Way, Buf>, dev: nat, requests: seq<seq<nat>>, answers: seq<nat>)
    requires Served(slots, dev, requests, answers) && Spare(slots)
    requires forall j :: 0 <= j < |requests| ==> requests[j] != []
    ensures Ample(answers) && forall j :: 0 <= j < |requests| ==> answers[j] == |requests[j]|
  {
    hide RowHeld;
    forall j | 0 <= j < |requests| ensures answers[j] == |requests[j]| && answers[j] > 0 {
      assert requests[j] != [];
    }
  }

  /** A run of calls whose requests for buffers the cache serves, whichever they are: if no row has all
      its ways held at the start, then no change is lost, so that the graph is in order at the end, or an
      rmdir of ".." or a rename has ended that. */
  method RunServed(n: Names, cache: BlkCache, dev: nat, requests: seq<seq<nat>>, calls: seq<Call>)
    returns (broken: bool, ghost trace: seq<Scene>)
    requires n.Valid() && cache.Valid() && cache.Attached(dev) && Spare(SlotsOf(cache))
    requires forall j :: 0 <= j < |requests| ==> requests[j] != []
    modifies n.ic, n.ic.table, n.ic.dirs, cache`nind, cache`disk, cache`view, cache.ways
    ensures n.Ready() && !n.ic.lost && (broken || n.Valid())
    ensures broken ==> exists k :: 0 <= k < |calls| && MayBreak(calls[k])
    ensures 0 < |trace| <= |calls| + 1 && trace[0].t == old(n.Graph()) && trace[|trace| - 1].t == n.Graph()
    ensures (broken || |trace| == |calls| + 1)
    ensures forall k :: 0 <= k < |trace| - 1 ==> Did(calls[k], trace[k], trace[k + 1], SettingOf(n))
  {
    hide BlkCache.Valid, Icore.Valid, Orderly, SlotsOf, SameHolders, Spare, Follows, Ample, Covered, Did;
    ghost var was := SlotsOf(cache);
    var answers := Serve(cache, dev, requests);
    ServedInFull(was, dev, requests, answers);
    n.ic.Supply(answers);
    ghost var inos;
    var places;
    broken, places, inos, trace := Run(n, calls);
  }
}
