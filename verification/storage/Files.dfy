/** All files of a volume at once: what the operations of kern/fs/alloc.c, bmap.c and rw.c on one
    file mean for the byte strings that the inodes stand for. */
module Files {
  import opened Bytes
  import opened Errors
  import opened Cache
  import opened Holders
  import opened Volume
  import opened FileTree
  import opened Bmap
  import opened Room
  import opened Rw
  import opened Trunc

  /** The block pointers and sizes alloc_inode sets up. */
  function Blank(): Dinode {
    DiskInode(seq(BMAP0_SIZE, _ => 0), seq(BMAP1_SIZE, _ => 0), seq(BMAP2_SIZE, _ => 0), 0, 0)
  }

  ghost predicate InRange(files: map<nat, Dinode>) {
    forall i :: i in files ==> files[i].size <= MAXFSZ
  }

  /** The bytes of every file. */
  ghost function Texts(files: map<nat, Dinode>, st: Store): map<nat, seq<byte>>
    requires InRange(files)
  {
    map i | i in files :: Contents(files[i], st)
  }

  /** Files that read the same byte by byte have the same contents. */
  lemma SameContents(d: Dinode, st: Store, st': Store)
    requires d.size <= MAXFSZ && forall p: nat :: p < MAXFSZ ==> ByteAt(d, st', p) == ByteAt(d, st, p)
    ensures Contents(d, st') == Contents(d, st)
  {
    hide ByteAt;
  }

  /** A file does not notice stores to blocks outside it, nor how those are accounted for. */
  lemma Untouched(d: Dinode, st: Store, used: set<nat>, st': Store, used': set<nat>, at: Layout)
    requires Good(d, st, used, at)
    requires forall b: nat :: b in used && Owns(d, st, b) ==> b in used' && st'.Block(b) == st.Block(b)
    ensures Good(d, st', used', at) && SameTree(d, st, d, st')
    ensures Contents(d, st') == Contents(d, st)
  {
    forall s: Slot | InTree(s) && Ptr(d, st, s) != 0
      ensures st'.Block(Ptr(d, st, s)) == st.Block(Ptr(d, st, s)) && Ptr(d, st, s) in used'
    {
      assert Owns(d, st, Ptr(d, st, s));
    }
    FrameBytes(d, st, st');
    SameContents(d, st, st');
  }

  /** Growing one file, in terms of contents. */
  lemma TextsGrown(files: map<nat, Dinode>, ino: nat, st: Store, used: set<nat>, e: Dinode, st': Store, used': set<nat>,
                   at: Layout)
    requires FilesOk(files, st, used, at) && InRange(files) && ino in files
    requires Good(e, st', used', at) && Grown(files[ino], st, used, e, st', used')
    ensures FilesOk(files[ino := e], st', used', at) && InRange(files[ino := e])
    ensures Texts(files[ino := e], st') == Texts(files, st)[ino := Contents(e, st')]
  {
    hide SameTree, Ptr, SlotOf, Owns, Disjoint, InTree;
    assert e.size <= MAXFSZ;
    hide FilesOk, Good, Grown, ByteAt, Contents;
    VolumeKept(files, ino, st, used, e, st', used', at);
    forall i | i in files && i != ino ensures Contents(files[i], st') == Contents(files[i], st) {
      SameContents(files[i], st, st');
    }
  }

  /** Truncating one file, in terms of contents. */
  lemma TextsTruncated(files: map<nat, Dinode>, ino: nat, st: Store, used: set<nat>, e: Dinode, st': Store,
                       used': set<nat>, at: Layout, err: Err)
    requires FilesOk(files, st, used, at) && InRange(files) && ino in files
    requires Shrunk(files[ino], st, used, st', used', true, err)
    requires (forall r: nat :: r < ROOTS ==> RootPtr(e, r) == 0) && e.size == 0 && e.blocks == 0
    ensures FilesOk(files[ino := e], st', used', at) && InRange(files[ino := e])
    ensures Texts(files[ino := e], st') == Texts(files, st)[ino := []]
  {
    hide FilesOk, Good, Shrunk, ByteAt;
    VolumeKeptByTrunc(files, ino, st, used, e, st', used', at, true, err);
    hide Contents;
    EmptyIsGood(e, st', used', at);
    forall i | i in files && i != ino ensures Contents(files[i], st') == Contents(files[i], st) {
      SameContents(files[i], st, st');
    }
  }

  /** Erasing a free block changes nothing for the files. */
  lemma KeptByErase(files: map<nat, Dinode>, st: Store, used: set<nat>, b: nat, st': Store, at: Layout)
    requires FilesOk(files, st, used, at) && InRange(files) && b !in used
    requires forall c: nat :: c != b ==> st'.Block(c) == st.Block(c)
    ensures FilesOk(files, st', used, at) && Texts(files, st') == Texts(files, st)
  {
    hide Good, Ptr, Owns, Disjoint, SameTree, Contents;
    forall i | i in files
      ensures Good(files[i], st', used, at) && SameTree(files[i], st, files[i], st')
      ensures Contents(files[i], st') == Contents(files[i], st)
    {
      OwnsUsed(files[i], st, used, at);
      Untouched(files[i], st, used, st', used, at);
    }
    forall i, j | i in files && j in files
      ensures !Owns(files[i], st', j) && (i != j ==> Disjoint(files[i], files[j], st'))
    {
      SameTrees(files[i], files[j], st, st');
    }
  }

  /** alloc_inode keeps the volume sound: a free block becomes the inode of an empty file. */
  lemma VolumeKeptByAlloc(files: map<nat, Dinode>, st: Store, used: set<nat>, ino: nat, at: Layout)
    requires FilesOk(files, st, used, at) && InRange(files) && ino !in used
    ensures FilesOk(files[ino := Blank()], st, used + {ino}, at) && InRange(files[ino := Blank()])
    ensures Texts(files[ino := Blank()], st) == Texts(files, st)[ino := []] && ino !in files
  {
    hide Good, Ptr, Owns, Disjoint, SameTree, Contents;
    EmptyIsGood(Blank(), st, used + {ino}, at);
    EmptyIsApart(Blank(), Blank(), st);
    forall i | i in files
      ensures Good(files[i], st, used + {ino}, at) && !Owns(files[i], st, ino)
      ensures Disjoint(files[i], Blank(), st) && Disjoint(Blank(), files[i], st)
    {
      OwnsUsed(files[i], st, used, at);
      Untouched(files[i], st, used, st, used + {ino}, at);
      EmptyIsApart(Blank(), files[i], st);
    }
  }

  /** A sound file owns allocated blocks only. */
  lemma OwnsUsed(d: Dinode, st: Store, used: set<nat>, at: Layout)
    requires Good(d, st, used, at)
    ensures forall b: nat :: Owns(d, st, b) ==> b in used
  {}

  /** One file seen against the store after another inode was freed. */
  lemma OneKeptByFree(f: Dinode, d: Dinode, st: Store, used: set<nat>, ino: nat, st': Store, used': set<nat>,
                      at: Layout, err: Err)
    requires Good(f, st, used, at) && !Owns(f, st, ino) && Disjoint(f, d, st)
    requires Shrunk(d, st, used - {ino}, st', used', false, err)
    ensures Good(f, st', used', at) && SameTree(f, st, f, st')
    ensures Contents(f, st') == Contents(f, st)
  {
    assert f.size <= MAXFSZ;
    hide Good, Ptr, Owns, Disjoint, Shrunk, SameTree, Contents;
    NotOwned(f, st, used, at, ino);
    OtherKeptByTrunc(f, d, st, used - {ino}, st', used', at, false, err);
    SameContents(f, st, st');
  }

  /** free_inode keeps the volume sound: the block of the inode goes, and the blocks of its file. */
  lemma VolumeKeptByFree(files: map<nat, Dinode>, ino: nat, st: Store, used: set<nat>, st': Store, used': set<nat>,
                         at: Layout, err: Err)
    requires FilesOk(files, st, used, at) && InRange(files) && ino in files
    requires Shrunk(files[ino], st, used - {ino}, st', used', false, err)
    ensures FilesOk(files - {ino}, st', used', at)
    ensures Texts(files - {ino}, st') == Texts(files, st) - {ino}
  {
    hide Good, Ptr, Owns, Disjoint, Shrunk, SameTree, Contents;
    var d := files[ino];
    forall i | i in files && i != ino
      ensures Good(files[i], st', used', at) && i in used' && Contents(files[i], st') == Contents(files[i], st)
      ensures forall j :: j in files && j != ino ==> !Owns(files[i], st', j) && (i != j ==> Disjoint(files[i], files[j], st'))
    {
      OneKeptByFree(files[i], d, st, used, ino, st', used', at, err);
      NotShrunk(d, st, used - {ino}, st', used', false, err, i);
      forall j | j in files && j != ino ensures !Owns(files[i], st', j) && (i != j ==> Disjoint(files[i], files[j], st')) {
        OneKeptByFree(files[j], d, st, used, ino, st', used', at, err);
        SameTrees(files[i], files[j], st, st');
      }
    }
  }

  /** A sound file stays sound when a block that is not its own is given up. */
  lemma NotOwned(f: Dinode, st: Store, used: set<nat>, at: Layout, b: nat)
    requires Good(f, st, used, at) && !Owns(f, st, b)
    ensures Good(f, st, used - {b}, at)
  {
    forall s: Slot | InTree(s) && Ptr(f, st, s) != 0 ensures Ptr(f, st, s) != b {
      assert Owns(f, st, Ptr(f, st, s));
    }
  }

  /** What a sound volume says of one of its files. */
  lemma OneFile(files: map<nat, Dinode>, ino: nat, st: Store, used: set<nat>, at: Layout)
    requires FilesOk(files, st, used, at) && ino in files
    ensures Good(files[ino], st, used, at) && ino in used && files[ino].size <= MAXFSZ
    ensures Good(files[ino], st, used - {ino}, at)
  {
    assert !Owns(files[ino], st, ino);
    NotOwned(files[ino], st, used, at, ino);
  }

  /** A mounted volume and its files, by inode number. */
  class Files {
    const vol: Volume
    var files: map<nat, Dinode>

    ghost function St(): Store
      reads vol.cache`view
    {
      StoreOf(vol)
    }

    ghost predicate Valid()
      reads this, Below(vol)
    {
      vol.Valid() && InRange(files) && FilesOk(files, St(), vol.used, vol.at)
    }

    /** What the volume stands for: a byte string for each inode number in use. */
    ghost function Text(): map<nat, seq<byte>>
      requires Valid()
      reads this, Below(vol)
    {
      Texts(files, St())
    }

    /** A freshly made volume. */
    constructor (v: Volume)
      requires v.Valid()
      ensures Valid() && vol == v && Text() == map[]
    {
      vol, files := v, map[];
    }

    /** alloc_inode. granted says whether inode_get finds a place for the new inode. */
    method Alloc(granted: bool) returns (err: Err, ino: nat)
      requires Valid()
      modifies this, Below(vol)
      ensures Valid() && err in {OK, EROFS, ENOSPC, ENOMEM}
      ensures err == OK || vol.Because(err) || (err == ENOMEM && !granted)
      ensures if err == OK then granted && vol.used == old(vol.used) + {ino} else vol.used == old(vol.used)
      ensures err == OK ==> ino !in old(files) && vol.at.InData(ino) && Text() == old(Text())[ino := []]
      ensures err != OK ==> Text() == old(Text()) && files == old(files)
      ensures old(vol.Exact()) ==> vol.Exact()
    {
      hide BlkCache.Valid, Volume.Because, Roomy, SlotsOf, MapRoots, Missing, Layout.Room, Volume.Shaped, Volume.Sound,
           Volume.Exact, Texts, FilesOk;
      ino := 0;
      var b;
      err, b := vol.Alloc();
      if err != OK { return; }
      KeptByErase(files, old(St()), old(vol.used), b, St(), vol.at);
      if !granted {
        Returned(b);
        return ENOMEM, 0;
      }
      ino := b;
      VolumeKeptByAlloc(files, St(), old(vol.used), ino, vol.at);
      files := files[ino := Blank()];
    }

    /** The block of an inode that found no place goes back. */
    method Returned(b: nat)
      requires vol.Valid() && InRange(files) && b in vol.used && vol.at.InData(b)
      requires FilesOk(files, St(), vol.used - {b}, vol.at)
      modifies this, Below(vol)
      ensures Valid() && files == old(files) && St() == old(St()) && vol.used == old(vol.used) - {b}
      ensures old(vol.Exact()) ==> vol.Exact()
    {
      vol.Release(b);
    }

    /** free_inode. When a map block cannot be read, blocks of the file stay allocated. */
    method Free(ino: nat) returns (err: Err)
      requires Valid() && ino in files
      modifies this, Below(vol)
      ensures Valid() && err in {OK, ENOMEM} && (err == OK || vol.Because(err))
      ensures Text() == old(Text()) - {ino}
      ensures old(vol.Exact()) ==> vol.Exact()
    {
      hide BlkCache.Valid, Volume.Because, Roomy, SlotsOf, MapRoots, Missing, Layout.Room, Volume.Shaped, Volume.Exact,
           FilesOk, Texts, Contents, Shrunk, Ptr, Good;
      OneFile(files, ino, St(), vol.used, vol.at);
      var f := new Inode(vol, ino, files[ino]);
      vol.Release(ino);
      err := Trunc.Trunc(f, false);
      VolumeKeptByFree(files, ino, old(St()), old(vol.used), St(), vol.used, vol.at, err);
      files := files - {ino};
    }

    /** A write of src at start: the file becomes the splice, and no other file changes. */
    method Write(ino: nat, start: nat, src: seq<byte>, fslimit: nat) returns (err: Err, ghost done: nat)
      requires Valid() && ino in files
      requires fslimit <= BMAP_LOW || start + |src| <= BMAP_LOW * BLK_SIZE
      modifies this, Below(vol)
      ensures Valid() && err in {OK, EFBIG, EROFS, ENOSPC, ENOMEM}
      ensures err == EFBIG <==> start + |src| > fslimit * BLK_SIZE || start + |src| > MAXFSZ
      ensures err == EFBIG ==> Text() == old(Text())
      ensures done <= |src| && files.Keys == old(files.Keys)
      // it fails only for its cause, and for want of blocks only if there are fewer than the range needs
      ensures err in {OK, EFBIG} || vol.Because(err)
      ensures vol.ro == old(vol.ro)
      ensures err == OK ==>
                |vol.at.Room(vol.used)| + old(|Missing(files[ino], St(), start, start + |src|)|) == old(|vol.at.Room(vol.used)|)
      ensures err == ENOSPC ==>
                old(|vol.at.Room(vol.used)|) < old(|Missing(files[ino], St(), start, start + |src|)|)
      ensures Roomy(old(SlotsOf(vol.cache)), |MapRoots(start, start + |src|)|) && !vol.ro && err != EFBIG ==>
                (err == OK <==>
                 old(|Missing(files[ino], St(), start, start + |src|)|) <= old(|vol.at.Room(vol.used)|))
      ensures err == OK ==> Text() == old(Text())[ino := Splice(old(Text())[ino], start, src)]
      ensures err !in {OK, EFBIG} ==>
        Text() == old(Text())[ino := Extended(Splice(old(Text())[ino], start, src[..done]), start + |src|)]
      ensures old(vol.Exact()) ==> vol.Exact()
    {
      hide BlkCache.Valid, Volume.Because, Roomy, SlotsOf, MapRoots, Missing, Layout.Room, Volume.Shaped, Volume.Sound,
           Volume.Exact, FilesOk, Grown, Rw.Wrote, Contents, Splice,
           Extended, Ptr, Good;
      OneFile(files, ino, St(), vol.used, vol.at);
      var f := new Inode(vol, ino, files[ino]);
      var next;
      err, next, done := RegWrite(f, start, src, fslimit);
      if err == EFBIG { return; }
      TextsGrown(files, ino, old(St()), old(vol.used), f.d, St(), vol.used, vol.at);
      files := files[ino := f.d];
    }

    /** A read of count bytes at start. */
    method Read(ino: nat, start: nat, count: nat) returns (err: Err, out: seq<byte>)
      requires Valid() && ino in files
      requires Min(start + count, files[ino].size) <= BMAP_LOW * BLK_SIZE
      modifies Below(vol)
      ensures Valid() && Text() == old(Text()) && err in {OK, ENOMEM} && (err == OK || vol.Because(err))
      ensures start + count <= BMAP_LOW * BLK_SIZE && Roomy(old(SlotsOf(vol.cache)), |MapRoots(start, start + count)|) ==>
                err == OK
      ensures err == OK ==> var t := old(Text())[ino];
        out == if start > |t| then [] else t[start..Min(start + count, |t|)]
    {
      hide BlkCache.Valid, Volume.Because, Roomy, SlotsOf, MapRoots, Missing, Layout.Room, Volume.Shaped, Volume.Sound,
           Volume.Exact, FilesOk, Ptr, Good;
      OneFile(files, ino, St(), vol.used, vol.at);
      var f := new Inode(vol, ino, files[ino]);
      var next;
      err, out, next := RegRead(f, start, count);
    }

    /** trunc, as open with O_TRUNC calls it. */
    method Truncate(ino: nat) returns (err: Err)
      requires Valid() && ino in files
      modifies this, Below(vol)
      ensures Valid() && err in {OK, ENOMEM} && (err == OK || vol.Because(err))
      ensures Text() == old(Text())[ino := []] && files.Keys == old(files.Keys)
      ensures old(vol.Exact()) ==> vol.Exact()
    {
      hide BlkCache.Valid, Volume.Because, Roomy, SlotsOf, MapRoots, Missing, Layout.Room, Volume.Shaped, Volume.Exact,
           FilesOk, Texts, Contents, Shrunk, Ptr, Good;
      OneFile(files, ino, St(), vol.used, vol.at);
      var f := new Inode(vol, ino, files[ino]);
      err := Trunc.Trunc(f, true);
      TextsTruncated(files, ino, old(St()), old(vol.used), f.d, St(), vol.used, vol.at, err);
      files := files[ino := f.d];
    }

    /** What is written is read back, and no other file changes. */
    method WriteRead(ino: nat, start: nat, src: seq<byte>, fslimit: nat) returns (err: Err, err': Err, out: seq<byte>)
      requires Valid() && ino in files && start + |src| <= BMAP_LOW * BLK_SIZE
      modifies this, Below(vol)
      ensures Valid()
      ensures err == OK ==> Text() == old(Text())[ino := Splice(old(Text())[ino], start, src)]
      ensures err == OK && err' == OK ==> out == src
    {
      hide BlkCache.Valid, Volume.Because, Roomy, SlotsOf, MapRoots, Missing, Layout.Room, Volume.Shaped, Volume.Sound,
           Volume.Exact, FilesOk, Ptr, Contents, Good;
      ghost var done;
      err, done := Write(ino, start, src, fslimit);
      err', out := OK, [];
      if err == OK {
        err', out := Read(ino, start, |src|);
      }
    }
  }
}
