/** The block tree of a file as a value: what the pointer arrays of an inode and the
    map blocks on the device say together, and how that changes with one store. */
module FileTree {
  import opened Bytes
  import opened Cache
  import opened Volume

  const BMAP0_SIZE := 64
  const BMAP1_SIZE := 32
  const BMAP2_SIZE := 25
  /** First file block beyond the direct and single-indirect ranges. */
  const BMAP_LOW := BMAP0_SIZE + BMAP1_SIZE * WORDS
  /** First file block beyond the double-indirect range. */
  const BMAP_END := BMAP_LOW + BMAP2_SIZE * WORDS * WORDS
  const MAXFSZ := BMAP_END * BLK_SIZE

  const ROOT1 := BMAP0_SIZE
  const ROOT2 := BMAP0_SIZE + BMAP1_SIZE
  const ROOTS := BMAP0_SIZE + BMAP1_SIZE + BMAP2_SIZE

  /** The fields of struct disk_inode that the modelled code reads or writes. */
  datatype DiskInode = DiskInode(bmap0: seq<u32>, bmap1: seq<u32>, bmap2: seq<u32>, size: nat, blocks: nat)

  type Dinode = d: DiskInode | |d.bmap0| == BMAP0_SIZE && |d.bmap1| == BMAP1_SIZE && |d.bmap2| == BMAP2_SIZE
    witness DiskInode(seq(BMAP0_SIZE, _ => 0), seq(BMAP1_SIZE, _ => 0), seq(BMAP2_SIZE, _ => 0), 0, 0)

  /** A place a block pointer is stored: in the inode, in a map block named by the inode,
      or in a map block named by such a map block. Roots are numbered through the three arrays. */
  datatype Slot = Root(r: nat) | Mid(r: nat, j: nat) | Leaf(r: nat, j: nat, k: nat)

  predicate InTree(s: Slot) {
    match s
    case Root(r) => r < ROOTS
    case Mid(r, j) => ROOT1 <= r < ROOTS && j < WORDS
    case Leaf(r, j, k) => ROOT2 <= r < ROOTS && j < WORDS && k < WORDS
  }

  /** The slot that should name the data block of file block bn. */
  function SlotOf(bn: nat): (s: Slot)
    requires bn < BMAP_END
    ensures InTree(s)
  {
    if bn < BMAP0_SIZE then Root(bn)
    else if bn < BMAP_LOW then Mid(ROOT1 + (bn - BMAP0_SIZE) / WORDS, (bn - BMAP0_SIZE) % WORDS)
    else Leaf(ROOT2 + (bn - BMAP_LOW) / WORDS / WORDS, (bn - BMAP_LOW) / WORDS % WORDS, (bn - BMAP_LOW) % WORDS)
  }

  lemma SlotOfInjective(bn: nat, cn: nat)
    requires bn < BMAP_END && cn < BMAP_END && SlotOf(bn) == SlotOf(cn)
    ensures bn == cn
  {}

  /** A slot that names a map block rather than a data block. */
  predicate IsMap(s: Slot) {
    match s
    case Root(r) => r >= ROOT1
    case Mid(r, _) => r >= ROOT2
    case Leaf(_, _, _) => false
  }

  lemma SlotOfIsData(bn: nat)
    requires bn < BMAP_END
    ensures !IsMap(SlotOf(bn))
  {}

  /** The file block that a slot which names data is for: the slots of the inode first, then those of the map
      blocks in the order of the slots that name them. */
  function BlockOf(s: Slot): (bn: int)
    requires InTree(s) && !IsMap(s)
  {
    match s
    case Root(r) => r
    case Mid(r, j) => ROOT1 + WORDS * (r - ROOT1) + j
    case Leaf(r, j, k) => BMAP_LOW + WORDS * WORDS * (r - ROOT2) + WORDS * j + k
  }

  /** Slots that name data and file blocks correspond one to one. */
  lemma BlockOfSlot(bn: nat, s: Slot)
    requires bn < BMAP_END && InTree(s) && !IsMap(s)
    ensures !IsMap(SlotOf(bn)) && BlockOf(SlotOf(bn)) == bn
    ensures 0 <= BlockOf(s) < BMAP_END && SlotOf(BlockOf(s)) == s
  {
  }

  /** The blocks of one device as readers see them. */
  datatype Store = Store(dev: nat, v: View) {
    function Block(b: nat): Block { v[Key(dev, b)] }

    ghost function Put(b: nat, data: Block): Store { Store(dev, v[Key(dev, b) := data]) }
  }

  function RootPtr(d: Dinode, r: nat): u32
    requires r < ROOTS
  {
    if r < ROOT1 then d.bmap0[r] else if r < ROOT2 then d.bmap1[r - ROOT1] else d.bmap2[r - ROOT2]
  }

  /** The inode after storing b in root slot r. */
  function SetRoot(d: Dinode, r: nat, b: u32): Dinode
    requires r < ROOTS
  {
    if r < ROOT1 then d.(bmap0 := d.bmap0[r := b])
    else if r < ROOT2 then d.(bmap1 := d.bmap1[r - ROOT1 := b])
    else d.(bmap2 := d.bmap2[r - ROOT2 := b])
  }

  /** Word j of map block m, or 0 when there is no map block. */
  ghost function Entry(st: Store, m: u32, j: nat): u32
    requires j < WORDS
  {
    if m == 0 then 0 else Word(st.Block(m), j)
  }

  /** The block number stored in a slot, or 0. */
  ghost function Ptr(d: Dinode, st: Store, s: Slot): u32
    requires InTree(s)
  {
    match s
    case Root(r) => RootPtr(d, r)
    case Mid(r, j) => Entry(st, RootPtr(d, r), j)
    case Leaf(r, j, k) => Entry(st, Entry(st, RootPtr(d, r), j), k)
  }

  /** Byte p of the file, with holes read as zeros. */
  ghost function ByteAt(d: Dinode, st: Store, p: nat): byte
    requires p < MAXFSZ
  {
    var b := Ptr(d, st, SlotOf(p / BLK_SIZE));
    if b == 0 then 0 else st.Block(b)[p % BLK_SIZE]
  }

  ghost function Contents(d: Dinode, st: Store): seq<byte>
    requires d.size <= MAXFSZ
  {
    seq(d.size, p requires 0 <= p < d.size => ByteAt(d, st, p))
  }

  ghost function AllSlots(): set<Slot> {
    (set r: nat | r < ROOTS :: Root(r)) +
    (set r: nat, j: nat | ROOT1 <= r < ROOTS && j < WORDS :: Mid(r, j)) +
    (set r: nat, j: nat, k: nat | ROOT2 <= r < ROOTS && j < WORDS && k < WORDS :: Leaf(r, j, k))
  }

  lemma AllSlotsAre(s: Slot)
    ensures s in AllSlots() <==> InTree(s)
  {
    match s {
      case Root(r) =>
      case Mid(r, j) =>
      case Leaf(r, j, k) =>
    }
  }

  /** The slots in use. */
  ghost function Mapped(d: Dinode, st: Store): set<Slot> {
    set s | s in AllSlots() && Ptr(d, st, s) != 0
  }

  /** b is a data or map block of the file. */
  ghost predicate Owns(d: Dinode, st: Store, b: nat) {
    exists s: Slot :: InTree(s) && Ptr(d, st, s) == b != 0
  }

  /** Every block of the tree is an allocated data-area block. */
  ghost predicate Allocated(d: Dinode, st: Store, used: set<nat>, at: Layout) {
    forall s: Slot :: InTree(s) && Ptr(d, st, s) != 0 ==> at.InData(Ptr(d, st, s)) && Ptr(d, st, s) in used
  }

  /** No block is named twice. */
  ghost predicate Unshared(d: Dinode, st: Store) {
    forall s: Slot, t: Slot :: InTree(s) && InTree(t) && s != t && Ptr(d, st, s) != 0 ==> Ptr(d, st, s) != Ptr(d, st, t)
  }

  /** d.blocks is the number of blocks in the tree, as a 16-bit count. */
  ghost predicate Counted(d: Dinode, st: Store) {
    d.blocks == |Mapped(d, st)| % 0x1_0000
  }

  /** Nothing but zeros is stored beyond the end of the file. */
  ghost predicate ZeroTail(d: Dinode, st: Store) {
    d.size <= MAXFSZ && forall p: nat :: d.size <= p < MAXFSZ ==> ByteAt(d, st, p) == 0
  }

  /** Two files have no block in common. */
  ghost predicate Disjoint(d: Dinode, e: Dinode, st: Store) {
    forall s: Slot, t: Slot :: InTree(s) && InTree(t) && Ptr(d, st, s) != 0 ==> Ptr(d, st, s) != Ptr(e, st, t)
  }

  ghost predicate Good(d: Dinode, st: Store, used: set<nat>, at: Layout) {
    Allocated(d, st, used, at) && Unshared(d, st) && Counted(d, st) && ZeroTail(d, st)
  }

  /** The slots of e over st' hold what the slots of d over st hold, but for slot s, which holds b. */
  ghost predicate Installed(d: Dinode, st: Store, e: Dinode, st': Store, s: Slot, b: u32) {
    forall t: Slot :: InTree(t) ==> Ptr(e, st', t) == if t == s then b else Ptr(d, st, t)
  }

  /** The two trees name the same blocks. */
  ghost predicate SameTree(d: Dinode, st: Store, e: Dinode, st': Store) {
    forall t: Slot :: InTree(t) ==> Ptr(e, st', t) == Ptr(d, st, t)
  }

  lemma FrameTree(d: Dinode, st: Store, st': Store)
    requires forall s: Slot :: InTree(s) && Ptr(d, st, s) != 0 && IsMap(s) ==> st'.Block(Ptr(d, st, s)) == st.Block(Ptr(d, st, s))
    ensures SameTree(d, st, d, st')
  {
    forall t: Slot | InTree(t) ensures Ptr(d, st', t) == Ptr(d, st, t) {
      match t {
        case Root(r) =>
        case Mid(r, j) => assert Ptr(d, st, Root(r)) == RootPtr(d, r);
        case Leaf(r, j, k) =>
          assert Ptr(d, st, Root(r)) == RootPtr(d, r);
          assert Ptr(d, st', Mid(r, j)) == Ptr(d, st, Mid(r, j));
      }
    }
  }

  /** A block that is not part of the file can change at will. */
  lemma FrameBytes(d: Dinode, st: Store, st': Store)
    requires forall s: Slot :: InTree(s) && Ptr(d, st, s) != 0 ==> st'.Block(Ptr(d, st, s)) == st.Block(Ptr(d, st, s))
    ensures SameTree(d, st, d, st')
    ensures Mapped(d, st') == Mapped(d, st)
    ensures forall p: nat :: p < MAXFSZ ==> ByteAt(d, st', p) == ByteAt(d, st, p)
  {
    FrameTree(d, st, st');
  }

  /** A pointer to a zeroed block outside the tree goes into an empty root slot. */
  lemma InstallRoot(d: Dinode, st: Store, r: nat, b: u32)
    requires r < ROOTS && RootPtr(d, r) == 0 && st.Block(b) == ZERO_BLOCK
    ensures Installed(d, st, SetRoot(d, r, b), st, Root(r), b)
  {
    hide Word;
    var e := SetRoot(d, r, b);
    forall t: Slot | InTree(t) ensures Ptr(e, st, t) == if t == Root(r) then b else Ptr(d, st, t) {
      if t.Mid? && t.r == r {
        WordOfZero(t.j);
      } else if t.Leaf? && t.r == r {
        WordOfZero(t.j);
        assert Ptr(e, st, Mid(r, t.j)) == 0;
      }
    }
  }

  /** A pointer goes into an empty word of a single-indirect map block. */
  lemma InstallMid(d: Dinode, st: Store, r: nat, j: nat, b: u32)
    requires Unshared(d, st)
    requires ROOT1 <= r < ROOT2 && j < WORDS && RootPtr(d, r) != 0 && Ptr(d, st, Mid(r, j)) == 0
    ensures Installed(d, st, d, st.Put(RootPtr(d, r), PutWord(st.Block(RootPtr(d, r)), j, b)), Mid(r, j), b)
  {
    var m := RootPtr(d, r);
    var st' := st.Put(m, PutWord(st.Block(m), j, b));
    assert Ptr(d, st, Root(r)) == m;
    forall t: Slot | InTree(t) ensures Ptr(d, st', t) == if t == Mid(r, j) then b else Ptr(d, st, t) {
      match t {
        case Root(_) =>
        case Mid(q, i) =>
          assert Ptr(d, st, Root(q)) == RootPtr(d, q);
          if q == r { WordPutWord(st.Block(m), j, b, i); }
        case Leaf(q, i, k) =>
          assert Ptr(d, st, Root(q)) == RootPtr(d, q);
          assert Ptr(d, st', Mid(q, i)) == Ptr(d, st, Mid(q, i));
      }
    }
  }

  /** What growing one file does to the device: the file keeps the blocks it has, all other
      blocks it takes were free, what is taken is the file's, and no block that belonged to anyone
      else is changed. */
  ghost predicate Grown(d: Dinode, st: Store, used: set<nat>, e: Dinode, st': Store, used': set<nat>) {
    && st'.dev == st.dev
    && used <= used'
    && (forall b: nat :: b in used' && b !in used ==> Owns(e, st', b))
    && (forall t: Slot :: InTree(t) && Ptr(d, st, t) != 0 ==> Ptr(e, st', t) == Ptr(d, st, t))
    && (forall t: Slot :: InTree(t) && Ptr(e, st', t) != Ptr(d, st, t) ==> Ptr(e, st', t) !in used)
    && (forall b: nat :: b in used && !Owns(d, st, b) ==> st'.Block(b) == st.Block(b))
    && (forall k: Key :: k.dev != st.dev ==> st'.v[k] == st.v[k])
  }

  lemma GrownReflexive(d: Dinode, st: Store, used: set<nat>)
    ensures Grown(d, st, used, d, st, used)
  {}

  lemma GrownTransitive(d: Dinode, st: Store, used: set<nat>, e: Dinode, st': Store, used': set<nat>,
                        f: Dinode, st'': Store, used'': set<nat>)
    requires Grown(d, st, used, e, st', used') && Grown(e, st', used', f, st'', used'')
    ensures Grown(d, st, used, f, st'', used'')
  {
    forall b: nat | b in used && !Owns(d, st, b) ensures st''.Block(b) == st.Block(b) {
      assert !Owns(e, st', b);
    }
  }

  /** A file that shares no block with the growing one keeps its tree and its bytes. */
  lemma OtherFileKept(f: Dinode, d: Dinode, st: Store, used: set<nat>, e: Dinode, st': Store, used': set<nat>,
                      at: Layout)
    requires Good(f, st, used, at) && Disjoint(f, d, st) && Grown(d, st, used, e, st', used')
    ensures Good(f, st', used', at) && Disjoint(f, e, st') && SameTree(f, st, f, st')
    ensures forall p: nat :: p < MAXFSZ ==> ByteAt(f, st', p) == ByteAt(f, st, p)
  {
    forall s: Slot | InTree(s) && Ptr(f, st, s) != 0 ensures st'.Block(Ptr(f, st, s)) == st.Block(Ptr(f, st, s)) {
      assert !Owns(d, st, Ptr(f, st, s));
    }
    FrameBytes(f, st, st');
  }

  lemma BytesInstalled(d: Dinode, st: Store, e: Dinode, st': Store, s: Slot, b: u32)
    requires InTree(s) && Ptr(d, st, s) == 0 && st'.Block(b) == ZERO_BLOCK && Installed(d, st, e, st', s, b)
    requires forall t: Slot :: InTree(t) && !IsMap(t) && Ptr(d, st, t) != 0 ==> st'.Block(Ptr(d, st, t)) == st.Block(Ptr(d, st, t))
    ensures forall p: nat :: p < MAXFSZ ==> ByteAt(e, st', p) == ByteAt(d, st, p)
  {
    forall p: nat | p < MAXFSZ ensures ByteAt(e, st', p) == ByteAt(d, st, p) {
      SlotOfIsData(p / BLK_SIZE);
    }
  }

  lemma CountInstalled(d: Dinode, st: Store, e: Dinode, st': Store, s: Slot, b: u32)
    requires InTree(s) && Ptr(d, st, s) == 0 && b != 0 && Installed(d, st, e, st', s, b)
    ensures |Mapped(e, st')| == |Mapped(d, st)| + 1
  {
    AllSlotsAre(s);
    assert Mapped(e, st') == Mapped(d, st) + {s} by {
      forall t: Slot ensures t in Mapped(e, st') <==> t in Mapped(d, st) + {s} {
        AllSlotsAre(t);
      }
    }
  }

  /** One more zeroed block in the tree: the file stays sound and reads as before. */
  lemma GoodInstalled(d: Dinode, st: Store, used: set<nat>, at: Layout, e: Dinode, st': Store, s: Slot, b: u32)
    requires Good(d, st, used, at) && InTree(s) && Ptr(d, st, s) == 0
    requires at.Sane() && at.InData(b) && b !in used && st'.Block(b) == ZERO_BLOCK
    requires Installed(d, st, e, st', s, b) && e.size == d.size && e.blocks == (d.blocks + 1) % 0x1_0000
    requires forall t: Slot :: InTree(t) && !IsMap(t) && Ptr(d, st, t) != 0 ==> st'.Block(Ptr(d, st, t)) == st.Block(Ptr(d, st, t))
    ensures Good(e, st', used + {b}, at)
    ensures forall p: nat :: p < MAXFSZ ==> ByteAt(e, st', p) == ByteAt(d, st, p)
  {
    hide ByteAt, Mapped, Ptr;
    BytesInstalled(d, st, e, st', s, b);
    CountInstalled(d, st, e, st', s, b);
  }

  /** bmap6 fills an empty root slot with a block just taken from the free map. */
  lemma RootStep(d: Dinode, st: Store, used: set<nat>, at: Layout, r: nat, b: u32)
    requires Good(d, st, used, at) && r < ROOTS && RootPtr(d, r) == 0
    requires at.Sane() && at.InData(b) && b !in used
    ensures var e := SetRoot(d, r, b).(blocks := (d.blocks + 1) % 0x1_0000);
            var st' := st.Put(b, ZERO_BLOCK);
            && Good(e, st', used + {b}, at)
            && Grown(d, st, used, e, st', used + {b})
            && Installed(d, st, e, st', Root(r), b) && Ptr(e, st', Root(r)) == b
            && (forall p: nat :: p < MAXFSZ ==> ByteAt(e, st', p) == ByteAt(d, st, p))
  {
    var e := SetRoot(d, r, b).(blocks := (d.blocks + 1) % 0x1_0000);
    var st' := st.Put(b, ZERO_BLOCK);
    FrameBytes(d, st, st');
    InstallRoot(d, st', r, b);
    SameButCount(SetRoot(d, r, b), e, st');
    assert Ptr(d, st, Root(r)) == 0;
    GoodInstalled(d, st, used, at, e, st', Root(r), b);
  }

  /** The tree does not depend on the size or the block count. */
  lemma SameButCount(d: Dinode, e: Dinode, st: Store)
    requires d.bmap0 == e.bmap0 && d.bmap1 == e.bmap1 && d.bmap2 == e.bmap2
    ensures SameTree(d, st, e, st) && Mapped(d, st) == Mapped(e, st)
    ensures forall p: nat :: p < MAXFSZ ==> ByteAt(e, st, p) == ByteAt(d, st, p)
  {}

  /** bmindir fills an empty word of a map block with a block just taken from the free map. */
  lemma MidStep(d: Dinode, st: Store, used: set<nat>, at: Layout, r: nat, j: nat, b: u32)
    requires Good(d, st, used, at) && ROOT1 <= r < ROOT2 && j < WORDS
    requires RootPtr(d, r) != 0 && Ptr(d, st, Mid(r, j)) == 0
    requires at.Sane() && at.InData(b) && b !in used
    ensures var m := RootPtr(d, r);
            var e := d.(blocks := (d.blocks + 1) % 0x1_0000);
            var st' := st.Put(b, ZERO_BLOCK).Put(m, PutWord(st.Block(m), j, b));
            && Good(e, st', used + {b}, at)
            && Grown(d, st, used, e, st', used + {b})
            && Installed(d, st, e, st', Mid(r, j), b) && Ptr(e, st', Mid(r, j)) == b
            && (forall p: nat :: p < MAXFSZ ==> ByteAt(e, st', p) == ByteAt(d, st, p))
  {
    var m := RootPtr(d, r);
    var e := d.(blocks := (d.blocks + 1) % 0x1_0000);
    var st0 := st.Put(b, ZERO_BLOCK);
    var st' := st0.Put(m, PutWord(st.Block(m), j, b));
    assert Ptr(d, st, Root(r)) == m;
    FrameBytes(d, st, st0);
    InstallMid(d, st0, r, j, b);
    SameButCount(d, e, st');
    GoodInstalled(d, st, used, at, e, st', Mid(r, j), b);
    assert Owns(d, st, m);
  }

  /** A store of part of one data block is seen in just those bytes of the file. */
  lemma PatchBytes(d: Dinode, st: Store, st': Store, bn: nat, start: nat, src: seq<byte>)
    requires Unshared(d, st) && SameTree(d, st, d, st') && bn < BMAP_END && Ptr(d, st, SlotOf(bn)) != 0
    requires start + |src| <= BLK_SIZE
    requires var b := Ptr(d, st, SlotOf(bn)); st' == st.Put(b, Patch(st.Block(b), start, src))
    ensures var lo := bn * BLK_SIZE + start;
            forall p: nat :: p < MAXFSZ ==> ByteAt(d, st', p) == if lo <= p < lo + |src| then src[p - lo] else ByteAt(d, st, p)
  {
    hide Ptr;
    var lo := bn * BLK_SIZE + start;
    forall p: nat | p < MAXFSZ
      ensures ByteAt(d, st', p) == if lo <= p < lo + |src| then src[p - lo] else ByteAt(d, st, p)
    {
      var q := p / BLK_SIZE;
      if q != bn && SlotOf(q) == SlotOf(bn) {
        SlotOfInjective(q, bn);
      }
    }
  }

  /** Writing part of one data block of a sound file leaves it sound. */
  lemma DataStep(d: Dinode, st: Store, used: set<nat>, at: Layout, bn: nat, start: nat, src: seq<byte>)
    requires Good(d, st, used, at) && bn < BMAP_END && Ptr(d, st, SlotOf(bn)) != 0
    requires start + |src| <= BLK_SIZE && bn * BLK_SIZE + start + |src| <= d.size
    ensures var b := Ptr(d, st, SlotOf(bn));
            var st' := st.Put(b, Patch(st.Block(b), start, src));
            var lo := bn * BLK_SIZE + start;
            && Good(d, st', used, at)
            && Grown(d, st, used, d, st', used)
            && SameTree(d, st, d, st')
            && (forall p: nat :: p < MAXFSZ ==> ByteAt(d, st', p) == if lo <= p < lo + |src| then src[p - lo] else ByteAt(d, st, p))
  {
    var b := Ptr(d, st, SlotOf(bn));
    var st' := st.Put(b, Patch(st.Block(b), start, src));
    SlotOfIsData(bn);
    assert Owns(d, st, b);
    assert SameTree(d, st, d, st') by { FrameTree(d, st, st'); }
    assert Mapped(d, st') == Mapped(d, st);
    hide Ptr;
    hide SlotOf;
    PatchBytes(d, st, st', bn, start, src);
    hide ByteAt;
  }

  /** Setting a larger size alone adds a hole. */
  lemma SizeStep(d: Dinode, st: Store, used: set<nat>, at: Layout, size: nat)
    requires Good(d, st, used, at) && d.size <= size <= MAXFSZ
    ensures var e := d.(size := size);
            && Good(e, st, used, at)
            && Grown(d, st, used, e, st, used)
            && SameTree(d, st, e, st)
            && (forall p: nat :: p < MAXFSZ ==> ByteAt(e, st, p) == ByteAt(d, st, p))
  {
    SameButCount(d, d.(size := size), st);
  }

  /** All files of a volume, by inode number: each is sound, no two share a block, and the blocks
      that hold the inodes are allocated and belong to no file. */
  ghost predicate FilesOk(files: map<nat, Dinode>, st: Store, used: set<nat>, at: Layout) {
    && (forall i :: i in files ==> i in used && Good(files[i], st, used, at))
    && (forall i, j :: i in files && j in files && i != j ==> Disjoint(files[i], files[j], st))
    && (forall i, j :: i in files && j in files ==> !Owns(files[i], st, j))
  }

  lemma DisjointSymmetric(d: Dinode, e: Dinode, st: Store)
    requires Disjoint(d, e, st)
    ensures Disjoint(e, d, st)
  {}

  /** Files whose trees are the same own the same blocks, before and after. */
  lemma SameTrees(f: Dinode, g: Dinode, st: Store, st': Store)
    requires SameTree(f, st, f, st') && SameTree(g, st, g, st')
    ensures Disjoint(f, g, st) ==> Disjoint(f, g, st')
    ensures forall b: nat :: Owns(f, st', b) <==> Owns(f, st, b)
  {}

  /** A file does not grow into a block that was in use elsewhere. */
  lemma NotGrownInto(d: Dinode, st: Store, used: set<nat>, e: Dinode, st': Store, used': set<nat>, b: nat)
    requires Grown(d, st, used, e, st', used') && b in used && !Owns(d, st, b)
    ensures !Owns(e, st', b) && st'.Block(b) == st.Block(b) && b in used'
  {}

  /** Growing one file keeps the whole volume sound; every other file reads as before, and the
      stored inodes are untouched. */
  lemma VolumeKept(files: map<nat, Dinode>, ino: nat, st: Store, used: set<nat>, e: Dinode, st': Store, used': set<nat>,
                   at: Layout)
    requires FilesOk(files, st, used, at) && ino in files
    requires Good(e, st', used', at) && Grown(files[ino], st, used, e, st', used')
    ensures FilesOk(files[ino := e], st', used', at)
    ensures forall i, p: nat :: i in files && i != ino && p < MAXFSZ ==> ByteAt(files[i], st', p) == ByteAt(files[i], st, p)
    ensures forall i :: i in files ==> st'.Block(i) == st.Block(i)
  {
    hide Good, ByteAt, Ptr, Owns, Disjoint, Grown, SameTree;
    var d := files[ino];
    forall i | i in files && i != ino
      ensures Good(files[i], st', used', at) && Disjoint(files[i], e, st') && Disjoint(e, files[i], st')
      ensures SameTree(files[i], st, files[i], st')
      ensures forall p: nat :: p < MAXFSZ ==> ByteAt(files[i], st', p) == ByteAt(files[i], st, p)
    {
      OtherFileKept(files[i], d, st, used, e, st', used', at);
      DisjointSymmetric(files[i], e, st');
    }
    forall i | i in files ensures !Owns(e, st', i) && st'.Block(i) == st.Block(i) && i in used' {
      NotGrownInto(d, st, used, e, st', used', i);
    }
    forall i, j | i in files && j in files && i != ino
      ensures !Owns(files[i], st', j)
      ensures j != ino && i != j ==> Disjoint(files[i], files[j], st')
    {
      SameTrees(files[i], if j == ino then files[i] else files[j], st, st');
    }
  }
}
