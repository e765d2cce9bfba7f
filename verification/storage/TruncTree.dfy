/** The blocks below a map block, as the recursion of trunc_i meets them, and their
    relation to the slots of a file. */
module TruncTree {
  import opened Bytes
  import opened Cache
  import opened Volume
  import opened FileTree

  /** The block that entry j of map block m names, with all blocks below it. */
  ghost function Sub(st: Store, m: u32, level: nat, j: nat): set<nat>
    requires j < WORDS
    decreases level, 0
  {
    var w := Word(st.Block(m), j);
    if w == 0 then {} else if level == 0 then {w} else {w} + Under(st, w, level - 1, WORDS)
  }

  /** The blocks below the first n entries of map block m. */
  ghost function Under(st: Store, m: u32, level: nat, n: nat): set<nat>
    requires n <= WORDS
    decreases level, n + 1
  {
    if n == 0 then {} else Under(st, m, level, n - 1) + Sub(st, m, level, n - 1)
  }

  /** No block occurs twice in the tree of map block m. */
  ghost predicate Tidy(st: Store, m: u32, level: nat)
    decreases level
  {
    && (forall j: nat, k: nat :: j < WORDS && k < WORDS && j != k ==> Sub(st, m, level, j) !! Sub(st, m, level, k))
    && (forall j: nat :: j < WORDS ==> m !in Sub(st, m, level, j))
    && (level > 0 ==> forall j: nat :: j < WORDS ==>
          var w := Word(st.Block(m), j);
          w != 0 ==> w !in Under(st, w, level - 1, WORDS) && Tidy(st, w, level - 1))
  }

  /** An entry's own blocks are among the blocks of the map. */
  lemma {:induction false} SubInUnder(st: Store, m: u32, level: nat, n: nat, j: nat)
    requires j < n <= WORDS
    ensures Sub(st, m, level, j) <= Under(st, m, level, n)
  {
    if j < n - 1 {
      SubInUnder(st, m, level, n - 1, j);
    }
  }

  /** Every block of the map belongs to some entry. */
  lemma {:induction false} EntryOf(st: Store, m: u32, level: nat, n: nat, x: nat) returns (j: nat)
    requires n <= WORDS && x in Under(st, m, level, n)
    ensures j < n && x in Sub(st, m, level, j)
  {
    j := n - 1;
    if x !in Sub(st, m, level, n - 1) {
      j := EntryOf(st, m, level, n - 1, x);
    }
  }

  /** The tree depends only on its own blocks. */
  lemma {:induction false} UnderFrame(st: Store, st': Store, m: u32, level: nat, n: nat)
    requires n <= WORDS && st'.Block(m) == st.Block(m)
    requires forall x :: x in Under(st, m, level, n) ==> st'.Block(x) == st.Block(x)
    ensures Under(st', m, level, n) == Under(st, m, level, n)
    ensures forall j: nat :: j < n ==> Sub(st', m, level, j) == Sub(st, m, level, j)
    decreases level, n
  {
    if n > 0 {
      assert Under(st, m, level, n) == Under(st, m, level, n - 1) + Sub(st, m, level, n - 1);
      UnderFrame(st, st', m, level, n - 1);
      var w := Word(st.Block(m), n - 1);
      if w != 0 && level > 0 {
        assert Sub(st, m, level, n - 1) == {w as nat} + Under(st, w, level - 1, WORDS);
        assert w in Sub(st, m, level, n - 1);
        UnderFrame(st, st', w, level - 1, WORDS);
      }
    }
  }

  lemma {:induction false} TidyFrame(st: Store, st': Store, m: u32, level: nat)
    requires Tidy(st, m, level) && st'.Block(m) == st.Block(m)
    requires forall x :: x in Under(st, m, level, WORDS) ==> st'.Block(x) == st.Block(x)
    ensures Tidy(st', m, level)
    decreases level
  {
    UnderFrame(st, st', m, level, WORDS);
    forall j: nat | j < WORDS && level > 0 && Word(st.Block(m), j) != 0
      ensures var w := Word(st'.Block(m), j); w !in Under(st', w, level - 1, WORDS) && Tidy(st', w, level - 1)
    {
      var w := Word(st.Block(m), j);
      SubInUnder(st, m, level, WORDS, j);
      assert Sub(st, m, level, j) == {w as nat} + Under(st, w, level - 1, WORDS);
      assert w in Sub(st, m, level, j);
      UnderFrame(st, st', w, level - 1, WORDS);
      TidyFrame(st, st', w, level - 1);
    }
  }

  /** The slot of entry j of the map block that slot s names. */
  function Child(s: Slot, j: nat): (c: Slot)
    requires InTree(s) && IsMap(s) && j < WORDS
    ensures InTree(c) && c.r == s.r
  {
    match s
    case Root(r) => Mid(r, j)
    case Mid(r, i) => Leaf(r, i, j)
  }

  lemma ChildPtr(d: Dinode, st: Store, s: Slot, j: nat)
    requires InTree(s) && IsMap(s) && j < WORDS && Ptr(d, st, s) != 0
    ensures Ptr(d, st, Child(s, j)) == Word(st.Block(Ptr(d, st, s)), j)
  {}

  /** The block a pointer names, if any. */
  ghost function Just(w: u32): set<nat> { if w == 0 then {} else {w} }

  /** In a file that names no block twice, the entries of a last-level map block are distinct. */
  lemma TidyLow(d: Dinode, st: Store, s: Slot)
    requires Unshared(d, st) && InTree(s) && IsMap(s) && Ptr(d, st, s) != 0
    ensures Tidy(st, Ptr(d, st, s), 0)
    ensures forall j: nat :: j < WORDS ==> Sub(st, Ptr(d, st, s), 0, j) == Just(Ptr(d, st, Child(s, j)))
  {
    var m := Ptr(d, st, s);
    forall j: nat | j < WORDS
      ensures Sub(st, m, 0, j) == Just(Ptr(d, st, Child(s, j)))
      ensures m !in Sub(st, m, 0, j)
    {
      ChildPtr(d, st, s, j);
      assert Child(s, j) != s;
    }
    forall j: nat, k: nat | j < WORDS && k < WORDS && j != k ensures Sub(st, m, 0, j) !! Sub(st, m, 0, k) {
      assert Child(s, j) != Child(s, k);
    }
  }

  /** A block below a last-level map block comes from one of its entries. */
  lemma LowEntry(d: Dinode, st: Store, s: Slot, x: nat) returns (j: nat)
    requires Unshared(d, st) && InTree(s) && IsMap(s) && Ptr(d, st, s) != 0
    requires x in Under(st, Ptr(d, st, s), 0, WORDS)
    ensures j < WORDS && Ptr(d, st, Child(s, j)) == x != 0
  {
    hide Sub, Under, Ptr, Unshared;
    TidyLow(d, st, s);
    j := EntryOf(st, Ptr(d, st, s), 0, WORDS, x);
  }

  /** The blocks below entry j of a double-indirect root, and where they are named. */
  lemma HighEntry(d: Dinode, st: Store, r: nat, j: nat, x: nat) returns (c: Slot)
    requires Unshared(d, st) && ROOT2 <= r < ROOTS && j < WORDS && RootPtr(d, r) != 0
    requires x in Sub(st, RootPtr(d, r), 1, j)
    ensures InTree(c) && Ptr(d, st, c) == x != 0 && c.r == r && !c.Root? && c.j == j
    ensures x in Under(st, Ptr(d, st, Mid(r, j)), 0, WORDS) ==> c.Leaf?
  {
    c := Mid(r, j);
    var w := Ptr(d, st, c);
    assert w == Word(st.Block(RootPtr(d, r)), j);
    if x in Under(st, w, 0, WORDS) {
      var k := LowEntry(d, st, c, x);
      c := Child(c, k);
    }
  }

  lemma TidyHigh(d: Dinode, st: Store, r: nat)
    requires Unshared(d, st) && ROOT2 <= r < ROOTS && RootPtr(d, r) != 0
    ensures Tidy(st, RootPtr(d, r), 1)
  {
    var m := RootPtr(d, r);
    assert Ptr(d, st, Root(r)) == m;
    forall j: nat, k: nat | j < WORDS && k < WORDS && j != k ensures Sub(st, m, 1, j) !! Sub(st, m, 1, k) {
      forall x | x in Sub(st, m, 1, j) ensures x !in Sub(st, m, 1, k) {
        var c := HighEntry(d, st, r, j, x);
        if x in Sub(st, m, 1, k) {
          var e := HighEntry(d, st, r, k, x);
        }
      }
    }
    forall j: nat | j < WORDS ensures m !in Sub(st, m, 1, j) {
      if m in Sub(st, m, 1, j) {
        var c := HighEntry(d, st, r, j, m);
      }
    }
    forall j: nat | j < WORDS && Word(st.Block(m), j) != 0
      ensures var w := Word(st.Block(m), j); w !in Under(st, w, 0, WORDS) && Tidy(st, w, 0)
    {
      assert Ptr(d, st, Mid(r, j)) == Word(st.Block(m), j);
      LowIsTidy(d, st, Mid(r, j));
    }
  }

  /** A last-level map block is tidy and not below itself. */
  lemma LowIsTidy(d: Dinode, st: Store, s: Slot)
    requires Unshared(d, st) && InTree(s) && IsMap(s) && Ptr(d, st, s) != 0
    ensures var w := Ptr(d, st, s); w !in Under(st, w, 0, WORDS) && Tidy(st, w, 0)
  {
    hide Sub, Under, Tidy, Ptr;
    var w := Ptr(d, st, s);
    TidyLow(d, st, s);
    if w in Under(st, w, 0, WORDS) {
      var k := LowEntry(d, st, s, w);
    }
  }

  /** How many map levels hang below root slot r, less one. */
  function LevelBelow(r: nat): nat { if r < ROOT2 then 0 else 1 }

  /** All blocks that root slot r leads to. */
  ghost function RootSub(d: Dinode, st: Store, r: nat): set<nat>
    requires r < ROOTS
  {
    var p := RootPtr(d, r);
    if p == 0 then {} else if r < ROOT1 then {p} else {p} + Under(st, p, LevelBelow(r), WORDS)
  }

  ghost function RootsUpTo(d: Dinode, st: Store, n: nat): set<nat>
    requires n <= ROOTS
  {
    if n == 0 then {} else RootsUpTo(d, st, n - 1) + RootSub(d, st, n - 1)
  }

  lemma TidyRoot(d: Dinode, st: Store, r: nat)
    requires Unshared(d, st) && ROOT1 <= r < ROOTS && RootPtr(d, r) != 0
    ensures Tidy(st, RootPtr(d, r), LevelBelow(r))
    ensures RootPtr(d, r) !in Under(st, RootPtr(d, r), LevelBelow(r), WORDS)
  {
    assert Ptr(d, st, Root(r)) == RootPtr(d, r);
    if r < ROOT2 {
      TidyLow(d, st, Root(r));
    } else {
      TidyHigh(d, st, r);
    }
    if RootPtr(d, r) in Under(st, RootPtr(d, r), LevelBelow(r), WORDS) {
      var j := EntryOf(st, RootPtr(d, r), LevelBelow(r), WORDS, RootPtr(d, r));
    }
  }

  /** Every block of a root is named by a slot of that root. */
  lemma SlotInRoot(d: Dinode, st: Store, r: nat, x: nat) returns (s: Slot)
    requires Unshared(d, st) && r < ROOTS && x in RootSub(d, st, r)
    ensures InTree(s) && s.r == r && Ptr(d, st, s) == x != 0
  {
    s := Root(r);
    var p := RootPtr(d, r);
    assert Ptr(d, st, s) == p;
    if x != p {
      if r < ROOT2 {
        var j := LowEntry(d, st, s, x);
        s := Child(s, j);
      } else {
        var j := EntryOf(st, p, 1, WORDS, x);
        s := HighEntry(d, st, r, j, x);
      }
    }
  }

  /** Every block a slot names belongs to its root. */
  lemma RootOfSlot(d: Dinode, st: Store, s: Slot)
    requires Unshared(d, st) && InTree(s) && Ptr(d, st, s) != 0
    ensures Ptr(d, st, s) in RootSub(d, st, s.r)
  {
    match s {
      case Root(r) =>
      case Mid(r, j) =>
        assert Word(st.Block(RootPtr(d, r)), j) == Ptr(d, st, s);
        SubInUnder(st, RootPtr(d, r), LevelBelow(r), WORDS, j);
      case Leaf(r, j, k) =>
        var w := Ptr(d, st, Mid(r, j));
        assert Word(st.Block(w), k) == Ptr(d, st, s);
        assert Word(st.Block(RootPtr(d, r)), j) == w;
        SubInUnder(st, w, 0, WORDS, k);
        assert Ptr(d, st, s) in Sub(st, RootPtr(d, r), 1, j);
        SubInUnder(st, RootPtr(d, r), 1, WORDS, j);
    }
  }

  lemma RootsApart(d: Dinode, st: Store, r: nat, q: nat)
    requires Unshared(d, st) && r < ROOTS && q < ROOTS && r != q
    ensures RootSub(d, st, r) !! RootSub(d, st, q)
  {
    forall x | x in RootSub(d, st, r) ensures x !in RootSub(d, st, q) {
      var s := SlotInRoot(d, st, r, x);
      if x in RootSub(d, st, q) {
        var t := SlotInRoot(d, st, q, x);
      }
    }
  }

  lemma {:induction false} UpToApart(d: Dinode, st: Store, n: nat, q: nat)
    requires Unshared(d, st) && n <= q < ROOTS
    ensures RootsUpTo(d, st, n) !! RootSub(d, st, q)
  {
    hide RootSub, Unshared;
    if n > 0 {
      UpToApart(d, st, n - 1, q);
      RootsApart(d, st, n - 1, q);
    }
  }

  lemma {:induction false} InUpTo(d: Dinode, st: Store, n: nat, r: nat)
    requires r < n <= ROOTS
    ensures RootSub(d, st, r) <= RootsUpTo(d, st, n)
  {
    hide RootSub;
    if r < n - 1 {
      InUpTo(d, st, n - 1, r);
    }
  }

  lemma {:induction false} SlotInUpTo(d: Dinode, st: Store, n: nat, x: nat) returns (s: Slot)
    requires Unshared(d, st) && n <= ROOTS && x in RootsUpTo(d, st, n)
    ensures InTree(s) && Ptr(d, st, s) == x != 0
  {
    hide RootSub, Ptr, Unshared;
    if x in RootSub(d, st, n - 1) {
      s := SlotInRoot(d, st, n - 1, x);
    } else {
      s := SlotInUpTo(d, st, n - 1, x);
    }
  }

  /** The trees of all roots together are exactly the blocks the file owns. */
  lemma RootsAreOwned(d: Dinode, st: Store)
    requires Unshared(d, st)
    ensures forall x: nat :: x in RootsUpTo(d, st, ROOTS) <==> Owns(d, st, x)
  {
    forall x: nat ensures x in RootsUpTo(d, st, ROOTS) <==> Owns(d, st, x) {
      if x in RootsUpTo(d, st, ROOTS) {
        var s := SlotInUpTo(d, st, ROOTS, x);
      }
      if Owns(d, st, x) {
        var s: Slot :| InTree(s) && Ptr(d, st, s) == x != 0;
        RootOfSlot(d, st, s);
        InUpTo(d, st, ROOTS, s.r);
      }
    }
  }
}
