/** The directory entries that fsck reads and those of the kernel are the same: what fsck goes into is what
    the names of a directory, other than its dots, are bound to. */
module FsckNames {
  import opened Bytes
  import opened Volume
  import opened FileTree
  import opened InodeImage
  import opened FsckImage
  import Dir
  import opened DirFile

  /** The entry that the kernel finds at place i of a block. */
  function EntryAt(b: Block, i: nat): Dir.Dirent
    requires i < DIRENTS
  {
    Parse(b[32 * i..32 * i + 32])
  }

  lemma StoredHead(f: string)
    requires |f| >= 1
    ensures Dir.Stored(f) == if f[0] == '\0' then [] else [f[0]] + Dir.Stored(f[1..])
  {
  }

  lemma StoredDots(f: string)
    requires |f| >= 3
    ensures Dir.Stored(f) == "." <==> f[0] == '.' && f[1] == '\0'
    ensures Dir.Stored(f) == ".." <==> f[0] == '.' && f[1] == '.' && f[2] == '\0'
  {
    hide Dir.Stored;
    var g := f[1..];
    StoredHead(f);
    StoredHead(g);
    StoredHead(g[1..]);
    assert g[0] == f[1] && g[1..][0] == f[2];
    var s := Dir.Stored(f);
    if f[0] != '\0' && f[1] != '\0' {
      assert s == [f[0], f[1]] + Dir.Stored(g[1..]);
      assert f[2] != '\0' ==> |s| > 2;
    }
    assert s == "." ==> |s| == 1 && s[0] == '.';
    assert s == ".." ==> |s| == 2 && s[0] == '.' && s[1] == '.';
  }

  /** fsck leaves out exactly the entries whose name, as a string, is one of the dots. */
  lemma IsDotsIff(b: Block, i: nat)
    requires i < DIRENTS
    ensures IsDots(b, i) <==> Dir.Stored(EntryAt(b, i).name) in {".", ".."}
    ensures EntryAt(b, i).ino == Dino(b, i)
  {
    hide Dir.Stored, Number;
    var part := b[32 * i..32 * i + 32];
    var f := EntryAt(b, i).name;
    assert forall j :: 0 <= j < 32 ==> part[j] == b[32 * i + j];
    assert f == Chars(part[4..]) && forall j :: 0 <= j < 28 ==> f[j] == b[32 * i + 4 + j] as char;
    StoredDots(f);
  }

  /** Slot k of a directory, in one of its direct blocks, is the entry that fsck finds there. */
  lemma SlotIsEntry(d: Dinode, st: Store, n: nat, k: nat, i: nat)
    requires Prefix(d, st, n) && k < Min(n, BMAP0_SIZE) && i < DIRENTS
    ensures RootPtr(d, k) != 0 && SlotsOf(d, st, n)[DIRENTS * k + i] == EntryAt(st.Block(RootPtr(d, k)), i)
  {
    hide Parse;
    assert SlotOf(k) == Root(k) && Ptr(d, st, SlotOf(k)) == RootPtr(d, k);
    var b := st.Block(RootPtr(d, k));
    assert b == b[0..BLK_SIZE];
    BlockSlots(d, st, n, k, RootPtr(d, k), b);
    assert EntriesOf(b)[i] == SlotsOf(d, st, n)[DIRENTS * k..DIRENTS * (k + 1)][i];
  }

  /** Slot k is in use, for x, under a name that is none of the dots. */
  ghost predicate Leads(es: seq<Dir.Dirent>, k: nat, x: nat) {
    k < |es| && es[k].ino == x != 0 && Dir.Stored(es[k].name) !in {".", ".."}
  }

  lemma NamesIff(st: Store, ino: nat, n: nat, k: nat, i: nat, x: nat)
    requires var d := DinodeOf(st, ino); Prefix(d, st, n) && IsDir(st.Block(ino))
    requires k < BMAP0_SIZE && i < DIRENTS
    ensures Names(st, ino, k, i) && Named(st, ino, k, i) == x <==>
            k < n && Leads(SlotsOf(DinodeOf(st, ino), st, n), DIRENTS * k + i, x)
  {
    hide Dir.Stored, Parse, IsDots, DinodeOf, IsDir;
    var d := DinodeOf(st, ino);
    var p := RootPtr(d, k);
    assert SlotOf(k) == Root(k) && Ptr(d, st, SlotOf(k)) == p;
    if k < n {
      SlotIsEntry(d, st, n, k, i);
      IsDotsIff(st.Block(p), i);
    }
  }

  /** What fsck goes into from a directory is what the slots in its direct blocks are for. */
  lemma EdgeIff(st: Store, ino: nat, n: nat, x: nat)
    requires var d := DinodeOf(st, ino); Prefix(d, st, n) && IsDir(st.Block(ino))
    ensures Edge(st, ino, x) <==>
            exists j: nat :: j < DIRENTS * Min(n, BMAP0_SIZE) && Leads(SlotsOf(DinodeOf(st, ino), st, n), j, x)
  {
    hide Names, Named, Leads, DinodeOf, IsDir, SlotsOf, Ptr;
    var es := SlotsOf(DinodeOf(st, ino), st, n);
    if Edge(st, ino, x) {
      var k: nat, i: nat :| k < BMAP0_SIZE && i < DIRENTS && Names(st, ino, k, i) && Named(st, ino, k, i) == x;
      NamesIff(st, ino, n, k, i, x);
      assert Leads(es, DIRENTS * k + i, x);
    }
    if j: nat :| j < DIRENTS * Min(n, BMAP0_SIZE) && Leads(es, j, x) {
      assert j == DIRENTS * (j / DIRENTS) + j % DIRENTS;
      NamesIff(st, ino, n, j / DIRENTS, j % DIRENTS, x);
    }
  }

  /** From a directory of direct blocks only, fsck goes into exactly what its names are bound to, but for the
      dots. */
  lemma EdgesAreBindings(st: Store, ino: nat, used: set<nat>, at: Layout, n: nat, binds: map<string, nat>, x: nat)
    requires IsDirFile(DinodeOf(st, ino), st, used, at, n, binds) && IsDir(st.Block(ino)) && n <= BMAP0_SIZE
    ensures Edge(st, ino, x) <==> exists name :: name in binds && name !in {".", ".."} && binds[name] == x
  {
    hide Good, Prefix, DinodeOf, IsDir, Edge, Dir.Stored;
    EdgeIff(st, ino, n, x);
    var es := SlotsOf(DinodeOf(st, ino), st, n);
    if j: nat :| j < DIRENTS * n && Leads(es, j, x) {
      assert Dir.Stored(es[j].name) in binds;
    }
    if name :| name in binds && name !in {".", ".."} && binds[name] == x {
      var j :| 0 <= j < |es| && Dir.Live(es, j, name);
      assert Leads(es, j, x);
    }
  }

  /** A directory with more blocks is not read to its end: it is followed everywhere if and only if each inode
      that is named beyond the direct blocks is named in them too. */
  lemma FollowedIff(st: Store, ino: nat, used: set<nat>, at: Layout, n: nat, binds: map<string, nat>)
    requires IsDirFile(DinodeOf(st, ino), st, used, at, n, binds) && IsDir(st.Block(ino))
    ensures var es := SlotsOf(DinodeOf(st, ino), st, n);
            (forall name :: name in binds && name !in {".", ".."} ==> Edge(st, ino, binds[name])) <==>
            (forall j: nat, x: nat :: j >= DIRENTS * BMAP0_SIZE && Leads(es, j, x) ==>
               exists k: nat :: k < DIRENTS * BMAP0_SIZE && Leads(es, k, x))
  {
    hide Good, Prefix, DinodeOf, IsDir, Edge, Dir.Stored;
    var es := SlotsOf(DinodeOf(st, ino), st, n);
    if forall name :: name in binds && name !in {".", ".."} ==> Edge(st, ino, binds[name]) {
      forall j: nat, x: nat | j >= DIRENTS * BMAP0_SIZE && Leads(es, j, x)
        ensures exists k: nat :: k < DIRENTS * BMAP0_SIZE && Leads(es, k, x)
      {
        assert Dir.Stored(es[j].name) in binds;
        EdgeIff(st, ino, n, x);
      }
    }
    if forall j: nat, x: nat :: j >= DIRENTS * BMAP0_SIZE && Leads(es, j, x) ==>
         exists k: nat :: k < DIRENTS * BMAP0_SIZE && Leads(es, k, x) {
      forall name | name in binds && name !in {".", ".."} ensures Edge(st, ino, binds[name]) {
        var j :| 0 <= j < |es| && Dir.Live(es, j, name);
        assert Leads(es, j, binds[name]);
        EdgeIff(st, ino, n, binds[name]);
      }
    }
  }
}
