/** Directory contents, kern/fs/dir.c: slots of 32 bytes, and the finite map they stand for. */
module Dir {
  import opened Errors

  const NAME_MAX := 28
  const DIRENT := 32
  const PER_BLOCK := 16

  type Field = s: string | |s| == NAME_MAX witness seq(NAME_MAX, i => '\0')

  datatype Dirent = Dirent(ino: nat, name: Field)

  function Zeros(n: nat): (s: string)
    ensures |s| == n
  {
    if n == 0 then [] else ['\0'] + Zeros(n - 1)
  }

  /** A name as C has it: no terminator inside. */
  predicate Text(name: string) { '\0' !in name }

  /** The part of a name that fits into a slot. */
  function Clip(name: string): (c: string)
    ensures |c| <= NAME_MAX && (|name| <= NAME_MAX ==> c == name)
    ensures Text(name) ==> Text(c)
  {
    if |name| > NAME_MAX then name[..NAME_MAX] else name
  }

  /** The name in a slot, which has no terminator when it fills the slot. */
  function Stored(f: string): (s: string)
    ensures Text(s) && |s| <= |f|
  {
    if f == [] || f[0] == '\0' then [] else [f[0]] + Stored(f[1..])
  }

  /** strncmp(f, name, n) == 0. */
  predicate Strncmp(f: string, name: string, n: nat)
    requires n <= |f|
  {
    n == 0 || (var b := if name == [] then '\0' else name[0];
               f[0] == b && (b == '\0' || Strncmp(f[1..], name[1..], n - 1)))
  }

  /** strncpy(f, name, NAME_MAX). */
  function Strncpy(name: string): Field {
    Clip(name) + Zeros(NAME_MAX - |Clip(name)|)
  }

  /** Comparing a slot with a name compares the name stored with the part of the other that fits. */
  lemma {:induction false} StrncmpIff(f: string, name: string)
    requires Text(name)
    ensures Strncmp(f, name, |f|) <==> Stored(f) == if |name| > |f| then name[..|f|] else name
  {
    if f != [] && name != [] && f[0] == name[0] {
      StrncmpIff(f[1..], name[1..]);
      var c := if |name| > |f| then name[..|f|] else name;
      assert c == [f[0]] + c[1..] && Stored(f)[1..] == Stored(f[1..]);
      assert c[1..] == if |name[1..]| > |f[1..]| then name[1..][..|f[1..]|] else name[1..];
    }
  }

  lemma {:induction false} StoredPadded(name: string, n: nat)
    requires Text(name)
    ensures Stored(name + Zeros(n)) == name
  {
    if name != [] {
      assert (name + Zeros(n))[1..] == name[1..] + Zeros(n);
      StoredPadded(name[1..], n);
    } else {
      assert name + Zeros(n) == Zeros(n);
    }
  }

  /** What is written under a name is found under that name. */
  lemma StrncpyStores(name: string)
    requires Text(name)
    ensures Stored(Strncpy(name)) == Clip(name)
  {
    StoredPadded(Clip(name), NAME_MAX - |Clip(name)|);
  }

  /** What dir_creat objects to, in the order in which it looks. */
  function Refusal(name: string, namlen: nat, isDir: bool, taken: bool): Err {
    if |name| > namlen then ENAMETOOLONG
    else if name == [] then EINVAL
    else if !isDir then ENOTDIR
    else if taken then EEXIST
    else OK
  }

  lemma RefusalIs(name: string, namlen: nat, isDir: bool, taken: bool)
    ensures var e := Refusal(name, namlen, isDir, taken);
            && (|name| > namlen ==> e == ENAMETOOLONG)
            && (|name| <= namlen && name == [] ==> e == EINVAL)
            && (0 < |name| <= namlen && !isDir ==> e == ENOTDIR)
            && (0 < |name| <= namlen && isDir ==> e == if taken then EEXIST else OK)
    ensures |name| <= NAME_MAX ==> Clip(name) == name
  {
  }

  ghost predicate OnlyDots(m: map<string, nat>) {
    forall name :: name in m ==> name == "." || name == ".."
  }

  function Bind(m: map<string, nat>, name: string, ino: nat): map<string, nat> { m[name := ino] }

  predicate Live(es: seq<Dirent>, k: nat, name: string)
    requires k < |es|
  {
    es[k].ino != 0 && Stored(es[k].name) == name
  }

  /** The slots in use stand for the bindings: each name once, each with its inode. */
  ghost predicate Stands(es: seq<Dirent>, binds: map<string, nat>) {
    && (forall k :: 0 <= k < |es| && es[k].ino != 0 ==>
          Stored(es[k].name) in binds && binds[Stored(es[k].name)] == es[k].ino)
    && (forall name :: name in binds ==> binds[name] != 0 && exists k :: 0 <= k < |es| && Live(es, k, name))
    && (forall j, k :: 0 <= j < k < |es| && es[j].ino != 0 && es[k].ino != 0 ==> Stored(es[j].name) != Stored(es[k].name))
  }

  lemma StandsSet(es: seq<Dirent>, binds: map<string, nat>, k: nat, name: string, ino: nat)
    requires Stands(es, binds) && k < |es| && es[k].ino == 0 && Text(name) && Clip(name) !in binds && ino != 0
    ensures Stands(es[k := Dirent(ino, Strncpy(name))], Bind(binds, Clip(name), ino))
  {
    hide Strncpy, Stored, Clip;
    StrncpyStores(name);
    var es' := es[k := Dirent(ino, Strncpy(name))];
    forall n | n in binds ensures exists j :: 0 <= j < |es'| && Live(es', j, n) {
      var j :| 0 <= j < |es| && Live(es, j, n);
      assert Live(es', j, n);
    }
    assert Live(es', k, Clip(name));
  }

  lemma StandsCleared(es: seq<Dirent>, binds: map<string, nat>, k: nat)
    requires Stands(es, binds) && k < |es| && es[k].ino != 0
    ensures Stands(es[k := Dirent(0, Zeros(NAME_MAX))], binds - {Stored(es[k].name)})
  {
    hide Stored, Zeros;
    var es' := es[k := Dirent(0, Zeros(NAME_MAX))];
    forall n | n in binds && n != Stored(es[k].name) ensures exists j :: 0 <= j < |es'| && Live(es', j, n) {
      var j :| 0 <= j < |es| && Live(es, j, n);
      assert Live(es', j, n);
    }
  }

  function Blank(n: nat): (s: seq<Dirent>)
    ensures |s| == n && forall k :: 0 <= k < n ==> s[k] == Dirent(0, Zeros(NAME_MAX))
  {
    seq(n, i => Dirent(0, Zeros(NAME_MAX)))
  }

  lemma StandsGrown(es: seq<Dirent>, binds: map<string, nat>, n: nat)
    requires Stands(es, binds)
    ensures Stands(es + Blank(n), binds)
  {
    hide Stored, Zeros;
    var es' := es + Blank(n);
    forall m | m in binds ensures exists j :: 0 <= j < |es'| && Live(es', j, m) {
      var j :| 0 <= j < |es| && Live(es, j, m);
      assert Live(es', j, m);
    }
  }

  /** The slot that a new entry gets: the first free one, at the end of the directory if none is free. */
  function FirstFree(es: seq<Dirent>): (k: nat)
    ensures k <= |es| && (k < |es| ==> es[k].ino == 0) && forall j :: 0 <= j < k ==> es[j].ino != 0
  {
    if es == [] || es[0].ino == 0 then 0 else 1 + FirstFree(es[1..])
  }

  lemma FirstFreeIs(es: seq<Dirent>, k: nat)
    requires k <= |es| && (k < |es| ==> es[k].ino == 0) && forall j :: 0 <= j < k ==> es[j].ino != 0
    ensures FirstFree(es) == k
  {
  }

  /** The slots after a new entry in slot k. */
  function Entered(es: seq<Dirent>, k: nat, name: string, ino: nat): seq<Dirent>
    requires k <= |es|
  {
    (if k == |es| then es + Blank(PER_BLOCK) else es)[k := Dirent(ino, Strncpy(name))]
  }

  /** A new entry under a name that was not there adds its binding. */
  lemma StandsEntered(es: seq<Dirent>, binds: map<string, nat>, k: nat, name: string, ino: nat)
    requires Stands(es, binds) && k <= |es| && (k < |es| ==> es[k].ino == 0)
    requires Text(name) && Clip(name) !in binds && ino != 0
    ensures Stands(Entered(es, k, name, ino), Bind(binds, Clip(name), ino))
  {
    hide Stored, Strncpy, Stands, Zeros, Clip;
    if k == |es| {
      StandsGrown(es, binds, PER_BLOCK);
      StandsSet(es + Blank(PER_BLOCK), binds, k, name, ino);
    } else {
      StandsSet(es, binds, k, name, ino);
    }
  }

  /** An entry that gets another inode changes its binding. */
  lemma StandsReplaced(es: seq<Dirent>, binds: map<string, nat>, k: nat, f: Field, ino: nat)
    requires Stands(es, binds) && k < |es| && es[k].ino != 0 && ino != 0 && Stored(f) == Stored(es[k].name)
    ensures Stands(es[k := Dirent(ino, f)], Bind(binds, Stored(f), ino))
  {
    hide Stored;
    var es' := es[k := Dirent(ino, f)];
    forall n | n in binds ensures exists j :: 0 <= j < |es'| && Live(es', j, n) {
      var j :| 0 <= j < |es| && Live(es, j, n);
      assert Live(es', j, n);
    }
    assert Live(es', k, Stored(f));
  }

  /** A free slot has no name, as memset leaves it. */
  ghost predicate Wiped(es: seq<Dirent>) {
    forall k :: 0 <= k < |es| && es[k].ino == 0 ==> Stored(es[k].name) == ""
  }

  lemma StoredZeros(n: nat)
    ensures Stored(Zeros(n)) == ""
  {
  }

  lemma WipedStill(es: seq<Dirent>, k: nat, e: Dirent, n: nat)
    requires Wiped(es) && k < |es| && (e.ino != 0 || e.name == Zeros(NAME_MAX))
    ensures Wiped(es[k := e]) && Wiped(es + Blank(n))
  {
    hide Stored, Zeros;
    StoredZeros(NAME_MAX);
  }

  lemma WipedEntered(es: seq<Dirent>, k: nat, name: string, ino: nat)
    requires Wiped(es) && k <= |es| && ino != 0
    ensures Wiped(Entered(es, k, name, ino))
  {
    hide Stored, Zeros, Strncpy;
    StoredZeros(NAME_MAX);
  }

  ghost predicate AllWiped(slots: map<nat, seq<Dirent>>) {
    forall d :: d in slots ==> Wiped(slots[d])
  }

  lemma AllWipedStill(slots: map<nat, seq<Dirent>>, d: nat, es: seq<Dirent>)
    requires AllWiped(slots) && Wiped(es)
    ensures AllWiped(slots[d := es])
  {
  }

  lemma WipedAt(slots: map<nat, seq<Dirent>>, d: nat)
    requires AllWiped(slots) && d in slots
    ensures Wiped(slots[d])
  {
  }

  /** Every entry in use is still there. */
  ghost predicate LivesOn(was: map<nat, seq<Dirent>>, now: map<nat, seq<Dirent>>) {
    forall d, k :: d in was && 0 <= k < |was[d]| && was[d][k].ino != 0 ==> d in now && k < |now[d]| && now[d][k] == was[d][k]
  }

  lemma EnteredLivesOn(slots: map<nat, seq<Dirent>>, d: nat, k: nat, name: string, ino: nat)
    requires d in slots && k <= |slots[d]| && (k < |slots[d]| ==> slots[d][k].ino == 0)
    ensures LivesOn(slots, slots[d := Entered(slots[d], k, name, ino)])
  {
    hide Strncpy;
  }

  /** No slot of directory d is free. */
  ghost predicate Packed(slots: map<nat, seq<Dirent>>, d: nat) {
    d in slots && FirstFree(slots[d]) == |slots[d]|
  }

  lemma PackedBefore(was: map<nat, seq<Dirent>>, now: map<nat, seq<Dirent>>, d: nat)
    requires Fewer(was, now) && Packed(now, d)
    ensures Packed(was, d)
  {
  }

  lemma PackedBeside(was: map<nat, seq<Dirent>>, now: map<nat, seq<Dirent>>, x: nat, d: nat)
    requires OnlyAt(was, now, x) && d != x && Packed(now, d)
    ensures Packed(was, d)
  {
  }

  /** No directory has come, and those that are left are as they were. */
  ghost predicate Fewer(was: map<nat, seq<Dirent>>, now: map<nat, seq<Dirent>>) {
    forall d :: d in now ==> d in was && now[d] == was[d]
  }

  lemma FewerSame(slots: map<nat, seq<Dirent>>)
    ensures Fewer(slots, slots)
  {
  }

  lemma FewerBoth(a: map<nat, seq<Dirent>>, b: map<nat, seq<Dirent>>, c: map<nat, seq<Dirent>>)
    requires Fewer(a, b) && Fewer(b, c)
    ensures Fewer(a, c)
  {
  }

  lemma LivesOnSame(slots: map<nat, seq<Dirent>>)
    ensures LivesOn(slots, slots)
  {
  }

  lemma StillLive(was: map<nat, seq<Dirent>>, now: map<nat, seq<Dirent>>, d: nat, k: nat, n: string)
    requires LivesOn(was, now) && d in was && k < |was[d]| && Live(was[d], k, n)
    ensures d in now && k < |now[d]| && Live(now[d], k, n)
  {
    hide Stored;
  }

  function Raised(size: nat, k: nat): nat {
    if DIRENT * (k + 1) > size then DIRENT * (k + 1) else size
  }

  /** No entry in use lies beyond the size of the directory. */
  ghost predicate InSize(es: seq<Dirent>, size: nat) {
    forall k :: 0 <= k < |es| && es[k].ino != 0 ==> DIRENT * (k + 1) <= size
  }

  lemma InSizeEntered(es: seq<Dirent>, size: nat, k: nat, name: string, ino: nat)
    requires InSize(es, size) && k <= |es|
    ensures InSize(es, Raised(size, k)) && InSize(Entered(es, k, name, ino), Raised(size, k))
  {
    hide Strncpy, Zeros;
    assert forall j :: 0 <= j < |Entered(es, k, name, ino)| && j != k ==>
        Entered(es, k, name, ino)[j].ino == if j < |es| then es[j].ino else 0;
  }

  lemma InSizeCleared(es: seq<Dirent>, size: nat, k: nat)
    requires InSize(es, size) && k < |es|
    ensures InSize(es[k := Dirent(0, Zeros(NAME_MAX))], size)
  {
  }

  lemma InSizeReplaced(es: seq<Dirent>, size: nat, k: nat, e: Dirent)
    requires InSize(es, size) && k < |es| && es[k].ino != 0
    ensures InSize(es[k := e], size)
  {
  }

  ghost predicate AllInSize(slots: map<nat, seq<Dirent>>, size: map<nat, nat>) {
    slots.Keys == size.Keys && forall d :: d in slots ==> InSize(slots[d], size[d])
  }

  lemma AllInSizeStill(slots: map<nat, seq<Dirent>>, size: map<nat, nat>, d: nat, es: seq<Dirent>, n: nat)
    requires AllInSize(slots, size) && InSize(es, n)
    ensures AllInSize(slots[d := es], size[d := n])
  {
  }

  lemma InSizeAt(slots: map<nat, seq<Dirent>>, size: map<nat, nat>, d: nat)
    requires AllInSize(slots, size) && d in slots
    ensures d in size && InSize(slots[d], size[d])
  {
  }

  ghost predicate AllStand(slots: map<nat, seq<Dirent>>, binds: map<nat, map<string, nat>>) {
    slots.Keys == binds.Keys && forall d :: d in slots ==> |slots[d]| % PER_BLOCK == 0 && Stands(slots[d], binds[d])
  }

  lemma StandsAt(slots: map<nat, seq<Dirent>>, binds: map<nat, map<string, nat>>, d: nat)
    requires AllStand(slots, binds) && d in slots
    ensures d in binds && Stands(slots[d], binds[d]) && |slots[d]| % PER_BLOCK == 0
  {
  }

  lemma AllStandStill(slots: map<nat, seq<Dirent>>, binds: map<nat, map<string, nat>>, d: nat, es: seq<Dirent>,
                      m: map<string, nat>)
    requires AllStand(slots, binds) && |es| % PER_BLOCK == 0 && Stands(es, m)
    ensures AllStand(slots[d := es], binds[d := m])
  {
  }

  /** All but d are as they were. */
  ghost predicate OnlyAt<V>(was: map<nat, V>, now: map<nat, V>, d: nat) {
    forall e :: e in now && e != d ==> e in was && now[e] == was[e]
  }

  lemma OnlyAtBoth<V>(a: map<nat, V>, b: map<nat, V>, c: map<nat, V>, d: nat)
    requires OnlyAt(a, b, d) && OnlyAt(b, c, d)
    ensures OnlyAt(a, c, d)
  {
  }

  lemma OnlyAtOther<V>(was: map<nat, V>, now: map<nat, V>, d: nat, e: nat)
    requires OnlyAt(was, now, d) && now.Keys == was.Keys && e in was && e != d
    ensures now[e] == was[e]
  {
  }

  /** The slots of the directories, by inode number, blocks one after the other; a directory's blocks
      are the file blocks from 0 up to the first that is not mapped. */
  class Dirs {
    var slots: map<nat, seq<Dirent>>
    var size: map<nat, nat>
    ghost var binds: map<nat, map<string, nat>>

    constructor ()
      ensures Valid() && slots == map[]
    {
      slots, size, binds := map[], map[], map[];
    }

    ghost predicate Valid()
      reads this
    {
      AllInSize(slots, size) && AllStand(slots, binds) && AllWiped(slots)
    }

    /** The number of blocks of a directory. */
    function Blocks(d: nat): nat
      requires d in slots
      reads this
    {
      |slots[d]| / PER_BLOCK
    }

    /** How many buffers dir_creat needs at most: for the scan, and for the block of the entry. */
    function Room(d: nat): nat
      requires d in slots
      reads this
    {
      Blocks(d) + 2
    }

    /** dir_search on a directory, when good buffers can be had and no more. It compares no more of the
        name than a slot holds, so a longer name finds the entry of its first 28 characters. */
    method Search(d: nat, name: string, good: nat) returns (err: Err, k: nat)
      requires Valid() && d in slots && Text(name)
      ensures err in {OK, ENOENT, ENOMEM}
      ensures err == OK ==>
                && Clip(name) in binds[d] && k < |slots[d]| && Live(slots[d], k, Clip(name))
                && slots[d][k].ino == binds[d][Clip(name)]
      ensures err == ENOENT ==> Clip(name) !in binds[d]
      ensures err == ENOMEM ==> good <= Blocks(d) && forall j :: 0 <= j < PER_BLOCK * good ==> !Live(slots[d], j, Clip(name))
    {
      hide Stored, Strncmp, Clip;
      var es := slots[d];
      var n := 0;
      k := 0;
      while true
        invariant n <= Blocks(d) && n <= good
        invariant forall j :: 0 <= j < PER_BLOCK * n ==> !Live(es, j, Clip(name))
        decreases Blocks(d) - n
      {
        if n == good { return ENOMEM, 0; }
        if n == Blocks(d) { return ENOENT, 0; }
        var i := 0;
        while i < PER_BLOCK
          invariant i <= PER_BLOCK
          invariant forall j :: 0 <= j < PER_BLOCK * n + i ==> !Live(es, j, Clip(name))
        {
          k := PER_BLOCK * n + i;
          SlotMatches(es[k].name, name);
          if es[k].ino != 0 && Strncmp(es[k].name, name, NAME_MAX) {
            return OK, k;
          }
          i := i + 1;
        }
        n := n + 1;
      }
    }

    /** The scan of dir_creat: is the name taken, and which slot is the first free one, at the end of
        the directory if there is none. */
    method Scan(d: nat, name: string, good: nat) returns (err: Err, k: nat)
      requires Valid() && d in slots && Text(name)
      ensures err in {OK, EEXIST, ENOMEM}
      ensures err == EEXIST ==> Clip(name) in binds[d]
      ensures err == OK ==> Clip(name) !in binds[d] && k == FirstFree(slots[d])
      ensures err == ENOMEM ==> good <= Blocks(d) && forall j :: 0 <= j < PER_BLOCK * good ==> !Live(slots[d], j, Clip(name))
    {
      hide Stored, Strncmp, Clip, FirstFree;
      var es := slots[d];
      var n := 0;
      k := |es|;
      while true
        invariant n <= Blocks(d) && n <= good
        invariant forall j :: 0 <= j < PER_BLOCK * n ==> !Live(es, j, Clip(name))
        invariant k == |es| || (k < PER_BLOCK * n && es[k].ino == 0)
        invariant forall j :: 0 <= j < PER_BLOCK * n && j < k ==> es[j].ino != 0
        decreases Blocks(d) - n
      {
        if n == good { return ENOMEM, k; }
        if n == Blocks(d) { break; }
        var i := 0;
        while i < PER_BLOCK
          invariant i <= PER_BLOCK
          invariant forall j :: 0 <= j < PER_BLOCK * n + i ==> !Live(es, j, Clip(name))
          invariant k == |es| || (k < PER_BLOCK * n + i && es[k].ino == 0)
          invariant forall j :: 0 <= j < PER_BLOCK * n + i && j < k ==> es[j].ino != 0
        {
          var j := PER_BLOCK * n + i;
          SlotMatches(es[j].name, name);
          if es[j].ino != 0 && Strncmp(es[j].name, name, NAME_MAX) {
            return EEXIST, j;
          }
          if es[j].ino == 0 && k == |es| {
            k := j;
          }
          i := i + 1;
        }
        n := n + 1;
      }
      err := OK;
      FirstFreeIs(es, k);
    }

    /** dir_creat, on a directory or, if isDir does not hold, on something else. The flag room says
        whether a block can be had when the directory has to grow, and good how many buffers can. One
        binding is added or the map is as it was; but the size may have grown for a block that could
        not be had. The answer wrote says whether the inode of the directory has changed. */
    method Creat(d: nat, name: string, ino: nat, isDir: bool, namlen: nat, room: bool, good: nat)
      returns (err: Err, wrote: bool)
      requires Valid() && (isDir ==> d in slots) && Text(name) && ino != 0 && namlen <= NAME_MAX
      modifies this
      ensures Valid() && slots.Keys == old(slots.Keys) && OnlyAt(old(slots), slots, d) && OnlyAt(old(size), size, d)
      ensures LivesOn(old(slots), slots)
      ensures var e := Refusal(name, namlen, isDir, isDir && name in old(binds)[d]);
              || err == e
              || (e in {OK, EEXIST} && err == ENOMEM && good <= old(Blocks(d)) + 1)
              || (e == OK && err == ENOSPC && !room && FirstFree(old(slots)[d]) == |old(slots)[d]|)
      ensures err == OK ==> good > old(Blocks(d)) + 1 && (room || FirstFree(old(slots)[d]) < |old(slots)[d]|)
      ensures isDir && err in {OK, ENOSPC} ==> size[d] == Raised(old(size)[d], FirstFree(old(slots)[d]))
      ensures err == OK ==> isDir && slots[d] == Entered(old(slots)[d], FirstFree(old(slots)[d]), name, ino)
      ensures err in {ENAMETOOLONG, EINVAL, ENOTDIR, EEXIST} ==> size == old(size)
      ensures err == OK ==> name !in old(binds)[d] && binds == old(binds)[d := Bind(old(binds)[d], name, ino)]
      ensures err != OK ==> binds == old(binds) && slots == old(slots)
      ensures wrote <==> size != old(size) || (isDir && |slots[d]| != |old(slots)[d]|)
    {
      hide Stored, Strncmp, Strncpy, Stands, Zeros, Entered, Raised, FirstFree, AllStand, AllInSize, AllWiped, Refusal, Clip;
      if isDir { StandsAt(slots, binds, d); }
      RefusalIs(name, namlen, isDir, isDir && name in binds[d]);
      wrote := false;
      if |name| > namlen { return ENAMETOOLONG, wrote; }
      if name == [] { return EINVAL, wrote; }
      if !isDir { return ENOTDIR, wrote; }
      var k;
      err, k := Scan(d, name, good);
      if err != OK { return; }
      err, wrote := Place(d, k, name, ino, room, good > Blocks(d) + 1);
    }

    /** The end of dir_creat, once the slot is chosen; have says whether bmget_alloc gets its buffers. */
    method Place(d: nat, k: nat, name: string, ino: nat, room: bool, have: bool) returns (err: Err, wrote: bool)
      requires Valid() && d in slots && Text(name) && 0 < |name| <= NAME_MAX && ino != 0 && name !in binds[d]
      requires k <= |slots[d]| && (k < |slots[d]| ==> slots[d][k].ino == 0)
      modifies this
      ensures Valid() && slots.Keys == old(slots.Keys)
      ensures size == old(size)[d := Raised(old(size)[d], k)]
      ensures err == if !have then ENOMEM else if k == |old(slots)[d]| && !room then ENOSPC else OK
      ensures err == OK ==> slots == old(slots)[d := Entered(old(slots)[d], k, name, ino)]
      ensures err == OK ==> binds == old(binds)[d := Bind(old(binds)[d], name, ino)]
      ensures err != OK ==> binds == old(binds) && slots == old(slots)
      ensures wrote <==> size != old(size) || |slots[d]| != |old(slots)[d]|
      ensures LivesOn(old(slots), slots)
    {
      hide Stored, Strncpy, Stands, Zeros, Bind, Clip, AllStand, Blank, InSize, AllInSize, Wiped, AllWiped, LivesOn;
      EnteredLivesOn(slots, d, k, name, ino);
      LivesOnSame(slots);
      WipedAt(slots, d);
      WipedEntered(slots[d], k, name, ino);
      AllWipedStill(slots, d, Entered(slots[d], k, name, ino));
      StandsAt(slots, binds, d);
      InSizeAt(slots, size, d);
      InSizeEntered(slots[d], size[d], k, name, ino);
      AllInSizeStill(slots, size, d, slots[d], Raised(size[d], k));
      AllInSizeStill(slots, size, d, Entered(slots[d], k, name, ino), Raised(size[d], k));
      assert slots[d := slots[d]] == slots && size[d := size[d]] == size;
      wrote := false;
      if DIRENT * (k + 1) > size[d] {
        size := size[d := DIRENT * (k + 1)];
        wrote := true;
      }
      if !have { return ENOMEM, wrote; }
      var es := slots[d];
      if k == |es| {
        if !room { return ENOSPC, wrote; }
        es := es + Blank(PER_BLOCK);
        wrote := true;
      }
      StandsEntered(slots[d], binds[d], k, name, ino);
      es := es[k := Dirent(ino, Strncpy(name))];
      ghost var m := Bind(binds[d], name, ino);
      assert Stands(es, m) && |es| % PER_BLOCK == 0;
      AllStandStill(slots, binds, d, es, m);
      slots, binds := slots[d := es], binds[d := m];
      err := OK;
    }

    /** Clearing of the slot found, as do_unlink does it. */
    method Clear(d: nat, k: nat)
      requires Valid() && d in slots && k < |slots[d]| && slots[d][k].ino != 0
      modifies this
      ensures Valid() && size == old(size)
      ensures slots == old(slots)[d := old(slots)[d][k := Dirent(0, Zeros(NAME_MAX))]]
      ensures binds == old(binds)[d := old(binds)[d] - {Stored(old(slots)[d][k].name)}]
    {
      hide Stands, Zeros, AllInSize, InSize, Wiped, AllWiped;
      WipedAt(slots, d);
      WipedStill(slots[d], k, Dirent(0, Zeros(NAME_MAX)), 0);
      AllWipedStill(slots, d, slots[d][k := Dirent(0, Zeros(NAME_MAX))]);
      StandsCleared(slots[d], binds[d], k);
      InSizeAt(slots, size, d);
      InSizeCleared(slots[d], size[d], k);
      AllInSizeStill(slots, size, d, slots[d][k := Dirent(0, Zeros(NAME_MAX))], size[d]);
      assert size[d := size[d]] == size;
      binds := binds[d := binds[d] - {Stored(slots[d][k].name)}];
      slots := slots[d := slots[d][k := Dirent(0, Zeros(NAME_MAX))]];
    }

    /** The entry in slot k gets another inode, and its name once more, as do_rename does it. */
    method Replace(d: nat, k: nat, name: string, ino: nat)
      requires Valid() && d in slots && k < |slots[d]| && Text(name) && ino != 0 && Live(slots[d], k, Clip(name))
      modifies this
      ensures Valid() && slots == old(slots)[d := old(slots)[d][k := Dirent(ino, Strncpy(name))]]
      ensures binds == old(binds)[d := Bind(old(binds)[d], Clip(name), ino)]
    {
      hide Strncpy, Clip;
      StrncpyStores(name);
      Repoint(d, k, Strncpy(name), ino);
    }

    /** An entry in use gets another inode. */
    method Repoint(d: nat, k: nat, f: Field, ino: nat)
      requires Valid() && d in slots && k < |slots[d]| && ino != 0 && slots[d][k].ino != 0
      requires Stored(f) == Stored(slots[d][k].name)
      modifies this
      ensures Valid() && slots == old(slots)[d := old(slots)[d][k := Dirent(ino, f)]]
      ensures binds == old(binds)[d := Bind(old(binds)[d], Stored(f), ino)]
    {
      hide Stored, Stands, AllInSize, InSize, AllStand, Wiped, AllWiped, Bind;
      var e := Dirent(ino, f);
      StandsAt(slots, binds, d);
      StandsReplaced(slots[d], binds[d], k, f, ino);
      WipedAt(slots, d);
      WipedStill(slots[d], k, e, 0);
      AllWipedStill(slots, d, slots[d][k := e]);
      InSizeAt(slots, size, d);
      InSizeReplaced(slots[d], size[d], k, e);
      AllInSizeStill(slots, size, d, slots[d][k := e], size[d]);
      assert size[d := size[d]] == size;
      ghost var m := Bind(binds[d], Stored(f), ino);
      AllStandStill(slots, binds, d, slots[d][k := e], m);
      slots, binds := slots[d := slots[d][k := e]], binds[d := m];
    }

    /** dir_reparent on a directory, when have says whether its first block can be had: the first slot of that
        block that has the name "..", in use or not, gets the inode. */
    method Reparent(d: nat, ino: nat, have: bool) returns (err: Err)
      requires Valid() && d in slots && ino != 0
      modifies this
      ensures Valid() && slots.Keys == old(slots.Keys) && OnlyAt(old(slots), slots, d)
      ensures err in {OK, EINVAL, ENOMEM} && (err == ENOMEM <==> !have)
      ensures err == OK ==> binds == old(binds)[d := Bind(old(binds)[d], "..", ino)]
      ensures err != OK ==> slots == old(slots) && binds == old(binds)
      ensures err == EINVAL ==> forall k :: 0 <= k < |slots[d]| && k < PER_BLOCK ==> !Live(slots[d], k, "..")
    {
      hide Stored, Strncmp, Bind, AllStand, AllInSize, AllWiped, Stands;
      if !have { return ENOMEM; }
      StandsAt(slots, binds, d);
      WipedAt(slots, d);
      if |slots[d]| == 0 { return EINVAL; }
      var k := 0;
      while k < PER_BLOCK
        invariant slots == old(slots) && binds == old(binds) && size == old(size)
        invariant k <= PER_BLOCK <= |slots[d]| && forall j :: 0 <= j < k ==> !Live(slots[d], j, "..")
      {
        var e := slots[d][k];
        SlotMatches(e.name, "..");
        if Strncmp(e.name, "..", NAME_MAX) {
          Repoint(d, k, e.name, ino);
          return OK;
        }
        k := k + 1;
      }
      err := EINVAL;
    }

    /** dir_isempty on a directory: nothing but "." and ".." is bound. */
    method IsEmpty(d: nat, good: nat) returns (err: Err)
      requires Valid() && d in slots
      ensures err in {OK, ENOTEMPTY, ENOMEM}
      ensures err == OK ==> OnlyDots(binds[d])
      ensures err == ENOTEMPTY ==> !OnlyDots(binds[d])
      ensures err == ENOMEM ==>
                && good <= Blocks(d)
                && forall j :: 0 <= j < PER_BLOCK * good && slots[d][j].ino != 0 ==> Stored(slots[d][j].name) in {".", ".."}
    {
      hide Stored, Strncmp;
      var es := slots[d];
      var n := 0;
      while true
        invariant n <= Blocks(d) && n <= good
        invariant forall j :: 0 <= j < PER_BLOCK * n && es[j].ino != 0 ==> Stored(es[j].name) in {".", ".."}
        decreases Blocks(d) - n
      {
        if n == good { return ENOMEM; }
        if n == Blocks(d) { return OK; }
        var i := 0;
        while i < PER_BLOCK
          invariant i <= PER_BLOCK
          invariant forall j :: 0 <= j < PER_BLOCK * n + i && es[j].ino != 0 ==> Stored(es[j].name) in {".", ".."}
        {
          var e := es[PER_BLOCK * n + i];
          i := i + 1;
          SlotMatches(e.name, ".");
          SlotMatches(e.name, "..");
          if Strncmp(e.name, ".", NAME_MAX) || Strncmp(e.name, "..", NAME_MAX) { continue; }
          if e.ino != 0 { return ENOTEMPTY; }
        }
        n := n + 1;
      }
    }

    /** A file without blocks. */
    method Make(d: nat)
      requires Valid() && d !in slots
      modifies this
      ensures Valid() && slots == old(slots)[d := []] && binds == old(binds)[d := map[]]
    {
      slots, size, binds := slots[d := []], size[d := 0], binds[d := map[]];
    }

    /** trunc of a file that goes away. */
    method Drop(d: nat)
      requires Valid() && d in slots
      modifies this
      ensures Valid() && slots == old(slots) - {d} && binds == old(binds) - {d}
    {
      slots, size, binds := slots - {d}, size - {d}, binds - {d};
    }
  }

  lemma SlotMatches(f: Field, name: string)
    requires Text(name)
    ensures Strncmp(f, name, NAME_MAX) <==> Stored(f) == Clip(name)
  {
    StrncmpIff(f, name);
  }
}
