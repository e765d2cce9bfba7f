/** What the link counters of fsck count, cmd/sbin/fsck.c. */
module FsckLinks {
  import opened FileTree
  import opened FsckImage
  import opened InodeImage

  /** What a link is counted for: entry i of block k of directory v, a directory's own "." or "..",
      or the start of the walk. */
  datatype Why = Entry(v: nat, k: nat, i: nat) | Self(y: nat) | Up(y: nat) | Start

  /** What has been counted for inode x. */
  ghost function Reasons(links: map<Why, nat>, x: nat): set<Why> {
    set w | w in links && links[w] == x
  }

  lemma ReasonsNext(links: map<Why, nat>, w: Why, x: nat, y: nat)
    requires w !in links
    ensures w !in Reasons(links, y) && Reasons(links[w := x], y) == Reasons(links, y) + if y == x then {w} else {}
  {
  }

  lemma ReasonsMore(links: map<Why, nat>, w: Why, x: nat)
    requires w !in links
    ensures forall y :: |Reasons(links[w := x], y)| == |Reasons(links, y)| + if y == x then 1 else 0
  {
    forall y ensures |Reasons(links[w := x], y)| == |Reasons(links, y)| + if y == x then 1 else 0 {
      ReasonsNext(links, w, x, y);
    }
  }

  /** A link counted is there: an entry of a directory entered, or one of its dots; ".." is counted
      for a directory that has an entry for it, and for the root itself. */
  ghost predicate Genuine(st: Store, root: nat, visited: set<nat>, w: Why, x: nat) {
    match w
    case Entry(v, k, i) => v in visited && k < BMAP0_SIZE && i < DIRENTS && Names(st, v, k, i) && Named(st, v, k, i) == x
    case Self(y) => y in visited && IsDir(st.Block(y)) && x == y
    case Up(y) => y in visited && IsDir(st.Block(y)) && x in visited && if y == root then x == root else Edge(st, x, y)
    case Start => x == root
  }

  /** Every link counted is genuine, and all have been counted except perhaps those of the directories
      in busy. */
  ghost predicate Linked(st: Store, root: nat, links: map<Why, nat>, visited: set<nat>, busy: set<nat>) {
    && (forall w :: w in links ==> Genuine(st, root, visited, w, links[w]))
    && (visited != {} ==> Start in links && root in visited)
    && (forall y :: y in visited && IsDir(st.Block(y)) ==> Self(y) in links && Up(y) in links)
    && (forall v, k, i :: v in visited && v !in busy && 0 <= k < BMAP0_SIZE && 0 <= i < DIRENTS && Names(st, v, k, i)
          ==> Entry(v, k, i) in links)
  }

  /** The reason for which inode ino is gone to from dir: an entry not yet counted, or the start. */
  ghost predicate Fresh(st: Store, root: nat, links: map<Why, nat>, visited: set<nat>, dir: nat, ino: nat, why: Why) {
    && why !in links
    && match why
       case Entry(v, k, i) =>
         v == dir && dir in visited && k < BMAP0_SIZE && i < DIRENTS && Names(st, v, k, i) && Named(st, v, k, i) == ino
       case Start => dir == ino == root && visited == {}
       case _ => false
  }

  /** Of the entries of the directories in busy, only why has been counted besides those in was. */
  ghost predicate Only(busy: set<nat>, was: map<Why, nat>, now: map<Why, nat>, why: Why) {
    forall v, k, i :: v in busy ==> (Entry(v, k, i) in now <==> Entry(v, k, i) in was || Entry(v, k, i) == why)
  }

  /** The links after an inode has been entered. */
  function Recorded(links: map<Why, nat>, dir: nat, ino: nat, why: Why, isDir: bool): map<Why, nat> {
    if isDir then links[why := ino][Up(ino) := dir][Self(ino) := ino] else links[why := ino]
  }

  lemma EnterLinks(st: Store, root: nat, links: map<Why, nat>, visited: set<nat>, busy: set<nat>, dir: nat, ino: nat,
                   why: Why)
    requires Linked(st, root, links, visited, busy) && Fresh(st, root, links, visited, dir, ino, why) && ino !in visited
    ensures Up(ino) !in links && Self(ino) !in links && why != Up(ino) && why != Self(ino)
    ensures var links' := Recorded(links, dir, ino, why, IsDir(st.Block(ino)));
            && Linked(st, root, links', visited + {ino}, busy + {ino}) && Only(busy, links, links', why)
            && (forall k, i :: Entry(ino, k, i) !in links')
  {
    hide Names, Named, Genuine, Edge;
    var d := IsDir(st.Block(ino));
    var links' := Recorded(links, dir, ino, why, d);
    EntersFresh(st, root, links, visited, busy, dir, ino, why);
    forall w | w in links' ensures Genuine(st, root, visited + {ino}, w, links'[w]) {
      if w in links { GenuineMore(st, root, visited, ino, w, links[w]); }
    }
  }

  lemma GenuineMore(st: Store, root: nat, visited: set<nat>, ino: nat, w: Why, x: nat)
    requires Genuine(st, root, visited, w, x)
    ensures Genuine(st, root, visited + {ino}, w, x)
  {
    hide Names, Named, Edge;
  }

  /** The links of an inode just entered are new, and genuine. */
  lemma EntersFresh(st: Store, root: nat, links: map<Why, nat>, visited: set<nat>, busy: set<nat>, dir: nat, ino: nat,
                    why: Why)
    requires Linked(st, root, links, visited, busy) && Fresh(st, root, links, visited, dir, ino, why) && ino !in visited
    ensures Up(ino) !in links && Self(ino) !in links && why != Up(ino) && why != Self(ino)
    ensures Genuine(st, root, visited + {ino}, why, ino)
    ensures IsDir(st.Block(ino)) ==>
              Genuine(st, root, visited + {ino}, Up(ino), dir) && Genuine(st, root, visited + {ino}, Self(ino), ino)
    ensures forall k, i :: Entry(ino, k, i) !in links && Entry(ino, k, i) != why
  {
    hide Names, Named, Edge;
    assert Up(ino) in links ==> Genuine(st, root, visited, Up(ino), links[Up(ino)]);
    assert Self(ino) in links ==> Genuine(st, root, visited, Self(ino), links[Self(ino)]);
    forall k, i ensures Entry(ino, k, i) !in links && Entry(ino, k, i) != why {
      assert Entry(ino, k, i) in links ==> Genuine(st, root, visited, Entry(ino, k, i), links[Entry(ino, k, i)]);
    }
    if why.Entry? {
      EntryIsEdge(st, why.v, why.k, why.i);
    }
  }

  lemma EntryIsEdge(st: Store, v: nat, k: nat, i: nat)
    requires k < BMAP0_SIZE && i < DIRENTS && Names(st, v, k, i)
    ensures Edge(st, v, Named(st, v, k, i))
  {
  }

  lemma AgainLinks(st: Store, root: nat, links: map<Why, nat>, visited: set<nat>, busy: set<nat>, dir: nat, ino: nat,
                   why: Why)
    requires Linked(st, root, links, visited, busy) && Fresh(st, root, links, visited, dir, ino, why) && ino in visited
    ensures Linked(st, root, links[why := ino], visited, busy) && Only(busy, links, links[why := ino], why)
  {
    hide Names, Named;
  }

  /** Of directory ino exactly the entries before entry i of block k have been counted. */
  ghost predicate UpTo(st: Store, links: map<Why, nat>, ino: nat, k: nat, i: nat) {
    forall k', i' :: 0 <= k' < BMAP0_SIZE && 0 <= i' < DIRENTS ==>
      (Entry(ino, k', i') in links <==> (k' < k || (k' == k && i' < i)) && Names(st, ino, k', i'))
  }

  /** An entry of ino has been followed. */
  lemma UpToNext(st: Store, was: map<Why, nat>, now: map<Why, nat>, busy: set<nat>, ino: nat, k: nat, i: nat)
    requires UpTo(st, was, ino, k, i) && ino in busy && k < BMAP0_SIZE && i < DIRENTS && Names(st, ino, k, i)
    requires Only(busy, was, now, Entry(ino, k, i))
    ensures UpTo(st, now, ino, k, i + 1)
  {
  }

  lemma UpToSkip(st: Store, links: map<Why, nat>, ino: nat, k: nat, i: nat)
    requires UpTo(st, links, ino, k, i) && k < BMAP0_SIZE && i < DIRENTS && !Names(st, ino, k, i)
    ensures UpTo(st, links, ino, k, i + 1)
  {
  }

  lemma UpToBlock(st: Store, links: map<Why, nat>, ino: nat, k: nat)
    requires k < BMAP0_SIZE
    ensures UpTo(st, links, ino, k, DIRENTS) ==> UpTo(st, links, ino, k + 1, 0)
    ensures UpTo(st, links, ino, k, 0) && RootPtr(DinodeOf(st, ino), k) == 0 ==> UpTo(st, links, ino, k + 1, 0)
  {
  }

  /** What has been counted meanwhile does not concern the directories in busy. */
  lemma OnlySteps(busy: set<nat>, ino: nat, a: map<Why, nat>, b: map<Why, nat>, c: map<Why, nat>, k: nat, i: nat)
    requires Only(busy - {ino}, a, b, Start) && Only(busy, b, c, Entry(ino, k, i))
    ensures Only(busy - {ino}, a, c, Start)
  {
  }

  lemma OnlyJoin(busy: set<nat>, ino: nat, a: map<Why, nat>, b: map<Why, nat>, c: map<Why, nat>, why: Why)
    requires ino !in busy && Only(busy, a, b, why) && Only(busy + {ino} - {ino}, b, c, Start)
    ensures Only(busy, a, c, why)
  {
  }

  /** A directory read to the end need not count as busy any more. */
  lemma LinkedDone(st: Store, root: nat, links: map<Why, nat>, visited: set<nat>, busy: set<nat>, ino: nat)
    requires Linked(st, root, links, visited, busy + {ino})
    requires IsDir(st.Block(ino)) ==> UpTo(st, links, ino, BMAP0_SIZE, 0)
    ensures Linked(st, root, links, visited, busy)
  {
    hide Genuine, Named;
  }

  /** The links of a file system as fsck counts them: every entry of a reachable directory counts for
      the inode it names; every reachable directory counts once for itself, and once for a directory
      that has an entry for it, or for itself if it is the root. */
  ghost predicate TrueLinks(st: Store, root: nat, links: map<Why, nat>) {
    && (forall w :: w in links ==>
          match w
          case Entry(v, k, i) =>
            Reach(st, root, v) && k < BMAP0_SIZE && i < DIRENTS && Names(st, v, k, i) && Named(st, v, k, i) == links[w]
          case Self(y) => Reach(st, root, y) && IsDir(st.Block(y)) && links[w] == y
          case Up(y) =>
            && Reach(st, root, y) && IsDir(st.Block(y)) && Reach(st, root, links[w])
            && if y == root then links[w] == root else Edge(st, links[w], y)
          case Start => false)
    && (forall y :: Reach(st, root, y) && IsDir(st.Block(y)) ==> Self(y) in links && Up(y) in links)
    && (forall v, k, i :: Reach(st, root, v) && 0 <= k < BMAP0_SIZE && 0 <= i < DIRENTS && Names(st, v, k, i)
          ==> Entry(v, k, i) in links)
  }

  lemma AllLinks(st: Store, root: nat, links: map<Why, nat>, visited: set<nat>)
    requires Linked(st, root, links, visited, {}) && forall x: nat :: x in visited <==> Reach(st, root, x)
    ensures TrueLinks(st, root, links - {Start})
  {
    hide Names, Named, Edge, Reach;
    var links' := links - {Start};
    forall w | w in links' ensures Genuine(st, root, visited, w, links'[w]) && w != Start {
    }
  }

  /** The start of the walk has been counted for the root. */
  lemma StartUncounted(links: map<Why, nat>, root: nat)
    requires Start in links && links[Start] == root
    ensures forall y :: |Reasons(links - {Start}, y)| == |Reasons(links, y)| - if y == root then 1 else 0
  {
    forall y ensures |Reasons(links - {Start}, y)| == |Reasons(links, y)| - if y == root then 1 else 0 {
      assert Reasons(links - {Start}, y) == Reasons(links, y) - {Start};
    }
  }
}
