/** All interleavings of any number of readers and writers of one pipe. A process runs from
    its call, or from the idle() it waits in, to its next idle() or its return; the scheduler
    and the ends of the pipe that open and close are the environment of each such stretch. */
module PipeRuns {
  import opened Bytes
  import opened Pipe

  /** A call in progress or over (Outcome Idle means still waiting), with the place in the
      stream where its bytes are. */
  datatype Call =
    | Reader(r: ReadReq, o: Outcome, at: nat)
    | Writer(w: WriteReq, o: Outcome, at: nat)

  /** A byte and the call that wrote it. */
  datatype Tagged = Tagged(id: nat, b: byte)

  datatype Sys = Sys(ring: seq<byte>, calls: map<nat, Call>, accepted: seq<Tagged>, delivered: seq<byte>)

  datatype Event =
    | CallRead(id: nat, want: nat, nodelay: bool)
    | CallWrite(id: nat, data: seq<byte>, nodelay: bool)
    | Run(id: nat, env: Env)

  const INIT := Sys([], map[], [], [])

  function Tag(id: nat, data: seq<byte>): (t: seq<Tagged>)
    ensures |t| == |data|
  {
    seq(|data|, i requires 0 <= i < |data| => Tagged(id, data[i]))
  }

  function Plain(t: seq<Tagged>): (p: seq<byte>)
    ensures |p| == |t|
  {
    seq(|t|, i requires 0 <= i < |t| => t[i].b)
  }

  /** The bytes of one call within the stream. */
  function Of(t: seq<Tagged>, id: nat): seq<byte> {
    if t == [] then []
    else Of(t[..|t| - 1], id) + if t[|t| - 1].id == id then [t[|t| - 1].b] else []
  }

  function Next(s: Sys, e: Event): Sys
    requires Inv(s)
  {
    match e
    case CallRead(id, want, nodelay) =>
      if id in s.calls then s
      else s.(calls := s.calls[id := Reader(ReadReq(want, [], nodelay), Idle, 0)])
    case CallWrite(id, data, nodelay) =>
      if id in s.calls then s
      else s.(calls := s.calls[id := Writer(WriteReq(data, 0, false, nodelay), Idle, 0)])
    case Run(id, env) =>
      if id !in s.calls || s.calls[id].o != Idle then s
      else match s.calls[id]
        case Reader(r, _, _) =>
          var (ring, r', o) := ReadStep(s.ring, r, env);
          s.(ring := ring, delivered := s.delivered + r'.got[|r.got|..],
             calls := s.calls[id := Reader(r', o, |s.delivered|)])
        case Writer(w, _, at) =>
          var (ring, w', o) := WriteStep(s.ring, w, env);
          s.(ring := ring, accepted := s.accepted + Tag(id, w.data[w.put..w'.put]),
             calls := s.calls[id := Writer(w', o, if w.put == 0 then |s.accepted| else at)])
  }

  ghost predicate ReaderOk(s: Sys, c: Call)
    requires c.Reader?
  {
    && |c.r.got| <= c.r.want
    && (c.o.Returned? ==> c.o.count == |c.r.got|)
    && (!c.o.Returned? ==> c.r.got == [])
    && c.at + |c.r.got| <= |s.delivered|
    && s.delivered[c.at..c.at + |c.r.got|] == c.r.got
  }

  ghost predicate WriterOk(s: Sys, id: nat, c: Call)
    requires c.Writer?
  {
    && c.w.put <= |c.w.data|
    && Of(s.accepted, id) == c.w.data[..c.w.put]
    && (c.o.Returned? ==> c.o.count == c.w.put)
    && (!c.w.begun ==> c.w.put == 0)
    && (|c.w.data| <= PIPE_BUF ==>
          && (c.o == Idle ==> !c.w.begun)
          && (c.w.put == 0 || c.w.put == |c.w.data|)
          && (c.w.put > 0 ==> c.o.Returned?)
          && c.at + c.w.put <= |s.accepted|
          && s.accepted[c.at..c.at + c.w.put] == Tag(id, c.w.data[..c.w.put]))
  }

  ghost predicate Inv(s: Sys) {
    && |s.ring| <= PIPE_BUF
    && s.delivered + s.ring == Plain(s.accepted)
    && (forall id :: id in s.calls ==> if s.calls[id].Reader? then ReaderOk(s, s.calls[id]) else WriterOk(s, id, s.calls[id]))
    && (forall i :: 0 <= i < |s.accepted| ==> s.accepted[i].id in s.calls)
  }

  lemma {:induction false} OfAppend(t: seq<Tagged>, u: seq<Tagged>, id: nat)
    ensures Of(t + u, id) == Of(t, id) + Of(u, id)
  {
    if u == [] {
      assert t + u == t;
    } else {
      var v := u[..|u| - 1];
      OfAppend(t, v, id);
      assert (t + u)[..|t + u| - 1] == t + v;
    }
  }

  lemma {:induction false} OfTag(id: nat, data: seq<byte>, q: nat)
    ensures Of(Tag(id, data), q) == if q == id then data else []
  {
    if data != [] {
      var init := data[..|data| - 1];
      OfTag(id, init, q);
      assert Tag(id, data)[..|data| - 1] == Tag(id, init);
    }
  }

  lemma {:induction false} OfAbsent(t: seq<Tagged>, id: nat)
    requires forall i :: 0 <= i < |t| ==> t[i].id != id
    ensures Of(t, id) == []
  {
    if t != [] {
      OfAbsent(t[..|t| - 1], id);
    }
  }

  lemma InitInv()
    ensures Inv(INIT)
  {}

  lemma CallKeepsInv(s: Sys, e: Event)
    requires Inv(s) && !e.Run?
    ensures Inv(Next(s, e))
  {
    if e.id !in s.calls {
      OfAbsent(s.accepted, e.id);
    }
  }

  /** What one stretch of pipe_read can do: it takes bytes off the front of the pipe, and
      waits only with none taken. */
  lemma ReadStepShape(c: seq<byte>, r: ReadReq, e: Env)
    requires |r.got| <= r.want
    ensures var (c', r', o) := ReadStep(c, r, e);
            && |r.got| <= |r'.got| <= r'.want == r.want
            && c == r'.got[|r.got|..] + c' && r'.got == r.got + r'.got[|r.got|..]
            && (o.Returned? ==> o.count == |r'.got|)
            && (!o.Returned? ==> r'.got == [])
  {}

  /** What one stretch of pipe_write can do: it puts the next bytes at the end of the pipe, and
      of a write that fits the pipe all or none. */
  lemma WriteStepShape(c: seq<byte>, w: WriteReq, e: Env)
    requires w.put <= |w.data| && |c| <= PIPE_BUF && (!w.begun ==> w.put == 0)
    ensures var (c', w', o) := WriteStep(c, w, e);
            && w'.data == w.data && w.put <= w'.put <= |w.data|
            && |c'| <= PIPE_BUF && c' == c + w.data[w.put..w'.put]
            && (o.Returned? ==> o.count == w'.put)
            && (!w'.begun ==> w'.put == 0)
            && (!w.begun && |w.data| <= PIPE_BUF ==>
                  && (w'.put == 0 || w'.put == |w.data|)
                  && (w'.begun ==> o != Idle) && (w'.put > 0 ==> o.Returned?))
  {}

  lemma ReadKeepsInv(s: Sys, id: nat, env: Env)
    requires Inv(s) && id in s.calls && s.calls[id].Reader?
    ensures Inv(Next(s, Run(id, env)))
  {
    hide ReadStep, WriterOk, Tag, Of, Plain, WriteStep, Min;
    var s' := Next(s, Run(id, env));
    if s.calls[id].o == Idle {
      ReadStepShape(s.ring, s.calls[id].r, env);
      forall q | q in s.calls && s.calls[q].Writer? ensures WriterOk(s', q, s.calls[q]) {
        SameStream(s, s', q, s.calls[q]);
      }
      forall q | q in s.calls && q != id && s.calls[q].Reader? ensures ReaderOk(s', s.calls[q]) {
        OtherReaderOk(s, s', s.calls[q]);
      }
    }
  }

  lemma OtherReaderOk(s: Sys, s': Sys, c: Call)
    requires c.Reader? && ReaderOk(s, c) && s.delivered <= s'.delivered
    ensures ReaderOk(s', c)
  {}

  lemma SameStream(s: Sys, s': Sys, id: nat, c: Call)
    requires c.Writer? && WriterOk(s, id, c) && s'.accepted == s.accepted
    ensures WriterOk(s', id, c)
  {}

  /** A writer that did not run keeps its bytes where they are in the stream. */
  lemma OtherWriterOk(s: Sys, s': Sys, id: nat, c: Call, more: seq<Tagged>)
    requires c.Writer? && WriterOk(s, id, c) && s'.accepted == s.accepted + more && Of(more, id) == []
    ensures WriterOk(s', id, c)
  {
    OfAppend(s.accepted, more, id);
    assert |c.w.data| <= PIPE_BUF ==> s'.accepted[c.at..c.at + c.w.put] == s.accepted[c.at..c.at + c.w.put];
  }

  lemma ThisWriterOk(s: Sys, s': Sys, id: nat, c: Call, env: Env)
    requires c.Writer? && WriterOk(s, id, c) && c.o == Idle && |s.ring| <= PIPE_BUF
    requires |c.w.data| <= PIPE_BUF ==> !c.w.begun
    requires s'.accepted == s.accepted + Tag(id, c.w.data[c.w.put..WriteStep(s.ring, c.w, env).1.put])
    ensures var (_, w', o) := WriteStep(s.ring, c.w, env);
            WriterOk(s', id, Writer(w', o, if c.w.put == 0 then |s.accepted| else c.at))
  {
    hide WriteStep, Of, Tag;
    WriteStepShape(s.ring, c.w, env);
    var (_, w', o) := WriteStep(s.ring, c.w, env);
    var more := c.w.data[c.w.put..w'.put];
    if c.w.put == 0 {
      assert more == c.w.data[..w'.put];
    }
    OfAppend(s.accepted, Tag(id, more), id);
    OfTag(id, more, id);
    assert c.w.data[..c.w.put] + more == c.w.data[..w'.put];
  }

  lemma WaitingSmall(s: Sys, id: nat, c: Call)
    requires c.Writer? && WriterOk(s, id, c) && c.o == Idle
    ensures c.w.put <= |c.w.data| && (!c.w.begun ==> c.w.put == 0) && (|c.w.data| <= PIPE_BUF ==> !c.w.begun)
  {}

  lemma WriteKeepsInv(s: Sys, id: nat, env: Env)
    requires Inv(s) && id in s.calls && s.calls[id].Writer?
    ensures Inv(Next(s, Run(id, env)))
  {
    hide WriteStep, WriterOk, Of;
    var s' := Next(s, Run(id, env));
    var c := s.calls[id];
    if c.o == Idle {
      WaitingSmall(s, id, c);
      WriteStepShape(s.ring, c.w, env);
      ThisWriterOk(s, s', id, c, env);
      var more := c.w.data[c.w.put..WriteStep(s.ring, c.w, env).1.put];
      forall q | q in s.calls && q != id && s.calls[q].Writer? ensures WriterOk(s', q, s.calls[q]) {
        OfTag(id, more, q);
        OtherWriterOk(s, s', q, s.calls[q], Tag(id, more));
      }
      assert Plain(s'.accepted) == Plain(s.accepted) + more;
    }
  }

  lemma NextKeepsInv(s: Sys, e: Event)
    requires Inv(s)
    ensures Inv(Next(s, e))
  {
    match e {
      case Run(id, env) =>
        if id in s.calls {
          if s.calls[id].Reader? {
            ReadKeepsInv(s, id, env);
          } else {
            WriteKeepsInv(s, id, env);
          }
        }
      case _ => CallKeepsInv(s, e);
    }
  }

  /** The state after a whole run. */
  function After(es: seq<Event>): (s: Sys)
    ensures Inv(s)
  {
    if es == [] then InitInv(); INIT
    else
      var s := After(es[..|es| - 1]);
      NextKeepsInv(s, es[|es| - 1]);
      Next(s, es[|es| - 1])
  }

  /** In every run, the bytes delivered and then the bytes in the pipe are the bytes accepted, in
      order, and every writer's bytes are the front of its data, in order. */
  lemma StreamInOrder(es: seq<Event>, id: nat)
    ensures After(es).delivered + After(es).ring == Plain(After(es).accepted)
    ensures id in After(es).calls && After(es).calls[id].Writer? ==>
      var w := After(es).calls[id].w; w.put <= |w.data| && Of(After(es).accepted, id) == w.data[..w.put]
  {}

  /** In every run, a write of at most PIPE_BUF bytes that has returned its full count is one
      contiguous piece of the stream, and otherwise none of its bytes is in the stream. */
  lemma SmallWriteIsAtomic(es: seq<Event>, id: nat)
    requires id in After(es).calls && After(es).calls[id].Writer?
    requires |After(es).calls[id].w.data| <= PIPE_BUF
    ensures var s := After(es);
            var data := s.calls[id].w.data;
            if s.calls[id].o == Returned(|data|)
            then exists at: nat :: at + |data| <= |s.accepted| && s.accepted[at..at + |data|] == Tag(id, data)
                                   && Of(s.accepted[..at], id) == [] && Of(s.accepted[at + |data|..], id) == []
            else forall i :: 0 <= i < |s.accepted| ==> s.accepted[i].id != id
  {
    hide After, WriterOk, ReaderOk, Of, Tag, Plain;
    var s := After(es);
    SmallWriterOk(s, id, s.calls[id]);
  }

  lemma SmallWriterOk(s: Sys, id: nat, c: Call)
    requires c.Writer? && WriterOk(s, id, c) && |c.w.data| <= PIPE_BUF
    ensures if c.o == Returned(|c.w.data|)
            then c.at + |c.w.data| <= |s.accepted| && s.accepted[c.at..c.at + |c.w.data|] == Tag(id, c.w.data)
                 && Of(s.accepted[..c.at], id) == [] && Of(s.accepted[c.at + |c.w.data|..], id) == []
            else forall i :: 0 <= i < |s.accepted| ==> s.accepted[i].id != id
  {
    hide Of, Tag;
    var data := c.w.data;
    if c.o == Returned(|data|) {
      var before, after := s.accepted[..c.at], s.accepted[c.at + |data|..];
      assert data[..|data|] == data;
      assert s.accepted == before + Tag(id, data) + after;
      OfAppend(before + Tag(id, data), after, id);
      OfAppend(before, Tag(id, data), id);
      OfTag(id, data, id);
    } else {
      OfNone(s.accepted, id);
    }
  }

  lemma {:induction false} OfNone(t: seq<Tagged>, id: nat)
    requires Of(t, id) == []
    ensures forall i :: 0 <= i < |t| ==> t[i].id != id
  {
    if t != [] {
      OfNone(t[..|t| - 1], id);
    }
  }

  /** In every run, what a reader got is one contiguous piece of the stream, and a reader that waits
      or was interrupted got nothing. */
  lemma ReadIsContiguous(es: seq<Event>, id: nat)
    requires id in After(es).calls && After(es).calls[id].Reader?
    ensures var s := After(es);
            var c := s.calls[id];
            && c.at + |c.r.got| <= |s.accepted|
            && Plain(s.accepted)[c.at..c.at + |c.r.got|] == c.r.got
            && (if c.o.Returned? then c.o.count == |c.r.got| else c.r.got == [])
  {
    var s := After(es);
    assert Plain(s.accepted) == s.delivered + s.ring;
  }

  /** How a stretch of pipe_read ends, for every pipe, request and environment: it takes what there is, up to
      the count; it waits, or is interrupted, only if it has nothing, there is nothing, and there is a writer
      to wait for. */
  lemma ReadAnswers(c: seq<byte>, r: ReadReq, e: Env)
    requires |r.got| <= r.want
    ensures var (c', r', o) := ReadStep(c, r, e);
            var dry := r.want > 0 && c == [] && r.got == [] && e.writers > 0 && !r.nodelay;
            && r' == r.(got := r.got + c[..Min(r.want - |r.got|, |c|)]) && |c'| == |c| - (|r'.got| - |r.got|)
            && (o == Idle <==> dry && !e.sig)
            && (o == Eintr <==> dry && e.sig)
            && (!dry ==> o == Returned(|r'.got|))
  {
  }

  /** The writer has to wait for room: it has not begun, and would fit the empty pipe but not this one. */
  predicate Held(c: seq<byte>, w: WriteReq) {
    !w.begun && |w.data| <= PIPE_BUF < |c| + |w.data|
  }

  /** How a stretch of pipe_write ends: a write that has to wait puts nothing, and one that has not puts as much
      as there is room for, unless there is no reader. */
  lemma WriteAnswers(c: seq<byte>, w: WriteReq, e: Env)
    requires w.put <= |w.data| && |c| <= PIPE_BUF
    ensures var (c', w', o) := WriteStep(c, w, e);
            var left, room := |w.data| - w.put, PIPE_BUF - |c|;
            var full := !Held(c, w) && e.readers > 0 && room < left;
            && w' == w.(put := w'.put, begun := w.begun || !Held(c, w))
            && w'.put - w.put == (if Held(c, w) || e.readers == 0 then 0 else Min(left, room))
            && |c'| == |c| + (w'.put - w.put)
            && (o == Idle <==> (Held(c, w) || full) && !e.sig && !w.nodelay)
            && (o == Eintr <==> e.sig && (full || (Held(c, w) && !w.nodelay)))
            && (o == Epipe <==> !Held(c, w) && left > 0 && e.readers == 0)
            && (o.Returned? ==> o.count == if Held(c, w) then 0 else w'.put)
            && (left > 0 && !Held(c, w) && e.readers > 0 && room >= left ==> o == Returned(|w.data|))
  {
  }

  lemma OneStep(es: seq<Event>, e: Event)
    ensures After(es + [e]) == Next(After(es), e)
    ensures var s := After(es); Inv(s) && |s.accepted| == |s.delivered| + |s.ring|
  {
    assert (es + [e])[..|es|] == es;
  }

  /** In every run, a call under a new number waits for its first stretch, with nothing got or put, and changes
      nothing else; under a number in use it changes nothing. */
  lemma CallBegins(es: seq<Event>, id: nat, want: nat, data: seq<byte>, nodelay: bool)
    ensures var s := After(es);
            var r, w := After(es + [CallRead(id, want, nodelay)]), After(es + [CallWrite(id, data, nodelay)]);
            if id in s.calls then r == s && w == s
            else
              && id in r.calls && r.calls[id] == Reader(ReadReq(want, [], nodelay), Idle, 0)
              && id in w.calls && w.calls[id] == Writer(WriteReq(data, 0, false, nodelay), Idle, 0)
              && r == s.(calls := r.calls) && r.calls - {id} == s.calls
              && w == s.(calls := w.calls) && w.calls - {id} == s.calls
  {
    hide After, ReadStep, WriteStep, Inv;
    OneStep(es, CallRead(id, want, nodelay));
    OneStep(es, CallWrite(id, data, nodelay));
  }

  /** In every run, a reader that gets to run is given the bytes accepted and not delivered yet, up to its
      count. With none left it is told the end of the file if there is no writer; it waits on if and only if
      there is one, it may wait, and it has no signal. */
  lemma ReaderRuns(es: seq<Event>, id: nat, env: Env)
    requires id in After(es).calls && After(es).calls[id].Reader? && After(es).calls[id].o == Idle
    ensures var s, t := After(es), After(es + [Run(id, env)]);
            id in t.calls && t.calls[id].Reader?
    ensures var s, t := After(es), After(es + [Run(id, env)]);
            var r, o, n := s.calls[id].r, t.calls[id].o, |s.accepted| - |s.delivered|;
            && t.accepted == s.accepted && |t.delivered| == |s.delivered| + Min(r.want, n)
            && |t.calls[id].r.got| == Min(r.want, n)
            && (o == Returned(0) <==> r.want == 0 || (n == 0 && (env.writers == 0 || r.nodelay)))
            && (o == Idle <==> r.want > 0 && n == 0 && env.writers > 0 && !r.nodelay && !env.sig)
            && (o == Eintr <==> r.want > 0 && n == 0 && env.writers > 0 && !r.nodelay && env.sig)
            && (r.want > 0 && n > 0 ==> o == Returned(Min(r.want, n)))
  {
    hide After, ReadStep, WriteStep, WriterOk, Of, Tag;
    var s := After(es);
    OneStep(es, Run(id, env));
    ReadAnswers(s.ring, s.calls[id].r, env);
    ReadStepShape(s.ring, s.calls[id].r, env);
  }

  /** In every run, a writer that gets to run puts as many of its bytes as there is room for, if it has a
      reader; of a write that fits the empty pipe it puts all or none. It waits on if and only if there is no
      room for all of the rest, it may wait, and it has no signal. */
  lemma WriterRuns(es: seq<Event>, id: nat, env: Env)
    requires id in After(es).calls && After(es).calls[id].Writer? && After(es).calls[id].o == Idle
    ensures var s, t := After(es), After(es + [Run(id, env)]);
            id in t.calls && t.calls[id].Writer?
    ensures var s, t := After(es), After(es + [Run(id, env)]);
            var w, w', o := s.calls[id].w, t.calls[id].w, t.calls[id].o;
            var left, room := |w.data| - w.put, PIPE_BUF - (|s.accepted| - |s.delivered|);
            var small := |w.data| <= PIPE_BUF;
            && t.delivered == s.delivered && |t.accepted| == |s.accepted| + (w'.put - w.put)
            && w'.put - w.put == (if (small && room < left) || (env.readers == 0 && left > 0) then 0 else Min(left, room))
            && (o == Idle <==> room < left && !env.sig && !w.nodelay && (small || env.readers > 0))
            && (o == Eintr <==> room < left && env.sig && if small then !w.nodelay else env.readers > 0)
            && (o == Epipe <==> left > 0 && env.readers == 0 && !(small && room < left))
            && (o.Returned? ==> o.count == w'.put)
  {
    hide After, ReadStep, WriteStep, WriterOk, ReaderOk, Of, Tag, Plain;
    var s := After(es);
    OneStep(es, Run(id, env));
    WaitingSmall(s, id, s.calls[id]);
    WriteAnswers(s.ring, s.calls[id].w, env);
    WriteStepShape(s.ring, s.calls[id].w, env);
  }
}
