/** Pipes, kern/fs/pipe.c: the ring buffer, and readers and writers that lose the
    processor only where they call idle(). */
module Pipe {
  import opened Bytes

  const PIPE_BUF := 4096

  /** What a process sees when it gets to run: whether it has a signal pending, and
      how many ends of the pipe are open. */
  datatype Env = Env(sig: bool, readers: nat, writers: nat)

  /** How a stretch of pipe_read or pipe_write ends: with a call to idle(), with a
      successful return of a count, or with an error. */
  datatype Outcome = Idle | Returned(count: nat) | Eintr | Epipe

  /** A read in progress: the count asked for and the bytes delivered so far. */
  datatype ReadReq = ReadReq(want: nat, got: seq<byte>, nodelay: bool)

  /** A write in progress: its data, how many bytes are in the ring or past it, and
      whether the first wait of pipe_write is over. */
  datatype WriteReq = WriteReq(data: seq<byte>, put: nat, begun: bool, nodelay: bool)

  /** len bytes of a ring, from position start on and round its end. */
  ghost function Unrolled(ring: seq<byte>, start: nat, len: nat): (c: seq<byte>)
    requires |ring| == PIPE_BUF
    ensures |c| == len
    ensures forall i: nat :: i < len ==> c[i] == ring[(start + i) % PIPE_BUF]
  {
    seq(len, i requires 0 <= i => ring[(start + i) % PIPE_BUF])
  }

  lemma UnrolledHead(ring: seq<byte>, start: nat, len: nat)
    requires |ring| == PIPE_BUF && start < PIPE_BUF && len > 0
    ensures Unrolled(ring, start, len) == [ring[start]] + Unrolled(ring, (start + 1) % PIPE_BUF, len - 1)
  {
    var tail := Unrolled(ring, (start + 1) % PIPE_BUF, len - 1);
    forall i: nat | 0 < i < len ensures Unrolled(ring, start, len)[i] == tail[i - 1] {
      assert (start + i) % PIPE_BUF == ((start + 1) % PIPE_BUF + (i - 1)) % PIPE_BUF;
    }
  }

  lemma UnrolledPut(ring: seq<byte>, start: nat, len: nat, c: byte)
    requires |ring| == PIPE_BUF && start < PIPE_BUF && len < PIPE_BUF
    ensures Unrolled(ring[(start + len) % PIPE_BUF := c], start, len + 1) == Unrolled(ring, start, len) + [c]
  {
    var ring' := ring[(start + len) % PIPE_BUF := c];
    forall i: nat | i < len ensures Unrolled(ring', start, len + 1)[i] == Unrolled(ring, start, len)[i] {
      assert (start + i) % PIPE_BUF != (start + len) % PIPE_BUF;
    }
  }

  /** The pipe, the request and the outcome after one stretch of pipe_read. */
  function ReadStep(c: seq<byte>, r: ReadReq, e: Env): (n: (seq<byte>, ReadReq, Outcome))
    requires |r.got| <= r.want
  {
    var k := Min(r.want - |r.got|, |c|);
    var r' := r.(got := r.got + c[..k]);
    var o :=
      if |r'.got| == r.want || |r'.got| > 0 || r.nodelay || e.writers == 0 then Returned(|r'.got|)
      else if e.sig then Eintr else Idle;
    (c[k..], r', o)
  }

  /** The pipe, the request and the outcome after one stretch of pipe_write. */
  function WriteStep(c: seq<byte>, w: WriteReq, e: Env): (n: (seq<byte>, WriteReq, Outcome))
    requires w.put <= |w.data| && |c| <= PIPE_BUF
  {
    if !w.begun && |w.data| <= PIPE_BUF && PIPE_BUF - |c| < |w.data| then
      (c, w, if w.nodelay then Returned(0) else if e.sig then Eintr else Idle)
    else if w.put == |w.data| then (c, w.(begun := true), Returned(|w.data|))
    else if e.readers == 0 then (c, w.(begun := true), Epipe)
    else
      var k := Min(|w.data| - w.put, PIPE_BUF - |c|);
      var w' := w.(begun := true, put := w.put + k);
      var o :=
        if w'.put == |w.data| then Returned(|w.data|)
        else if e.sig then Eintr
        else if w.nodelay then Returned(w'.put)
        else Idle;
      (c + w.data[w.put..w'.put], w', o)
  }

  class Ring {
    const buf: array<byte>
    var wrp: nat
    var rdp: nat
    var datlen: nat

    constructor ()
      ensures Valid() && fresh(buf) && Contents() == []
    {
      buf := new byte[PIPE_BUF];
      wrp, rdp, datlen := 0, 0, 0;
    }

    ghost predicate Valid()
      reads this
    {
      buf.Length == PIPE_BUF && rdp < PIPE_BUF && datlen <= PIPE_BUF && wrp == (rdp + datlen) % PIPE_BUF
    }

    /** The bytes in the pipe, oldest first. */
    ghost function Contents(): (c: seq<byte>)
      requires Valid()
      reads this, buf
    {
      Unrolled(buf[..], rdp, datlen)
    }

    /** pipe_getc; the panic on an empty pipe is the precondition. */
    method Getc() returns (c: byte)
      requires Valid() && datlen > 0
      modifies this
      ensures Valid() && old(Contents()) == [c] + Contents()
    {
      UnrolledHead(buf[..], rdp, datlen);
      datlen := datlen - 1;
      c := buf[rdp];
      rdp := (rdp + 1) % PIPE_BUF;
    }

    /** pipe_putc; the panic on a full pipe is the precondition. */
    method Putc(c: byte)
      requires Valid() && datlen < PIPE_BUF
      modifies this, buf
      ensures Valid() && Contents() == old(Contents()) + [c]
    {
      UnrolledPut(buf[..], rdp, datlen, c);
      ghost var ring := buf[..];
      datlen := datlen + 1;
      buf[wrp] := c;
      assert buf[..] == ring[wrp := c];
      wrp := (wrp + 1) % PIPE_BUF;
    }

    /** pipe_read, from its call or from its idle() to the next idle() or its return. */
    method Read(r: ReadReq, e: Env) returns (r': ReadReq, o: Outcome)
      requires Valid() && |r.got| <= r.want
      modifies this, buf
      ensures Valid() && (Contents(), r', o) == ReadStep(old(Contents()), r, e)
    {
      hide Unrolled;
      var count := r.want - |r.got|;
      var got := r.got;
      while count > 0
        invariant 0 <= count && |got| + count == r.want && Valid()
        invariant |r.got| <= |got| && |got| - |r.got| <= |old(Contents())|
        invariant got == r.got + old(Contents())[..|got| - |r.got|]
        invariant Contents() == old(Contents())[|got| - |r.got|..]
      {
        if datlen == 0 {
          r' := r.(got := got);
          if count != r.want || r.nodelay || e.writers == 0 {
            return r', Returned(r.want - count);
          }
          if e.sig { return r', Eintr; }
          return r', Idle;
        }
        var ch := Getc();
        got := got + [ch];
        count := count - 1;
      }
      return r.(got := got), Returned(r.want);
    }

    /** pipe_write, from its call or from its idle() to the next idle() or its return. */
    method Write(w: WriteReq, e: Env) returns (w': WriteReq, o: Outcome)
      requires Valid() && w.put <= |w.data|
      modifies this, buf
      ensures Valid() && (Contents(), w', o) == WriteStep(old(Contents()), w, e)
    {
      var want := |w.data|;
      if !w.begun && want <= PIPE_BUF && PIPE_BUF - datlen < want {
        if w.nodelay { return w, Returned(0); }
        if e.sig { return w, Eintr; }
        return w, Idle;
      }
      var put := w.put;
      while put < want
        invariant w.put <= put <= want && Valid()
        invariant Contents() == old(Contents()) + w.data[w.put..put]
        invariant e.readers == 0 ==> put == w.put
      {
        w' := w.(begun := true, put := put);
        if e.readers == 0 { return w', Epipe; }
        if datlen == PIPE_BUF {
          if e.sig { return w', Eintr; }
          if w.nodelay { return w', Returned(put); }
          return w', Idle;
        }
        Putc(w.data[put]);
        put := put + 1;
      }
      return w.(begun := true, put := put), Returned(want);
    }
  }
}
