/** uuencode and uudecode, cmd/bin: lines of up to 45 bytes, three bytes to four characters. */
module Uu {
  import opened Bytes

  const LINE := 45
  const BUFSZ := 256
  const NL: byte := 10
  const SPACE: byte := 32
  const BACKQUOTE: byte := 96
  const END: seq<byte> := [101, 110, 100]

  /** The byte at i, or the zero the encoder's buffer is padded with. */
  function At(data: seq<byte>, i: nat): byte {
    if i < |data| then data[i] else 0
  }

  /** The four characters for three bytes. */
  function Quad(a: byte, b: byte, c: byte): (q: seq<byte>)
    ensures |q| == 4 && forall i :: 0 <= i < 4 ==> SPACE <= q[i] < BACKQUOTE
  {
    var w := a * 0x1_0000 + b * 0x100 + c;
    [SPACE + w / 0x4_0000, SPACE + w / 0x1000 % 64, SPACE + w / 64 % 64, SPACE + w % 64]
  }

  /** The characters for the bytes from i on. */
  function Quads(data: seq<byte>, i: nat): (q: seq<byte>)
    ensures forall k :: 0 <= k < |q| ==> SPACE <= q[k] < BACKQUOTE
    ensures |q| == if i >= |data| then 0 else (|data| - i + 2) / 3 * 4
    decreases |data| - i
  {
    if i >= |data| then [] else Quad(data[i], At(data, i + 1), At(data, i + 2)) + Quads(data, i + 3)
  }

  /** The text of one line, without its newline. */
  function Line(data: seq<byte>): (l: seq<byte>)
    requires |data| <= LINE
    ensures |l| <= 61 && forall k :: 0 <= k < |l| ==> SPACE <= l[k] <= BACKQUOTE
  {
    [if data == [] then BACKQUOTE else SPACE + |data|] + Quads(data, 0)
  }

  /** uuencode1 on a buffer whose bytes from len on are zero. */
  method Uuencode1(buf: array<byte>, len: nat) returns (text: seq<byte>)
    requires buf.Length == LINE && len <= LINE
    requires forall i :: len <= i < LINE ==> buf[i] == 0
    ensures text == Line(buf[..len]) + [NL]
  {
    hide Quad;
    ghost var data := buf[..len];
    text := [if len != 0 then SPACE + len else BACKQUOTE];
    ghost var head := text;
    var p := 0;
    for i := 0 to (len + 2) / 3
      invariant p == 3 * i
      invariant head + Quads(data, 0) == text + Quads(data, p)
    {
      assert buf[p] == data[p] && buf[p + 1] == At(data, p + 1) && buf[p + 2] == At(data, p + 2);
      text := text + Quad(buf[p], buf[p + 1], buf[p + 2]);
      p := p + 3;
    }
    text := text + [NL];
  }

  /** The lines and the final "end" that the encoder writes for its whole input. */
  function Encoded(input: seq<byte>): seq<byte>
  {
    if input == [] then Line([]) + [NL] + END + [NL]
    else
      var n := if |input| < LINE then |input| else LINE;
      Line(input[..n]) + [NL] + Encoded(input[n..])
  }

  /** The fgetc loop of main in uuencode: the next bytes of the input, in a zeroed buffer. */
  method Fill(input: seq<byte>, pos: nat, buf: array<byte>) returns (i: nat)
    requires pos <= |input| && buf.Length == LINE
    modifies buf
    ensures i == if |input| - pos < LINE then |input| - pos else LINE
    ensures buf[..i] == input[pos..pos + i]
    ensures forall k :: i <= k < LINE ==> buf[k] == 0
  {
    forall k | 0 <= k < LINE { buf[k] := 0; }
    i := 0;
    while i < LINE
      invariant i <= LINE && pos + i <= |input| && buf[..i] == input[pos..pos + i]
      invariant forall k :: i <= k < LINE ==> buf[k] == 0
    {
      if pos + i == |input| { return; }
      buf[i] := input[pos + i];
      i := i + 1;
    }
  }

  /** One line off the front of the text; n is the number of bytes Fill finds. */
  lemma EncodedNext(input: seq<byte>, pos: nat, n: nat)
    requires pos <= |input| && n == if |input| - pos < LINE then |input| - pos else LINE
    ensures Encoded(input[pos..]) == Line(input[pos..pos + n]) + [NL] + if n == 0 then END + [NL] else Encoded(input[pos + n..])
  {
    var rest := input[pos..];
    assert rest[..n] == input[pos..pos + n] && rest[n..] == input[pos + n..];
    if n == 0 {
      assert input[pos..pos + n] == [];
    }
  }

  /** The loop of main in uuencode, and its last line. */
  method Encode(input: seq<byte>) returns (text: seq<byte>)
    ensures text == Encoded(input)
  {
    hide Line, Encoded;
    text := [];
    assert input[0..] == input;
    var buf := new byte[LINE];
    var pos := 0;
    while true
      invariant pos <= |input| && Encoded(input) == text + Encoded(input[pos..])
      decreases |input| - pos
    {
      var i := Fill(input, pos, buf);
      EncodedNext(input, pos, i);
      var line := Uuencode1(buf, i);
      ghost var tail := if i == 0 then END + [NL] else Encoded(input[pos + i..]);
      assert text + (line + tail) == text + line + tail;
      text := text + line;
      pos := pos + i;
      if i == 0 { break; }
    }
    text := text + (END + [NL]);
  }

  /** (c - ' ') & 63 */
  function Sextet(c: byte): (x: nat)
    ensures x < 64
  {
    (c + SPACE) % 64
  }

  /** The three bytes of a 24-bit number. */
  function Unpack(w: nat): (t: seq<byte>)
    requires w < 0x100_0000
    ensures |t| == 3
  {
    [w / 0x1_0000, w / 0x100 % 0x100, w % 0x100]
  }

  /** The three bytes for four characters. */
  function Triple(a: byte, b: byte, c: byte, d: byte): (t: seq<byte>)
    ensures |t| == 3
  {
    Unpack(Sextet(a) * 0x4_0000 + Sextet(b) * 0x1000 + Sextet(c) * 64 + Sextet(d))
  }

  /** len bytes from the groups of four characters that start at p. */
  function Groups(buf: seq<byte>, p: nat, len: nat): seq<byte>
    requires p + (len + 2) / 3 * 4 <= |buf|
    decreases len
  {
    if len == 0 then []
    else
      assert (len + 2) / 3 >= 1 && (len >= 3 ==> (len - 3 + 2) / 3 == (len + 2) / 3 - 1);
      var t := Triple(buf[p], buf[p + 1], buf[p + 2], buf[p + 3]);
      if len < 3 then t[..len] else t + Groups(buf, p + 4, len - 3)
  }

  datatype Answer = Bad | Wrote(b: seq<byte>)

  /** What uudecode1 makes of the line in a buffer. */
  function Unline(buf: seq<byte>): Answer
    requires |buf| == BUFSZ
  {
    var len := buf[0] - SPACE;
    if len < 0 || len > 64 then Bad else Wrote(Groups(buf, 1, if len == 64 then 0 else len))
  }

  /** uudecode1 */
  method Uudecode1(buf: array<byte>) returns (r: Answer)
    requires buf.Length == BUFSZ
    ensures r == Unline(buf[..])
  {
    hide Triple;
    var len := buf[0] - SPACE;
    if len < 0 || len > 64 { return Bad; }
    if len == 64 { len := 0; }
    var p := 1;
    var out := [];
    ghost var want := Groups(buf[..], 1, len);
    while len > 0
      invariant 0 <= len <= 63 && p + (len + 2) / 3 * 4 <= BUFSZ
      invariant want == out + Groups(buf[..], p, len)
    {
      var t := Triple(buf[p], buf[p + 1], buf[p + 2], buf[p + 3]);
      p := p + 4;
      var n := if len < 3 then len else 3;
      out := out + t[..n];
      len := len - n;
    }
    r := Wrote(out);
  }

  /** A 24-bit number is put together again from its sextets. */
  lemma Sextets(w: nat)
    requires w < 0x100_0000
    ensures w / 0x4_0000 < 64
    ensures w / 0x4_0000 * 0x4_0000 + w / 0x1000 % 64 * 0x1000 + w / 64 % 64 * 64 + w % 64 == w
  {
    var x := w / 64;
    var y := x / 64;
    assert y == w / 0x1000 && y / 64 == w / 0x4_0000;
  }

  lemma UnpackPacked(a: byte, b: byte, c: byte)
    ensures var w: nat := a * 0x1_0000 + b * 0x100 + c; w < 0x100_0000 && Unpack(w) == [a, b, c]
  {
    var ab: nat := a * 0x100 + b;
    assert (ab * 0x100 + c) / 0x100 == ab && ab / 0x100 == a;
  }

  lemma TripleOfQuad(a: byte, b: byte, c: byte)
    ensures var q := Quad(a, b, c); Triple(q[0], q[1], q[2], q[3]) == [a, b, c]
  {
    hide Sextet, Unpack;
    var w: nat := a * 0x1_0000 + b * 0x100 + c;
    Sextets(w);
    SextetOfSpaced(w / 0x4_0000);
    SextetOfSpaced(w / 0x1000 % 64);
    SextetOfSpaced(w / 64 % 64);
    SextetOfSpaced(w % 64);
    UnpackPacked(a, b, c);
  }

  /** The bytes of "Cat" are the line "#0V%T". */
  lemma CatLine()
    ensures Line([67, 97, 116]) == [35, 48, 86, 37, 84]
  {
    assert Quads([67, 97, 116], 3) == [];
  }

  lemma SextetOfSpaced(x: nat)
    requires x < 64
    ensures Sextet(SPACE + x) == x
  {}

  /** Only the last six bits of a character count, so that a backquote does for a blank. */
  lemma SextetMod(c: byte, d: byte)
    requires c % 64 == d % 64
    ensures Sextet(c) == Sextet(d)
  {}

  /** The characters from p on stand for those of q, in whatever of their forms. */
  ghost predicate Spells(buf: seq<byte>, p: nat, q: seq<byte>) {
    p + |q| <= |buf| && forall k: nat :: k < |q| ==> buf[p + k] % 64 == q[k] % 64
  }

  /** Where a stretch of the buffer stands for four characters and a rest. */
  lemma FourAndRest(buf: seq<byte>, p: nat, q: seq<byte>, rest: seq<byte>)
    requires |q| == 4 && Spells(buf, p, q + rest)
    ensures forall k: nat :: k < 4 ==> Sextet(buf[p + k]) == Sextet(q[k])
    ensures Spells(buf, p + 4, rest)
  {
    hide Sextet;
    forall k: nat | k < 4 ensures Sextet(buf[p + k]) == Sextet(q[k]) {
      assert (q + rest)[k] == q[k];
      SextetMod(buf[p + k], q[k]);
    }
    forall k: nat | k < |rest| ensures buf[p + 4 + k] % 64 == rest[k] % 64 {
      assert (q + rest)[4 + k] == rest[k] && buf[p + (4 + k)] % 64 == (q + rest)[4 + k] % 64;
    }
  }

  lemma {:induction false} GroupsOfQuads(data: seq<byte>, i: nat, buf: seq<byte>, p: nat)
    requires i <= |data| && Spells(buf, p, Quads(data, i))
    ensures Groups(buf, p, |data| - i) == data[i..]
    decreases |data| - i
  {
    hide Quad, Sextet, Unpack, Spells;
    SpellsFits(buf, p, Quads(data, i));
    if i < |data| {
      var a, b, c := data[i], At(data, i + 1), At(data, i + 2);
      TripleOfQuad(a, b, c);
      FourAndRest(buf, p, Quad(a, b, c), Quads(data, i + 3));
      if i + 3 <= |data| {
        GroupsOfQuads(data, i + 3, buf, p + 4);
      }
    }
  }

  lemma SpellsFits(buf: seq<byte>, p: nat, q: seq<byte>)
    requires Spells(buf, p, q)
    ensures p + |q| <= |buf|
  {
  }

  /** A line of up to 63 bytes, spelled in any way, gives its bytes; a first character out of range is a bad
      line, and there is no other. */
  lemma AnyLineDecodes(data: seq<byte>, buf: seq<byte>)
    requires |buf| == BUFSZ
    ensures Unline(buf) == Bad <==> buf[0] < SPACE || buf[0] > BACKQUOTE
    ensures |data| < 64 && (buf[0] == SPACE + |data| || (data == [] && buf[0] == BACKQUOTE)) && Spells(buf, 1, Quads(data, 0)) ==>
              Unline(buf) == Wrote(data)
  {
    hide Quad, Triple, Spells;
    if |data| < 64 && Spells(buf, 1, Quads(data, 0)) {
      GroupsOfQuads(data, 0, buf, 1);
    }
  }

  /** Decoding an encoded line gives back its bytes, whatever follows it in the buffer. */
  lemma LineRoundTrip(data: seq<byte>, buf: seq<byte>)
    requires |data| <= LINE && |buf| == BUFSZ && Line(data) <= buf
    ensures Unline(buf) == Wrote(data)
  {
    hide Quad, Unline, Quads;
    assert buf[0] == Line(data)[0];
    forall k: nat | k < |Quads(data, 0)| ensures buf[1 + k] == Quads(data, 0)[k] {
      assert buf[1 + k] == Line(data)[1 + k];
    }
    AnyLineDecodes(data, buf);
  }

  /** The position of the first x, or the length. */
  function IndexOf(b: seq<byte>, x: byte): (n: nat)
    ensures n <= |b| && (n < |b| ==> b[n] == x) && forall i :: 0 <= i < n ==> b[i] != x
  {
    if b == [] || b[0] == x then 0 else 1 + IndexOf(b[1..], x)
  }

  /** How much of the text one fgets takes: a line with its newline, or the unfinished line at
      the end of the text. Nothing (the null pointer) if there is neither within BUFSZ - 1 bytes,
      or if what is left at the end is empty or begins with a zero byte. */
  function Taken(text: seq<byte>): (n: nat)
    ensures n <= |text| && n < BUFSZ
  {
    var n := IndexOf(text, NL);
    if n >= BUFSZ - 1 then 0
    else if n < |text| then n + 1
    else if text != [] && text[0] != 0 then n
    else 0
  }

  /** The buffer after fgets: the text taken, a zero, and what was there before. */
  function Loaded(buf: seq<byte>, l: seq<byte>): (b: seq<byte>)
    requires |buf| == BUFSZ && |l| < BUFSZ
    ensures |b| == BUFSZ
  {
    l + [0] + buf[|l| + 1..]
  }

  /** The buffer with the first newline of its string, if it has one, turned into its end. */
  function Chomped(buf: seq<byte>): (b: seq<byte>)
    requires |buf| == BUFSZ
    ensures |b| == BUFSZ
  {
    var n := IndexOf(buf, NL);
    if n < IndexOf(buf, 0) then buf[n := 0] else buf
  }

  /** !strcmp(buf, "end") */
  predicate IsEnd(buf: seq<byte>)
    requires |buf| == BUFSZ
  {
    buf[..4] == END + [0]
  }

  /** How the decoder stops: at "end", at the end of the text, or at a bad line. */
  datatype Stop = AtEnd | AtEof | AtBadLine

  /** What the decoder has written by the time it stops. */
  function Decoded(text: seq<byte>, buf: seq<byte>): (r: (seq<byte>, Stop))
    requires |buf| == BUFSZ
    decreases |text|
  {
    if Taken(text) == 0 then ([], AtEof)
    else
      var b := Chomped(Loaded(buf, text[..Taken(text)]));
      if IsEnd(b) then ([], AtEnd)
      else if Unline(b) == Bad then ([], AtBadLine)
      else
        var (rest, stop) := Decoded(text[Taken(text)..], b);
        (Unline(b).b + rest, stop)
  }

  /** fgets: the number of bytes taken, 0 for the null pointer. */
  method Fgets(text: seq<byte>, buf: array<byte>) returns (n: nat)
    requires buf.Length == BUFSZ
    modifies buf
    ensures n == Taken(text)
    ensures n > 0 || |text| < BUFSZ - 1 ==> buf[..] == Loaded(old(buf[..]), if n > 0 then text[..n] else text)
    ensures n == 0 && |text| >= BUFSZ - 1 ==> buf[..] == text[..BUFSZ - 1] + old(buf[..])[BUFSZ - 1..]
  {
    hide IndexOf, Taken, Loaded;
    var i := 0;
    while i < BUFSZ - 1
      invariant i <= BUFSZ - 1 && i <= |text| && NL !in text[..i]
      invariant forall j :: 0 <= j < BUFSZ ==> buf[j] == if j < i then text[j] else old(buf[j])
    {
      TakenBy(text, i);
      if i == |text| {
        buf[i] := 0;
        LoadedIs(old(buf[..]), buf[..], text, i);
        return if buf[0] == 0 then 0 else i;
      }
      buf[i] := text[i];
      i := i + 1;
      if text[i - 1] == NL {
        buf[i] := 0;
        LoadedIs(old(buf[..]), buf[..], text, i);
        return i;
      }
    }
    TakenBy(text, i);
    n := 0;
  }

  lemma LoadedIs(was: seq<byte>, now: seq<byte>, text: seq<byte>, i: nat)
    requires |was| == |now| == BUFSZ && i < BUFSZ && i <= |text|
    requires forall j :: 0 <= j < BUFSZ ==> now[j] == if j < i then text[j] else if j == i then 0 else was[j]
    ensures now == Loaded(was, text[..i]) && (i == |text| ==> text[..i] == text)
  {
    assert forall j :: 0 <= j < BUFSZ ==> Loaded(was, text[..i])[j] == now[j];
  }

  /** What is taken when the first i bytes have no newline. */
  lemma TakenBy(text: seq<byte>, i: nat)
    requires i <= |text| && i <= BUFSZ - 1 && NL !in text[..i]
    ensures i == BUFSZ - 1 ==> Taken(text) == 0
    ensures i < BUFSZ - 1 && i == |text| ==> Taken(text) == if i == 0 || text[0] == 0 then 0 else i
    ensures i < BUFSZ - 1 && i < |text| && text[i] == NL ==> Taken(text) == i + 1
  {
    assert forall j :: 0 <= j < i ==> text[..i][j] == text[j];
  }

  /** The string in a buffer: what comes before the first zero byte. */
  function Str(buf: seq<byte>): seq<byte> { buf[..IndexOf(buf, 0)] }

  /** The cut at the newline that uudecode makes after fgets: the string loses its first newline and
      what follows that, and no other byte changes. */
  method Chomp(buf: array<byte>)
    requires buf.Length == BUFSZ
    modifies buf
    ensures Str(buf[..]) == Str(old(buf[..]))[..IndexOf(Str(old(buf[..])), NL)]
    ensures forall i :: 0 <= i < BUFSZ && i != |Str(buf[..])| ==> buf[i] == old(buf[i])
  {
    ghost var was := buf[..];
    var p := IndexOf(buf[..], NL);
    FirstOf(was, NL);
    if p < IndexOf(buf[..], 0) {
      buf[p] := 0;
      IndexIs(buf[..], 0, p);
    }
  }

  lemma IndexIs(b: seq<byte>, x: byte, n: nat)
    requires n <= |b| && (n < |b| ==> b[n] == x) && forall i :: 0 <= i < n ==> b[i] != x
    ensures IndexOf(b, x) == n
  {
  }

  /** The first newline of the string is the first of the buffer if that comes before the first zero. */
  lemma FirstOf(buf: seq<byte>, x: byte)
    requires x != 0
    ensures IndexOf(Str(buf), x) == Min(IndexOf(buf, x), IndexOf(buf, 0))
  {
    IndexIs(Str(buf), x, Min(IndexOf(buf, x), IndexOf(buf, 0)));
  }

  /** What Chomp promises leaves one buffer only. */
  lemma ChompedIs(was: seq<byte>, now: seq<byte>)
    requires |was| == |now| == BUFSZ && Str(now) == Str(was)[..IndexOf(Str(was), NL)]
    requires forall i :: 0 <= i < BUFSZ && i != |Str(now)| ==> now[i] == was[i]
    ensures now == Chomped(was)
  {
    FirstOf(was, NL);
    assert |Str(now)| < BUFSZ ==> now[|Str(now)|] == 0;
    assert forall i :: 0 <= i < BUFSZ ==> now[i] == Chomped(was)[i];
  }

  /** out was written before the decoder got to what d is about. */
  function After(out: seq<byte>, d: (seq<byte>, Stop)): (seq<byte>, Stop) { (out + d.0, d.1) }

  /** What the decoder does with the next line. */
  lemma DecodedStep(text: seq<byte>, buf: seq<byte>)
    requires |buf| == BUFSZ && Taken(text) > 0
    ensures var b := Chomped(Loaded(buf, text[..Taken(text)]));
            var rest := Decoded(text[Taken(text)..], b);
            Decoded(text, buf) ==
              if IsEnd(b) then ([], AtEnd) else if Unline(b) == Bad then ([], AtBadLine) else (Unline(b).b + rest.0, rest.1)
  {
    hide Taken, Loaded, Chomped, IsEnd, Unline;
  }

  lemma AfterAll(out: seq<byte>, line: seq<byte>, d: (seq<byte>, Stop))
    ensures After(out, (line + d.0, d.1)) == After(out + line, d) && After(out, ([], d.1)) == (out, d.1)
  {
    assert out + (line + d.0) == out + line + d.0 && out + [] == out;
  }

  lemma DecodedNext(text: seq<byte>, pos: nat, buf: seq<byte>, out: seq<byte>)
    requires |buf| == BUFSZ && pos <= |text| && Taken(text[pos..]) > 0
    ensures var n := Taken(text[pos..]);
            var b := Chomped(Loaded(buf, text[pos..][..n]));
            After(out, Decoded(text[pos..], buf)) ==
              if IsEnd(b) then (out, AtEnd) else if Unline(b) == Bad then (out, AtBadLine)
              else After(out + Unline(b).b, Decoded(text[pos + n..], b))
  {
    hide Taken, Loaded, Chomped, IsEnd, Unline, Decoded, After;
    var n := Taken(text[pos..]);
    var b := Chomped(Loaded(buf, text[pos..][..n]));
    assert text[pos..][n..] == text[pos + n..];
    DecodedStep(text[pos..], buf);
    AfterAll(out, [], ([], AtEnd));
    AfterAll(out, [], ([], AtBadLine));
    if Unline(b) != Bad { AfterAll(out, Unline(b).b, Decoded(text[pos + n..], b)); }
  }

  /** The line loop of uudecode. */
  method Decode(text: seq<byte>, buf: array<byte>) returns (out: seq<byte>, stop: Stop)
    requires buf.Length == BUFSZ
    modifies buf
    ensures (out, stop) == Decoded(text, old(buf[..]))
  {
    hide Unline, Loaded, Chomped, Taken, IsEnd, Decoded, IndexOf, Str;
    out := [];
    var pos := 0;
    assert text[0..] == text && [] + Decoded(text, buf[..]).0 == Decoded(text, buf[..]).0;
    while true
      invariant pos <= |text| && After(out, Decoded(text[pos..], buf[..])) == Decoded(text, old(buf[..]))
      decreases |text| - pos
    {
      ghost var was := buf[..];
      var n := Fgets(text[pos..], buf);
      if n == 0 {
        DecodedNothing(text[pos..], was, out);
        return out, AtEof;
      }
      DecodedNext(text, pos, was, out);
      ghost var loaded := buf[..];
      Chomp(buf);
      ChompedIs(loaded, buf[..]);
      pos := pos + n;
      EndIsEnd(buf[..]);
      if buf[..4] == END + [0] {
        return out, AtEnd;
      }
      var r := Uudecode1(buf);
      if r == Bad {
        return out, AtBadLine;
      }
      out := out + r.b;
    }
  }

  lemma DecodedNothing(text: seq<byte>, buf: seq<byte>, out: seq<byte>)
    requires |buf| == BUFSZ && Taken(text) == 0
    ensures After(out, Decoded(text, buf)) == (out, AtEof)
  {
    assert out + [] == out;
  }

  lemma EndIsEnd(buf: seq<byte>)
    requires |buf| == BUFSZ
    ensures IsEnd(buf) <==> buf[..4] == END + [0]
  {}

  lemma IndexOfFirst(a: seq<byte>, b: seq<byte>, x: byte)
    requires x !in a
    ensures IndexOf(a + [x] + b, x) == |a|
  {
    var s := a + [x] + b;
    assert s[|a|] == x && forall i :: 0 <= i < |a| ==> s[i] == a[i];
  }

  /** An encoded line comes out of fgets whole, and never reads as "end". */
  lemma LineTaken(data: seq<byte>, rest: seq<byte>, buf: seq<byte>)
    requires |data| <= LINE && |buf| == BUFSZ
    ensures var text := Line(data) + [NL] + rest;
            var b := Chomped(Loaded(buf, text[..Taken(text)]));
            && Taken(text) > 0 && text[Taken(text)..] == rest
            && Line(data) <= b && !IsEnd(b)
  {
    var l := Line(data);
    var text := l + [NL] + rest;
    assert NL !in l && 0 !in l;
    IndexOfFirst(l, rest, NL);
    assert Taken(text) == |l| + 1;
    assert text[..|l| + 1] == l + [NL];
    var c := Loaded(buf, l + [NL]);
    var tail := buf[|l| + 2..];
    assert c == l + [NL] + ([0] + tail) && c == l + [NL] + [0] + tail;
    IndexOfFirst(l, [0] + tail, NL);
    IndexOfFirst(l + [NL], tail, 0);
    assert Chomped(c)[0] == l[0];
  }

  /** "end" stops the decoder. */
  lemma EndTaken(rest: seq<byte>, buf: seq<byte>)
    requires |buf| == BUFSZ
    ensures var text := END + [NL] + rest; Taken(text) > 0 && IsEnd(Chomped(Loaded(buf, text[..Taken(text)])))
  {
    var text := END + [NL] + rest;
    IndexOfFirst(END, rest, NL);
    assert text[..4] == END + [NL];
    var c := Loaded(buf, END + [NL]);
    var tail := buf[5..];
    assert c == END + [NL] + ([0] + tail) && c == END + [NL] + [0] + tail;
    IndexOfFirst(END, [0] + tail, NL);
    IndexOfFirst(END + [NL], tail, 0);
  }

  /** Decoding what the encoder writes gives back its input and stops at "end", whatever follows
      and whatever was in the line buffer. */
  lemma {:induction false} StreamRoundTrip(input: seq<byte>, tail: seq<byte>, buf: seq<byte>)
    requires |buf| == BUFSZ
    ensures Decoded(Encoded(input) + tail, buf) == (input, AtEnd)
    decreases |input|
  {
    hide Line, Unline, Loaded, Chomped, Taken, IsEnd;
    var n := if |input| < LINE then |input| else LINE;
    var line := input[..n];
    EncodedNext(input, 0, n);
    assert input[0..] == input && input[0..n] == line;
    var rest := if n == 0 then END + [NL] else Encoded(input[n..]);
    var text := Encoded(input) + tail;
    assert text == Line(line) + [NL] + (rest + tail);
    LineTaken(line, rest + tail, buf);
    var b := Chomped(Loaded(buf, text[..Taken(text)]));
    LineRoundTrip(line, b);
    if n == 0 {
      EndTaken(tail, b);
      assert rest + tail == END + [NL] + tail;
    } else {
      StreamRoundTrip(input[n..], tail, b);
      assert input == line + input[n..];
    }
  }
}
