/** Bytes, 512-byte blocks, and the two views the kernel takes of a block: an
    array of 128 little-endian 32-bit words and an array of 4096 bits. */
module Bytes {
  const BLK_SIZE := 512
  const WORDS := 128

  type byte = x: int | 0 <= x < 256
  type u32 = x: int | 0 <= x < 0x1_0000_0000
  type Block = b: seq<byte> | |b| == BLK_SIZE witness seq(BLK_SIZE, _ => 0)

  const ZERO_BLOCK: Block := seq(BLK_SIZE, _ => 0)

  function Min(a: nat, b: nat): nat { if a < b then a else b }
  function Max(a: nat, b: nat): nat { if a < b then b else a }

  /** The number with these bytes, low byte first. */
  function Number(b0: byte, b1: byte, b2: byte, b3: byte): (n: u32) {
    b0 + 0x100 * b1 + 0x1_0000 * b2 + 0x100_0000 * b3
  }

  function Digits(n: u32): (b: seq<byte>)
    ensures |b| == 4
  {
    [n % 0x100, n / 0x100 % 0x100, n / 0x1_0000 % 0x100, n / 0x100_0000]
  }

  lemma NumberOfDigits(n: u32)
    ensures var b := Digits(n); Number(b[0], b[1], b[2], b[3]) == n
  {
    var q1 := n / 0x100;
    var q2 := n / 0x1_0000;
    assert q2 == q1 / 0x100;
    assert n / 0x100_0000 == q2 / 0x100;
    assert n == n % 0x100 + 0x100 * (q1 % 0x100) + 0x1_0000 * (q2 % 0x100) + 0x100_0000 * (q2 / 0x100);
  }

  /** The first byte of a number is the lowest. */
  lemma DigitsAre(n: u32)
    ensures Digits(n)[0] == n % 0x100 && Digits(n / 0x100)[..3] == Digits(n)[1..] && Digits(n / 0x100)[3] == 0
  {
    assert n / 0x100 / 0x100 == n / 0x1_0000 && n / 0x100 / 0x1_0000 == n / 0x100_0000;
  }

  lemma SameDigits(a0: byte, a1: byte, a2: byte, a3: byte, b0: byte, b1: byte, b2: byte, b3: byte)
    requires Number(a0, a1, a2, a3) == Number(b0, b1, b2, b3)
    ensures a0 == b0 && a1 == b1 && a2 == b2 && a3 == b3
  {
    assert Number(a0, a1, a2, a3) == a0 + 0x100 * (a1 + 0x100 * (a2 + 0x100 * a3));
    assert Number(b0, b1, b2, b3) == b0 + 0x100 * (b1 + 0x100 * (b2 + 0x100 * b3));
    SameDigit(a0, a1 + 0x100 * (a2 + 0x100 * a3), b0, b1 + 0x100 * (b2 + 0x100 * b3));
    SameDigit(a1, a2 + 0x100 * a3, b1, b2 + 0x100 * b3);
    SameDigit(a2, a3, b2, b3);
  }

  lemma SameDigit(a: byte, m: nat, b: byte, n: nat)
    requires a + 0x100 * m == b + 0x100 * n
    ensures a == b && m == n
  {
  }

  /** The i-th 32-bit word of a block. */
  function Word(b: Block, i: nat): (w: u32)
    requires i < WORDS
  {
    Number(b[4 * i], b[4 * i + 1], b[4 * i + 2], b[4 * i + 3])
  }

  /** The block after storing w as its i-th word. */
  function PutWord(b: Block, i: nat, w: u32): (r: Block)
    requires i < WORDS
  {
    var e := Digits(w);
    b[4 * i := e[0]][4 * i + 1 := e[1]][4 * i + 2 := e[2]][4 * i + 3 := e[3]]
  }

  lemma WordPutWord(b: Block, i: nat, w: u32, j: nat)
    requires i < WORDS && j < WORDS
    ensures Word(PutWord(b, i, w), j) == if i == j then w else Word(b, j)
  {
    hide Digits, Number;
    NumberOfDigits(w);
  }

  /** A block is known by its words. */
  lemma SameWords(a: Block, b: Block)
    requires forall i: nat :: i < WORDS ==> Word(a, i) == Word(b, i)
    ensures a == b
  {
    forall k: nat | k < BLK_SIZE ensures a[k] == b[k] {
      var i := k / 4;
      assert Word(a, i) == Word(b, i);
      SameDigits(a[4 * i], a[4 * i + 1], a[4 * i + 2], a[4 * i + 3], b[4 * i], b[4 * i + 1], b[4 * i + 2], b[4 * i + 3]);
      assert k == 4 * i + k % 4;
    }
  }

  lemma WordOfZero(i: nat)
    requires i < WORDS
    ensures Word(ZERO_BLOCK, i) == 0
  {}

  /** The block with src stored from offset start on. */
  function Patch(b: Block, start: nat, src: seq<byte>): (r: Block)
    requires start + |src| <= BLK_SIZE
  {
    b[..start] + src + b[start + |src|..]
  }

  /** Bit k of x, counted from the low end. */
  predicate Bit(x: nat, k: nat) {
    if k == 0 then x % 2 == 1 else Bit(x / 2, k - 1)
  }

  /** x with bit k set to v: x | 1 << k, or x & ~(1 << k). */
  function PutBit(x: nat, k: nat, v: bool): nat {
    if k == 0 then x / 2 * 2 + (if v then 1 else 0) else x % 2 + 2 * PutBit(x / 2, k - 1, v)
  }

  function Pow2(w: nat): nat {
    if w == 0 then 1 else 2 * Pow2(w - 1)
  }

  lemma {:induction false} BitPutBit(x: nat, k: nat, v: bool, j: nat)
    ensures Bit(PutBit(x, k, v), j) == if j == k then v else Bit(x, j)
  {
    if k > 0 && j > 0 {
      BitPutBit(x / 2, k - 1, v, j - 1);
    }
  }

  /** Bit k is the one worth Pow2(k). */
  lemma {:induction false} BitIs(x: nat, k: nat)
    ensures Pow2(k) > 0 && (Bit(x, k) <==> x / Pow2(k) % 2 == 1)
  {
    if k > 0 {
      BitIs(x / 2, k - 1);
      assert Pow2(k) == 2 * Pow2(k - 1);
      Pow2Positive(k - 1);
      DivTwice(x, Pow2(k - 1));
    }
  }

  lemma DivTwice(x: nat, n: nat)
    requires n > 0
    ensures x / (2 * n) == x / 2 / n
  {
    var q, r := x / 2 / n, x / 2 % n;
    assert x / 2 == q * n + r;
    assert x == (2 * n) * q + (2 * r + x % 2) && 2 * r + x % 2 < 2 * n;
    QuotientIs(x, 2 * n, q, 2 * r + x % 2);
  }

  lemma QuotientIs(x: nat, n: nat, q: nat, r: nat)
    requires r < n && x == n * q + r
    ensures x / n == q
  {
    var p := x / n;
    assert x == n * p + x % n;
    if p < q { Times(n, p, q); }
    if p > q { Times(n, q, p); }
  }

  lemma {:induction false} Times(n: nat, a: nat, b: nat)
    requires a < b
    ensures n * a + n <= n * b
    decreases b
  {
    assert n * b == n * (b - 1) + n;
    if a < b - 1 { Times(n, a, b - 1); }
  }

  lemma Pow2Positive(k: nat)
    ensures Pow2(k) > 0
  {
  }

  lemma {:induction false} PutBitFits(x: nat, k: nat, v: bool, w: nat)
    requires k < w && x < Pow2(w)
    ensures PutBit(x, k, v) < Pow2(w)
  {
    assert Pow2(w) == 2 * Pow2(w - 1);
    Halves(x, Pow2(w - 1));
    if k > 0 {
      PutBitFits(x / 2, k - 1, v, w - 1);
    }
  }

  lemma Halves(x: nat, n: nat)
    requires x < 2 * n
    ensures x / 2 < n && x == 2 * (x / 2) + x % 2
  {
  }

  /** The i-th bit of a bitmap. */
  predicate BitAt(m: seq<byte>, i: nat)
    requires i < 8 * |m|
  {
    Bit(m[i / 8], i % 8)
  }

  /** The byte that holds bit i of a bitmap after that bit is set to v. */
  function PutBitByte(m: seq<byte>, i: nat, v: bool): byte
    requires i < 8 * |m|
  {
    assert m[i / 8] < Pow2(8) == 256;
    PutBitFits(m[i / 8], i % 8, v, 8);
    PutBit(m[i / 8], i % 8, v)
  }

  lemma BitAtPut(m: seq<byte>, i: nat, v: bool, j: nat)
    requires i < 8 * |m| && j < 8 * |m|
    ensures BitAt(m[i / 8 := PutBitByte(m, i, v)], j) == if i == j then v else BitAt(m, j)
  {
    if i / 8 == j / 8 {
      BitPutBit(m[i / 8], i % 8, v, j % 8);
    }
  }
}
