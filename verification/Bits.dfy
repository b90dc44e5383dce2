/** Bit access to byte buffers, most significant bit first. */
module Bits {

  function Pow2(n: nat): (p: nat)
    ensures p >= 1
  {
    if n == 0 then 1 else 2 * Pow2(n - 1)
  }

  lemma {:induction false} Pow2Add(a: nat, b: nat)
    ensures Pow2(a + b) == Pow2(a) * Pow2(b)
  {
    if a == 0 {
    } else {
      Pow2Add(a - 1, b);
      assert 2 * (Pow2(a - 1) * Pow2(b)) == (2 * Pow2(a - 1)) * Pow2(b);
    }
  }

  // ---------------------------------------------------------------- bytes

  /** The byte whose only set bit is bit k, counted from the most significant. */
  function Unit(k: nat): bv8
    requires k < 8
  {
    if k == 0 then 0x80 else if k == 1 then 0x40 else if k == 2 then 0x20 else if k == 3 then 0x10
    else if k == 4 then 0x08 else if k == 5 then 0x04 else if k == 6 then 0x02 else 0x01
  }

  predicate ByteBit(b: bv8, k: nat)
    requires k < 8
  {
    b & Unit(k) != 0
  }

  lemma SetByteBit(b: bv8, k: nat, j: nat)
    requires k < 8 && j < 8
    ensures ByteBit(b | Unit(k), j) == (j == k || ByteBit(b, j))
    ensures ByteBit(b & !Unit(k), j) == (j != k && ByteBit(b, j))
  {
  }

  lemma ByteExtensionality(a: bv8, b: bv8)
    requires forall k | 0 <= k < 8 :: ByteBit(a, k) == ByteBit(b, k)
    ensures a == b
  {
    assert ByteBit(a, 0) == ByteBit(b, 0) && ByteBit(a, 1) == ByteBit(b, 1);
    assert ByteBit(a, 2) == ByteBit(b, 2) && ByteBit(a, 3) == ByteBit(b, 3);
    assert ByteBit(a, 4) == ByteBit(b, 4) && ByteBit(a, 5) == ByteBit(b, 5);
    assert ByteBit(a, 6) == ByteBit(b, 6) && ByteBit(a, 7) == ByteBit(b, 7);
  }

  /** Two bytes agree under a mask exactly when they agree on every bit the mask sets. */
  lemma MaskedByte(a: bv8, b: bv8, m: bv8)
    ensures a & m == b & m <==> forall k | 0 <= k < 8 :: ByteBit(m, k) ==> ByteBit(a, k) == ByteBit(b, k)
  {
    if forall k | 0 <= k < 8 :: ByteBit(m, k) ==> ByteBit(a, k) == ByteBit(b, k) {
      var am, bm := a & m, b & m;
      forall k | 0 <= k < 8
        ensures ByteBit(am, k) == ByteBit(bm, k)
      {
        AndByteBit(a, m, k);
        AndByteBit(b, m, k);
      }
      ByteExtensionality(am, bm);
    }
    if a & m == b & m {
      forall k | 0 <= k < 8 && ByteBit(m, k)
        ensures ByteBit(a, k) == ByteBit(b, k)
      {
        AndByteBit(a, m, k);
        AndByteBit(b, m, k);
      }
    }
  }

  lemma AndByteBit(a: bv8, m: bv8, k: nat)
    requires k < 8
    ensures ByteBit(a & m, k) == (ByteBit(a, k) && ByteBit(m, k))
  {
  }

  // -------------------------------------------------------------- buffers

  predicate BitAt(data: seq<bv8>, i: nat)
    requires i < 8 * |data|
  {
    ByteBit(data[i / 8], i % 8)
  }

  function SetBit(data: seq<bv8>, i: nat): (r: seq<bv8>)
    requires i < 8 * |data|
    ensures |r| == |data|
    ensures forall j: nat | j < 8 * |data| :: BitAt(r, j) == (j == i || BitAt(data, j))
  {
    var r := data[i / 8 := data[i / 8] | Unit(i % 8)];
    assert forall j: nat | j < 8 * |data| :: BitAt(r, j) == (j == i || BitAt(data, j)) by {
      forall j: nat | j < 8 * |data|
        ensures BitAt(r, j) == (j == i || BitAt(data, j))
      {
        SetByteBit(data[i / 8], i % 8, j % 8);
      }
    }
    r
  }

  function ClearBit(data: seq<bv8>, i: nat): (r: seq<bv8>)
    requires i < 8 * |data|
    ensures |r| == |data|
    ensures forall j: nat | j < 8 * |data| :: BitAt(r, j) == (j != i && BitAt(data, j))
  {
    var r := data[i / 8 := data[i / 8] & !Unit(i % 8)];
    assert forall j: nat | j < 8 * |data| :: BitAt(r, j) == (j != i && BitAt(data, j)) by {
      forall j: nat | j < 8 * |data|
        ensures BitAt(r, j) == (j != i && BitAt(data, j))
      {
        SetByteBit(data[i / 8], i % 8, j % 8);
      }
    }
    r
  }

  lemma BufferExtensionality(a: seq<bv8>, b: seq<bv8>)
    requires |a| == |b|
    requires forall i: nat | i < 8 * |a| :: BitAt(a, i) == BitAt(b, i)
    ensures a == b
  {
    forall n | 0 <= n < |a|
      ensures a[n] == b[n]
    {
      forall k | 0 <= k < 8
        ensures ByteBit(a[n], k) == ByteBit(b[n], k)
      {
        assert BitAt(a, 8 * n + k) == BitAt(b, 8 * n + k);
      }
      ByteExtensionality(a[n], b[n]);
    }
  }

  // -------------------------------------------------------------- numbers

  predicate NumBit(v: nat, k: nat) {
    v / Pow2(k) % 2 == 1
  }

  /** The number written in bits off .. off+n, most significant bit first. */
  function Num(data: seq<bv8>, off: nat, n: nat): (v: nat)
    requires off + n <= 8 * |data|
    ensures v < Pow2(n)
  {
    if n == 0 then 0 else 2 * Num(data, off, n - 1) + if BitAt(data, off + n - 1) then 1 else 0
  }

  lemma NumBitStep(v: nat, b: nat, k: nat)
    requires b < 2
    ensures NumBit(2 * v + b, 0) == (b == 1)
    ensures NumBit(2 * v + b, k + 1) == NumBit(v, k)
  {
    assert Pow2(0) == 1 && Pow2(k + 1) == 2 * Pow2(k);
    assert (2 * v + b) / 1 == 2 * v + b;
    HalvedPower(v, b, Pow2(k));
  }

  lemma HalvedPower(v: nat, b: nat, p: nat)
    requires b < 2 && p > 0
    ensures (2 * v + b) / (2 * p) == v / p
  {
    var q, r := v / p, v % p;
    assert 2 * (p * q) == (2 * p) * q;
    DivUnique(2 * v + b, 2 * p, q, 2 * r + b);
  }

  lemma DivUnique(x: int, d: int, q: int, r: int)
    requires d > 0 && 0 <= r < d && x == d * q + r
    ensures x / d == q && x % d == r
  {
    var k := q - x / d;
    assert d * k == x % d - r by {
      assert d * k == d * q - d * (x / d);
    }
    if k != 0 {
      ProductApart(d, k);
    }
  }

  lemma ProductApart(d: int, k: int)
    requires d > 0 && k != 0
    ensures d * k >= d || d * k <= -d
  {
    if k >= 1 {
      assert d * k >= d * 1;
    } else {
      assert d * k <= d * -1;
    }
  }

  /** A field read back digit by digit: bit i of the field is bit n-1-i of its number. */
  lemma {:induction false} NumBits(data: seq<bv8>, off: nat, n: nat, i: nat)
    requires off + n <= 8 * |data| && i < n
    ensures BitAt(data, off + i) == NumBit(Num(data, off, n), n - 1 - i)
  {
    var b := if BitAt(data, off + n - 1) then 1 else 0;
    var v := Num(data, off, n - 1);
    if i == n - 1 {
      NumBitStep(v, b, 0);
    } else {
      NumBitStep(v, b, n - 2 - i);
      NumBits(data, off, n - 1, i);
    }
  }

  /** The n bits at off spell the number v. */
  ghost predicate Spells(data: seq<bv8>, off: nat, n: nat, v: nat)
    requires off + n <= 8 * |data|
  {
    forall j: nat | off <= j < off + n :: BitAt(data, j) == NumBit(v, off + n - 1 - j)
  }

  /** Reading a field whose bits spell v gives v. */
  lemma {:induction false} NumOfBits(data: seq<bv8>, off: nat, n: nat, v: nat)
    requires off + n <= 8 * |data| && v < Pow2(n)
    requires Spells(data, off, n, v)
    ensures Num(data, off, n) == v
  {
    if n == 0 {
    } else {
      var w, b := v / 2, v % 2;
      assert v == 2 * w + b;
      NumBitStep(w, b, 0);
      assert Spells(data, off, n - 1, w) by {
        forall j: nat | off <= j < off + (n - 1)
          ensures BitAt(data, j) == NumBit(w, off + (n - 1) - 1 - j)
        {
          NumBitStep(w, b, off + (n - 1) - 1 - j);
        }
      }
      NumOfBits(data, off, n - 1, w);
      assert BitAt(data, off + n - 1) == NumBit(v, 0);
    }
  }

  /** The converse: a field spells the number read from it. */
  lemma {:induction false} NumSpells(data: seq<bv8>, off: nat, n: nat)
    requires off + n <= 8 * |data|
    ensures Spells(data, off, n, Num(data, off, n))
  {
    forall j: nat | off <= j < off + n
      ensures BitAt(data, j) == NumBit(Num(data, off, n), off + n - 1 - j)
    {
      NumBits(data, off, n, j - off);
    }
  }

  lemma {:induction false} NumDependsOnBits(a: seq<bv8>, b: seq<bv8>, off: nat, n: nat)
    requires off + n <= 8 * |a| && off + n <= 8 * |b|
    requires forall i: nat | off <= i < off + n :: BitAt(a, i) == BitAt(b, i)
    ensures Num(a, off, n) == Num(b, off, n)
  {
    if n > 0 {
      NumDependsOnBits(a, b, off, n - 1);
    }
  }

  function Digit(b: bv8, k: nat): nat
    requires k < 8
  {
    if ByteBit(b, k) then 1 else 0
  }

  /** The value of a byte is the sum of its bits' weights, the first bit's being the greatest. */
  lemma ByteValue(b: bv8)
    ensures b as int == 128 * Digit(b, 0) + 64 * Digit(b, 1) + 32 * Digit(b, 2) + 16 * Digit(b, 3) +
                        8 * Digit(b, 4) + 4 * Digit(b, 5) + 2 * Digit(b, 6) + Digit(b, 7)
  {
  }

  function BitValue(data: seq<bv8>, i: nat): nat
    requires i < 8 * |data|
  {
    if BitAt(data, i) then 1 else 0
  }

  lemma NumMore(data: seq<bv8>, off: nat, n: nat)
    requires off + n < 8 * |data|
    ensures Num(data, off, n + 1) == 2 * Num(data, off, n) + BitValue(data, off + n)
  {
    hide BitAt;
  }

  lemma Doubled(a: nat, p: nat)
    ensures a * (2 * p) == 2 * (a * p)
  {
  }

  /** Of adjacent runs the first holds the higher digits. */
  lemma {:induction false} NumJoin(data: seq<bv8>, off: nat, m: nat, n: nat)
    requires off + m + n <= 8 * |data|
    ensures Num(data, off, m + n) == Num(data, off, m) * Pow2(n) + Num(data, off + m, n)
  {
    hide BitAt, BitValue;
    if n == 0 {
      assert Pow2(0) == 1 && m + n == m;
    } else {
      assert Pow2(n) == 2 * Pow2(n - 1);
      hide Num, Pow2;
      NumJoin(data, off, m, n - 1);
      NumMore(data, off, m + n - 1);
      NumMore(data, off + m, n - 1);
      Doubled(Num(data, off, m), Pow2(n - 1));
    }
  }

  lemma NumFour(data: seq<bv8>, off: nat)
    requires off + 4 <= 8 * |data|
    ensures Num(data, off, 4) == 8 * BitValue(data, off) + 4 * BitValue(data, off + 1) +
                                 2 * BitValue(data, off + 2) + BitValue(data, off + 3)
  {
    NumMore(data, off, 0);
    NumMore(data, off, 1);
    NumMore(data, off, 2);
    NumMore(data, off, 3);
    assert Num(data, off, 0) == 0;
    hide Num, BitValue;
  }

  lemma BitOfByte(data: seq<bv8>, i: nat, k: nat)
    requires i < |data| && k < 8
    ensures BitValue(data, 8 * i + k) == Digit(data[i], k)
  {
  }

  /** The eight bits of a byte read as its value. */
  lemma ByteNum(data: seq<bv8>, i: nat)
    requires i < |data|
    ensures Num(data, 8 * i, 8) == data[i] as int
  {
    hide BitValue, Digit, Num;
    ByteValue(data[i]);
    forall k: nat | k < 8
      ensures BitValue(data, 8 * i + k) == Digit(data[i], k)
    {
      BitOfByte(data, i, k);
    }
    NumFour(data, 8 * i);
    NumFour(data, 8 * i + 4);
    NumJoin(data, 8 * i, 4, 4);
    assert Pow2(4) == 16;
  }

  /** The all-ones number of length n has every bit set. */
  lemma {:induction false} NumBitOnes(n: nat, k: nat)
    requires k < n
    ensures NumBit(Pow2(n) - 1, k)
  {
    NumBitStep(Pow2(n - 1) - 1, 1, 0);
    if k > 0 {
      NumBitStep(Pow2(n - 1) - 1, 1, k - 1);
      NumBitOnes(n - 1, k - 1);
    }
  }

  // --------------------------------------------------------- reads, writes

  /** data after the first i of the n single-bit writes of v at off. Zero bits are not written. */
  function WritePart(data: seq<bv8>, off: nat, n: nat, v: nat, i: nat): (r: seq<bv8>)
    requires i <= n && off + n <= 8 * |data|
    ensures |r| == |data|
    ensures forall j: nat | j < 8 * |data| ::
      BitAt(r, j) == (BitAt(data, j) || (off <= j < off + i && NumBit(v, off + n - 1 - j)))
  {
    if i == 0 then data
    else
      var d := WritePart(data, off, n, v, i - 1);
      if NumBit(v, n - i) then SetBit(d, off + i - 1) else d
  }

  function Write(data: seq<bv8>, off: nat, n: nat, v: nat): (r: seq<bv8>)
    requires off + n <= 8 * |data|
    ensures |r| == |data|
    ensures forall j: nat | j < 8 * |data| ::
      BitAt(r, j) == (BitAt(data, j) || (off <= j < off + n && NumBit(v, off + n - 1 - j)))
  {
    WritePart(data, off, n, v, n)
  }

  function Zeros(n: nat): (r: seq<bv8>)
    ensures |r| == n
    ensures forall j: nat | j < 8 * n :: !BitAt(r, j)
  {
    seq(n, _ => 0)
  }

  method BitsAt(data: seq<bv8>, off: nat, n: nat) returns (v: nat)
    requires off + n <= 8 * |data|
    ensures v == Num(data, off, n)
  {
    v := 0;
    for i := 0 to n
      invariant v == Num(data, off, i)
    {
      var bit := off + i;
      v := 2 * v + if ByteBit(data[bit / 8], bit % 8) then 1 else 0;
    }
  }

  method SetBits(data: array<bv8>, off: nat, n: nat, v: nat)
    requires off + n <= 8 * data.Length
    modifies data
    ensures data[..] == Write(old(data[..]), off, n, v)
  {
    ghost var was := data[..];
    for i := 0 to n
      invariant data[..] == WritePart(was, off, n, v, i)
    {
      var bit := off + i;
      if v / Pow2(n - 1 - i) % 2 == 1 {
        ghost var now := data[..];
        data[bit / 8] := data[bit / 8] | Unit(bit % 8);
        assert data[..] == SetBit(now, bit);
      }
    }
  }
}
