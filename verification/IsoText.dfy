/** The 6-bit character stream of non-GS1 tags (internal/tdt/iso/text.go). */
module IsoText {
  import opened Wrappers
  import opened Bits
  import opened Identity

  const WORD_BITS := 16

  const CODE_GS := 30
  const CODE_RS := 31
  const CODE_EOT := 33
  const CODE_FS := 35
  const CODE_US := 36

  /** The five codes that hold structural controls instead of characters. */
  predicate IsControl(code: nat) {
    code == CODE_GS || code == CODE_RS || code == CODE_EOT || code == CODE_FS || code == CODE_US
  }

  /** A structural control found in a stream, with its character position. */
  datatype Control = Control(code: nat, index: nat)

  datatype Text = Text(characters: string, controls: seq<Control>, residueBits: nat)

  /** Encodable characters: 0x20 through 0x5F without the five whose codes hold controls. */
  predicate Accepted(c: char) {
    0x20 <= c as int <= 0x5f && !IsControl(c as int % 64)
  }

  function ToCode(c: char): (code: nat)
    ensures code < 64
  {
    c as int % 64
  }

  function FromCode(code: nat): Option<char>
    requires code < 64
  {
    if IsControl(code) then None else if code < 0x20 then Some((code + 0x40) as char) else Some(code as char)
  }

  /** The two maps are inverse: accepted characters and the codes that are not controls correspond one to one. */
  lemma CodesInverse(c: char, code: nat)
    requires code < 64
    ensures Accepted(c) ==> FromCode(ToCode(c)) == Some(c)
    ensures FromCode(code).Some? <==> !IsControl(code)
    ensures FromCode(code).Some? ==> Accepted(FromCode(code).value) && ToCode(FromCode(code).value) == code
  {
  }

  // --------------------------------------------------------------- decoding

  function CodeAt(bits: seq<bv8>, i: nat): (code: nat)
    requires 6 * i + 6 <= 8 * |bits|
    ensures code < 64
  {
    assert Pow2(6) == 64;
    Num(bits, 6 * i, 6)
  }

  /** The first n codes read, characters and controls apart. */
  function Read(bits: seq<bv8>, n: nat): Text
    requires 6 * n <= 8 * |bits|
  {
    if n == 0 then Text("", [], 0)
    else
      var t, code := Read(bits, n - 1), CodeAt(bits, n - 1);
      match FromCode(code)
      case Some(c) => t.(characters := t.characters + [c])
      case None => t.(controls := t.controls + [Control(code, n - 1)])
  }

  function DecodeText(bits: seq<bv8>, bitLen: nat): Result<Text, Error> {
    if bitLen < 6 || 8 * |bits| < bitLen then Failure(Truncated)
    else Success(Read(bits, bitLen / 6).(residueBits := bitLen % 6))
  }

  method DecodeStream(bits: seq<bv8>, bitLen: nat) returns (r: Result<Text, Error>)
    ensures r == DecodeText(bits, bitLen)
  {
    if bitLen < 6 || 8 * |bits| < bitLen {
      return Failure(Truncated);
    }
    var count := bitLen / 6;
    var b, found := "", [];
    for i := 0 to count
      invariant Read(bits, i) == Text(b, found, 0)
    {
      var code := BitsAt(bits, i * 6, 6);
      assert code == CodeAt(bits, i);
      var c := FromCode(code);
      if c.Some? {
        b := b + [c.value];
      } else {
        found := found + [Control(code, i)];
      }
    }
    return Success(Text(b, found, bitLen - count * 6));
  }

  // --------------------------------------------------------------- encoding

  /** The first k characters written into the buffer. */
  function WriteCodes(data: seq<bv8>, text: string, k: nat): (r: seq<bv8>)
    requires k <= |text| && 6 * k <= 8 * |data|
    ensures |r| == |data|
  {
    if k == 0 then data else Write(WriteCodes(data, text, k - 1), 6 * (k - 1), 6, ToCode(text[k - 1]))
  }

  predicate AllAccepted(text: string) {
    forall i | 0 <= i < |text| :: Accepted(text[i])
  }

  function EncodeText(text: string): (r: Result<(seq<bv8>, nat), Error>) {
    if text == "" then Failure(FieldValue)
    else if !AllAccepted(text) then Failure(FieldValue)
    else if 6 * |text| % WORD_BITS != 0 then Failure(UnresolvedSemantics)
    else
      WholeWords(|text|);
      Success((WriteCodes(Zeros(6 * |text| / 8), text, |text|), 6 * |text|))
  }

  /** Six-bit codes fill whole words in groups of eight. */
  lemma WholeWords(n: nat)
    requires 6 * n % WORD_BITS == 0
    ensures n % 8 == 0 && 8 * (6 * n / 8) == 6 * n
  {
    var m := 6 * n / WORD_BITS;
    assert 6 * n == 16 * m;
    var t := 3 * m - n;
    assert n == 8 * t;
    DivUnique(n, 8, t, 0);
    DivUnique(6 * n, 8, 6 * t, 0);
  }

  method EncodeStream(text: string) returns (r: Result<(seq<bv8>, nat), Error>)
    ensures r == EncodeText(text)
  {
    hide Accepted, WriteCodes;
    if text == "" {
      return Failure(FieldValue);
    }
    for i := 0 to |text|
      invariant forall j | 0 <= j < i :: Accepted(text[j])
    {
      if !Accepted(text[i]) {
        return Failure(FieldValue);
      }
    }
    var bitLen := |text| * 6;
    if bitLen % WORD_BITS != 0 {
      return Failure(UnresolvedSemantics);
    }
    WholeWords(|text|);
    var bits := WriteStream(text, bitLen / 8);
    return Success((bits, bitLen));
  }

  method WriteStream(text: string, n: nat) returns (r: seq<bv8>)
    requires 6 * |text| <= 8 * n
    ensures r == WriteCodes(Zeros(n), text, |text|)
  {
    hide BitAt, ToCode, NumBit;
    var bits := new bv8[n](_ => 0);
    assert bits[..] == Zeros(n);
    for i := 0 to |text|
      invariant bits[..] == WriteCodes(Zeros(n), text, i)
    {
      SetBits(bits, i * 6, 6, ToCode(text[i]));
    }
    return bits[..];
  }

  // ----------------------------------------------------------- round trips

  /** Every bit of the written buffer comes from the code that covers it. */
  lemma {:induction false} WrittenBit(n: nat, text: string, k: nat, j: nat)
    requires k <= |text| && 6 * k <= 8 * n && j < 8 * n
    ensures BitAt(WriteCodes(Zeros(n), text, k), j) == (j < 6 * k && NumBit(ToCode(text[j / 6]), 5 - j % 6))
  {
    if k > 0 {
      WrittenBit(n, text, k - 1, j);
      hide NumBit, BitAt, ToCode;
      if 6 * (k - 1) <= j < 6 * k {
        assert j / 6 == k - 1 && 6 * (k - 1) + 5 - j == 5 - j % 6;
      }
    }
  }

  lemma WrittenCode(n: nat, text: string, i: nat)
    requires i < |text| && 6 * |text| <= 8 * n
    ensures CodeAt(WriteCodes(Zeros(n), text, |text|), i) == ToCode(text[i])
  {
    var data := WriteCodes(Zeros(n), text, |text|);
    hide NumBit, BitAt, ToCode, WriteCodes;
    assert Spells(data, 6 * i, 6, ToCode(text[i])) by {
      forall j: nat | 6 * i <= j < 6 * i + 6
        ensures BitAt(data, j) == NumBit(ToCode(text[i]), 6 * i + 5 - j)
      {
        WrittenBit(n, text, |text|, j);
        assert j / 6 == i && j % 6 == j - 6 * i;
      }
    }
    assert Pow2(6) == 64;
    NumOfBits(data, 6 * i, 6, ToCode(text[i]));
  }

  lemma {:induction false} ReadWritten(n: nat, text: string, k: nat)
    requires k <= |text| && 6 * |text| <= 8 * n && AllAccepted(text)
    ensures Read(WriteCodes(Zeros(n), text, |text|), k) == Text(text[..k], [], 0)
  {
    if k > 0 {
      ReadWritten(n, text, k - 1);
      WrittenCode(n, text, k - 1);
      CodesInverse(text[k - 1], 0);
      hide CodeAt, ToCode, FromCode, Accepted, WriteCodes;
      assert text[..k] == text[..k - 1] + [text[k - 1]];
    }
  }

  /** Encoded text is read back whole, without controls or residue. */
  lemma DecodeOfEncode(text: string, bits: seq<bv8>, bitLen: nat)
    requires EncodeText(text) == Success((bits, bitLen))
    ensures DecodeText(bits, bitLen) == Success(Text(text, [], 0))
    ensures bitLen == 6 * |text| == 8 * |bits| && |text| % 8 == 0 && bitLen % WORD_BITS == 0
  {
    hide WriteCodes, Read, Accepted, BitAt;
    WholeWords(|text|);
    ReadWritten(|bits|, text, |text|);
    assert text[..|text|] == text;
  }

  lemma {:induction false} ReadShape(bits: seq<bv8>, n: nat)
    requires 6 * n <= 8 * |bits|
    ensures |Read(bits, n).characters| + |Read(bits, n).controls| == n && AllAccepted(Read(bits, n).characters)
    ensures Read(bits, n).controls == [] ==>
              forall i: nat | i < n ::
                !IsControl(CodeAt(bits, i)) && ToCode(Read(bits, n).characters[i]) == CodeAt(bits, i)
  {
    if n > 0 {
      ReadShape(bits, n - 1);
      CodesInverse('A', CodeAt(bits, n - 1));
      hide CodeAt, ToCode, FromCode, Accepted, IsControl;
    }
  }

  /** A word-aligned stream without controls is what encoding its characters writes, bit for bit. */
  lemma EncodeOfDecode(bits: seq<bv8>, bitLen: nat, t: Text)
    requires DecodeText(bits, bitLen) == Success(t) && t.controls == [] && t.residueBits == 0 && bitLen % WORD_BITS == 0
    ensures EncodeText(t.characters) == Success((bits[..bitLen / 8], bitLen))
  {
    hide Read, CodeAt, ToCode, IsControl, Accepted, BitAt, WriteCodes, NumBit;
    var n := bitLen / 6;
    Aligned(bitLen);
    ReadShape(bits, n);
    WritesBack(bits, n, t.characters);
  }

  lemma Aligned(bitLen: nat)
    requires bitLen % 6 == 0 && bitLen % WORD_BITS == 0
    ensures bitLen == 6 * (bitLen / 6) && 6 * (bitLen / 6) % 8 == 0 && 6 * (bitLen / 6) % WORD_BITS == 0
  {
    var n, m := bitLen / 6, bitLen / WORD_BITS;
    assert bitLen == 6 * n && bitLen == 16 * m;
    DivUnique(bitLen, 8, 2 * m, 0);
  }

  lemma WritesBack(bits: seq<bv8>, n: nat, text: string)
    requires |text| == n && 6 * n % 8 == 0 && 6 * n <= 8 * |bits|
    requires forall i: nat | i < n :: ToCode(text[i]) == CodeAt(bits, i)
    ensures WriteCodes(Zeros(6 * n / 8), text, n) == bits[..6 * n / 8]
  {
    hide ToCode, CodeAt, BitAt, WriteCodes, NumBit;
    var m := 6 * n / 8;
    var own, written := bits[..m], WriteCodes(Zeros(m), text, n);
    forall j: nat | j < 8 * m
      ensures BitAt(written, j) == BitAt(own, j)
    {
      SameBit(bits, n, text, j);
      PrefixBit(bits, m, j);
    }
    BufferExtensionality(written, own);
  }

  lemma PrefixBit(bits: seq<bv8>, m: nat, j: nat)
    requires m <= |bits| && j < 8 * m
    ensures BitAt(bits[..m], j) == BitAt(bits, j)
  {
  }

  lemma SameBit(bits: seq<bv8>, n: nat, text: string, j: nat)
    requires |text| == n && 6 * n % 8 == 0 && 6 * n <= 8 * |bits| && j < 6 * n
    requires forall i: nat | i < n :: ToCode(text[i]) == CodeAt(bits, i)
    ensures BitAt(bits, j) == BitAt(WriteCodes(Zeros(6 * n / 8), text, n), j)
  {
    hide ToCode, BitAt, WriteCodes, NumBit;
    WrittenBit(6 * n / 8, text, n, j);
    NumBits(bits, 6 * (j / 6), 6, j % 6);
    assert ToCode(text[j / 6]) == CodeAt(bits, j / 6);
  }

  /** An unaligned stream has no encoding: padding it would need rules that are not established. */
  lemma UnalignedRefused(bits: seq<bv8>, bitLen: nat, t: Text)
    requires DecodeText(bits, bitLen) == Success(t) && t.controls == [] && t.residueBits == 0 && bitLen % WORD_BITS != 0
    ensures EncodeText(t.characters) == Failure(UnresolvedSemantics)
  {
    ReadShape(bits, bitLen / 6);
  }

  /** Reading never looks beyond the significant bits. */
  lemma {:induction false} ReadPrefix(bits: seq<bv8>, m: nat, n: nat)
    requires m <= |bits| && 6 * n <= 8 * m
    ensures Read(bits[..m], n) == Read(bits, n)
  {
    if n > 0 {
      ReadPrefix(bits, m, n - 1);
      NumDependsOnBits(bits[..m], bits, 6 * (n - 1), 6);
    }
  }

  /** What a stream without controls says: each character is the one whose low six bits are the code. */
  lemma Characters(bits: seq<bv8>, bitLen: nat, t: Text)
    requires DecodeText(bits, bitLen) == Success(t)
    ensures 6 <= bitLen <= 8 * |bits| && t.residueBits == bitLen % 6
    ensures t.controls == [] <==>
              forall i: nat | i < bitLen / 6 :: CodeAt(bits, i) !in {30, 31, 33, 35, 36}
    ensures t.controls == [] ==> |t.characters| == bitLen / 6 && forall i: nat | i < bitLen / 6 ::
              0x20 <= t.characters[i] as int <= 0x5f && t.characters[i] as int % 64 == Num(bits, 6 * i, 6)
  {
    ReadShape(bits, bitLen / 6);
    ReadControls(bits, bitLen / 6);
    hide Read;
  }

  lemma {:induction false} ReadControls(bits: seq<bv8>, n: nat)
    requires 6 * n <= 8 * |bits|
    ensures Read(bits, n).controls == [] <==> forall i: nat | i < n :: !IsControl(CodeAt(bits, i))
  {
    if n > 0 {
      ReadControls(bits, n - 1);
      assert Read(bits, n).controls == [] <==> Read(bits, n - 1).controls == [] && !IsControl(CodeAt(bits, n - 1));
      hide Read, CodeAt, IsControl;
    }
  }
}
