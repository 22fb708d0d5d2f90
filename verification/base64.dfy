/** The base64 alphabet and padding of section 4 of RFC 4648, as used by
    `Convert.ToBase64String` on the producer side and
    `Convert.FromBase64String` in the worker. */
module Base64 {
  import opened Wrappers
  import opened Bytes

  type sextet = x: int | 0 <= x < 64

  /** The character of the base64 alphabet that encodes `x`. */
  function CharOf(x: sextet): (c: char)
    ensures IsBase64Char(c)
  {
    if x < 26 then ('A' as int + x) as char
    else if x < 52 then ('a' as int + (x - 26)) as char
    else if x < 62 then ('0' as int + (x - 52)) as char
    else if x == 62 then '+'
    else '/'
  }

  predicate IsBase64Char(c: char) {
    ('A' <= c <= 'Z') || ('a' <= c <= 'z') || ('0' <= c <= '9') || c == '+' || c == '/'
  }

  /** The value of an alphabet character; `None` for anything else,
      including the pad character `=`. */
  function ValueOf(c: char): (r: Option<sextet>)
    ensures r.Some? <==> IsBase64Char(c)
    ensures r.Some? ==> CharOf(r.value) == c
  {
    if 'A' <= c <= 'Z' then Some(c as int - 'A' as int)
    else if 'a' <= c <= 'z' then Some(c as int - 'a' as int + 26)
    else if '0' <= c <= '9' then Some(c as int - '0' as int + 52)
    else if c == '+' then Some(62)
    else if c == '/' then Some(63)
    else None
  }

  lemma ValueOfCharOf(x: sextet)
    ensures ValueOf(CharOf(x)) == Some(x)
  {
  }

  /** Four characters for three bytes. */
  function EncodeBlock(b0: byte, b1: byte, b2: byte): string {
    [CharOf(b0 / 4), CharOf((b0 % 4) * 16 + b1 / 16), CharOf((b1 % 16) * 4 + b2 / 64), CharOf(b2 % 64)]
  }

  /** The padded last quantum for the one or two bytes left over. */
  function EncodeFinal(b: seq<byte>): (s: string)
    requires |b| < 3
  {
    if |b| == 0 then ""
    else if |b| == 1 then [CharOf(b[0] / 4), CharOf((b[0] % 4) * 16), '=', '=']
    else [CharOf(b[0] / 4), CharOf((b[0] % 4) * 16 + b[1] / 16), CharOf((b[1] % 16) * 4), '=']
  }

  /** The padded encoding of a byte string. */
  function Encode(b: seq<byte>): (s: string)
  {
    if |b| < 3 then EncodeFinal(b)
    else EncodeBlock(b[0], b[1], b[2]) + Encode(b[3..])
  }

  /** Every three bytes, or the one or two left over, become four
      characters. */
  lemma {:induction false} EncodeLength(b: seq<byte>)
    ensures |Encode(b)| == 4 * ((|b| + 2) / 3)
  {
    if |b| >= 3 {
      EncodeLength(b[3..]);
      EncodeUnfold(b);
      var n := |b| - 3;
      assert (n + 3 + 2) / 3 == (n + 2) / 3 + 1;
    } else {
      assert Encode(b) == EncodeFinal(b);
    }
  }

  /** Three bytes from four sextets. */
  function DecodeBlock(c0: sextet, c1: sextet, c2: sextet, c3: sextet): seq<byte> {
    [c0 * 4 + c1 / 16, (c1 % 16) * 16 + c2 / 4, (c2 % 4) * 64 + c3]
  }

  /** A quantum of four alphabet characters. */
  function DecodeQuantum(q: string): (r: Option<seq<byte>>)
    requires |q| == 4
    ensures r.Some? ==> |r.value| == 3
  {
    match (ValueOf(q[0]), ValueOf(q[1]), ValueOf(q[2]), ValueOf(q[3]))
    case (Some(c0), Some(c1), Some(c2), Some(c3)) => Some(DecodeBlock(c0, c1, c2, c3))
    case _ => None
  }

  /** The last quantum, which alone may carry one or two pad characters.
      Bits below the last significant sextet are ignored, not checked. */
  function DecodeFinal(q: string): (r: Option<seq<byte>>)
    requires |q| == 4
    ensures r.Some? ==> 1 <= |r.value| <= 3
  {
    if DecodeQuantum(q).Some? then DecodeQuantum(q)
    else if q[3] != '=' then None
    else match (ValueOf(q[0]), ValueOf(q[1]), ValueOf(q[2]))
      case (Some(c0), Some(c1), Some(c2)) => Some(DecodeBlock(c0, c1, c2, 0)[..2])
      case (Some(c0), Some(c1), None) =>
        if q[2] == '=' then Some(DecodeBlock(c0, c1, 0, 0)[..1]) else None
      case _ => None
  }

  /** `Convert.FromBase64String` without its whitespace skipping: the input
      length must be a multiple of four, every character must belong to the
      alphabet, and `=` may appear only as padding of the last quantum. */
  function Decode(s: string): (r: Option<seq<byte>>)
  {
    if |s| == 0 then Some([])
    else if |s| < 4 then None
    else if |s| == 4 then DecodeFinal(s)
    else if DecodeQuantum(s[..4]).None? then None
    else match Decode(s[4..])
      case Some(rest) => Some(DecodeQuantum(s[..4]).value + rest)
      case None => None
  }

  lemma BlockArithmetic(b0: byte, b1: byte, b2: byte)
    ensures (b0 / 4) * 4 + ((b0 % 4) * 16 + b1 / 16) / 16 == b0
    ensures (((b0 % 4) * 16 + b1 / 16) % 16) * 16 + ((b1 % 16) * 4 + b2 / 64) / 4 == b1
    ensures (((b1 % 16) * 4 + b2 / 64) % 4) * 64 + b2 % 64 == b2
  {
  }

  lemma DecodeShort(s: string)
    requires |s| <= 4 && Decode(s).Some?
    ensures |s| == 0 || |s| == 4
  {
  }

  lemma DecodeTail(s: string)
    requires |s| > 4 && Decode(s).Some?
    ensures Decode(s[4..]).Some?
  {
  }

  lemma AddFour(n: nat)
    requires n % 4 == 0
    ensures (n + 4) % 4 == 0
  {
  }

  /** A string that decodes has a length that is a multiple of four, as
      `Convert.FromBase64String` demands. */
  lemma {:induction false} DecodeLength(s: string)
    requires Decode(s).Some?
    ensures |s| % 4 == 0
  {
    if |s| > 4 {
      DecodeTail(s);
      DecodeLength(s[4..]);
      AddFour(|s[4..]|);
      assert |s| == |s[4..]| + 4;
    } else {
      DecodeShort(s);
    }
  }

  /** Four alphabet characters decode to the block of their values. */
  lemma QuantumOfChars(c0: sextet, c1: sextet, c2: sextet, c3: sextet)
    ensures DecodeQuantum([CharOf(c0), CharOf(c1), CharOf(c2), CharOf(c3)]) == Some(DecodeBlock(c0, c1, c2, c3))
  {
    ValueOfCharOf(c0);
    ValueOfCharOf(c1);
    ValueOfCharOf(c2);
    ValueOfCharOf(c3);
  }

  lemma QuantumOfBlock(b0: byte, b1: byte, b2: byte)
    ensures DecodeQuantum(EncodeBlock(b0, b1, b2)) == Some([b0, b1, b2])
  {
    var c0, c1, c2, c3 := b0 / 4, (b0 % 4) * 16 + b1 / 16, (b1 % 16) * 4 + b2 / 64, b2 % 64;
    assert EncodeBlock(b0, b1, b2) == [CharOf(c0), CharOf(c1), CharOf(c2), CharOf(c3)];
    QuantumOfChars(c0, c1, c2, c3);
    BlockArithmetic(b0, b1, b2);
    assert DecodeBlock(c0, c1, c2, c3) == [b0, b1, b2];
  }

  lemma DecodePaddedTwo(q: string, c0: sextet, c1: sextet)
    requires |q| == 4 && ValueOf(q[0]) == Some(c0) && ValueOf(q[1]) == Some(c1)
    requires q[2] == '=' && q[3] == '='
    ensures Decode(q) == Some(DecodeBlock(c0, c1, 0, 0)[..1])
  {
  }

  lemma DecodePaddedOne(q: string, c0: sextet, c1: sextet, c2: sextet)
    requires |q| == 4 && ValueOf(q[0]) == Some(c0) && ValueOf(q[1]) == Some(c1) && ValueOf(q[2]) == Some(c2)
    requires q[3] == '='
    ensures Decode(q) == Some(DecodeBlock(c0, c1, c2, 0)[..2])
  {
  }

  lemma OneArithmetic(b0: byte)
    ensures DecodeBlock(b0 / 4, (b0 % 4) * 16, 0, 0)[..1] == [b0]
  {
    var r := b0 % 4;
    assert (r * 16) / 16 == r;
    assert (b0 / 4) * 4 + r == b0;
  }

  lemma TwoArithmetic(b0: byte, b1: byte)
    ensures DecodeBlock(b0 / 4, (b0 % 4) * 16 + b1 / 16, (b1 % 16) * 4, 0)[..2] == [b0, b1]
  {
    var r0, q1, r1 := b0 % 4, b1 / 16, b1 % 16;
    assert 0 <= q1 < 16;
    assert (r0 * 16 + q1) / 16 == r0;
    assert (r0 * 16 + q1) % 16 == q1;
    assert (r1 * 4) / 4 == r1;
    assert (b0 / 4) * 4 + r0 == b0;
    assert q1 * 16 + r1 == b1;
  }

  lemma EncodeOfOne(b: seq<byte>)
    requires |b| == 1
    ensures Encode(b) == [CharOf(b[0] / 4), CharOf((b[0] % 4) * 16), '=', '=']
  {
  }

  lemma EncodeOfTwo(b: seq<byte>)
    requires |b| == 2
    ensures Encode(b) == [CharOf(b[0] / 4), CharOf((b[0] % 4) * 16 + b[1] / 16), CharOf((b[1] % 16) * 4), '=']
  {
  }

  lemma CharsPaddedTwo(c0: sextet, c1: sextet)
    ensures Decode([CharOf(c0), CharOf(c1), '=', '=']) == Some(DecodeBlock(c0, c1, 0, 0)[..1])
  {
    ValueOfCharOf(c0);
    ValueOfCharOf(c1);
    DecodePaddedTwo([CharOf(c0), CharOf(c1), '=', '='], c0, c1);
  }

  lemma CharsPaddedOne(c0: sextet, c1: sextet, c2: sextet)
    ensures Decode([CharOf(c0), CharOf(c1), CharOf(c2), '=']) == Some(DecodeBlock(c0, c1, c2, 0)[..2])
  {
    ValueOfCharOf(c0);
    ValueOfCharOf(c1);
    ValueOfCharOf(c2);
    DecodePaddedOne([CharOf(c0), CharOf(c1), CharOf(c2), '='], c0, c1, c2);
  }

  lemma FinalOfOne(b: seq<byte>)
    requires |b| == 1
    ensures Decode(Encode(b)) == Some(b)
  {
    ShortSeq(b);
    EncodeOfOne(b);
    CharsPaddedTwo(b[0] / 4, (b[0] % 4) * 16);
    OneArithmetic(b[0]);
  }

  lemma FinalOfTwo(b: seq<byte>)
    requires |b| == 2
    ensures Decode(Encode(b)) == Some(b)
  {
    ShortSeq(b);
    EncodeOfTwo(b);
    CharsPaddedOne(b[0] / 4, (b[0] % 4) * 16 + b[1] / 16, (b[1] % 16) * 4);
    TwoArithmetic(b[0], b[1]);
  }

  /** Decoding proceeds quantum by quantum. */
  lemma DecodeConcat(q: string, rest: string, head: seq<byte>, tail: seq<byte>)
    requires |q| == 4 && DecodeQuantum(q) == Some(head)
    requires |rest| > 0 && Decode(rest) == Some(tail)
    ensures Decode(q + rest) == Some(head + tail)
  {
    var s := q + rest;
    assert s[..4] == q;
    assert s[4..] == rest;
  }

  lemma FinalOfThree(b: seq<byte>)
    requires |b| == 3
    ensures Decode(Encode(b)) == Some(b)
  {
    var q := EncodeBlock(b[0], b[1], b[2]);
    QuantumOfBlock(b[0], b[1], b[2]);
    EncodeUnfold(b);
    assert Encode(b[3..]) == [];
    assert Encode(b) == q;
    assert Decode(q) == DecodeFinal(q) == DecodeQuantum(q);
    ShortSeq(b);
  }

  lemma ShortSeq<T>(b: seq<T>)
    requires |b| <= 3
    ensures |b| == 1 ==> b == [b[0]]
    ensures |b| == 2 ==> b == [b[0], b[1]]
    ensures |b| == 3 ==> b == [b[0], b[1], b[2]]
  {
  }

  lemma SplitHead<T>(b: seq<T>)
    requires |b| >= 3
    ensures b == [b[0], b[1], b[2]] + b[3..]
  {
  }

  lemma EncodeUnfold(b: seq<byte>)
    requires |b| >= 3
    ensures Encode(b) == EncodeBlock(b[0], b[1], b[2]) + Encode(b[3..])
  {
  }

  lemma DecodeEncodeStep(b: seq<byte>)
    requires |b| > 3 && Decode(Encode(b[3..])) == Some(b[3..])
    ensures Decode(Encode(b)) == Some(b)
  {
    SplitHead(b);
    EncodeUnfold(b);
    QuantumOfBlock(b[0], b[1], b[2]);
    DecodeConcat(EncodeBlock(b[0], b[1], b[2]), Encode(b[3..]), [b[0], b[1], b[2]], b[3..]);
  }

  lemma ShortDecodeEncode(b: seq<byte>)
    requires |b| <= 3
    ensures Decode(Encode(b)) == Some(b)
  {
    if |b| == 1 {
      FinalOfOne(b);
    } else if |b| == 2 {
      FinalOfTwo(b);
    } else if |b| == 3 {
      FinalOfThree(b);
    }
  }

  /** What the worker's decoding step recovers is exactly what the producer
      encoded. */
  lemma {:induction false} DecodeEncode(b: seq<byte>)
    ensures Decode(Encode(b)) == Some(b)
  {
    if |b| <= 3 {
      ShortDecodeEncode(b);
    } else {
      DecodeEncode(b[3..]);
      DecodeEncodeStep(b);
    }
  }

  /** A string is canonical when its unused trailing bits are zero, which
      is what every encoder emits. */
  predicate Canonical(s: string) {
    |s| >= 4 ==>
      var q := s[|s| - 4..];
      (q[3] == '=' && q[2] != '=' ==> ValueOf(q[2]).Some? && ValueOf(q[2]).value % 4 == 0)
      && (q[2] == '=' ==> ValueOf(q[1]).Some? && ValueOf(q[1]).value % 16 == 0)
  }

  /** Canonicity is a property of the last quantum only. */
  lemma CanonicalConcat(q: string, rest: string)
    requires |rest| >= 4
    ensures Canonical(q + rest) == Canonical(rest)
  {
    assert (q + rest)[|q + rest| - 4..] == rest[|rest| - 4..];
  }

  /** A single quantum is canonical when its padding hides only zero bits. */
  lemma QuantumCanonical(q: string)
    requires |q| == 4
    requires q[3] == '=' && q[2] != '=' ==> ValueOf(q[2]).Some? && ValueOf(q[2]).value % 4 == 0
    requires q[2] == '=' ==> ValueOf(q[1]).Some? && ValueOf(q[1]).value % 16 == 0
    ensures Canonical(q)
  {
    assert q[|q| - 4..] == q;
  }

  lemma OneCanonical(b0: byte)
    ensures Canonical(Encode([b0]))
  {
    var x := (b0 % 4) * 16;
    ValueOfCharOf(x);
    QuantumCanonical([CharOf(b0 / 4), CharOf(x), '=', '=']);
  }

  lemma TwoCanonical(b0: byte, b1: byte)
    ensures Canonical(Encode([b0, b1]))
  {
    var x := (b1 % 16) * 4;
    ValueOfCharOf(x);
    QuantumCanonical([CharOf(b0 / 4), CharOf((b0 % 4) * 16 + b1 / 16), CharOf(x), '=']);
  }

  lemma ThreeCanonical(b0: byte, b1: byte, b2: byte)
    ensures Canonical(Encode([b0, b1, b2]))
  {
    EncodeUnfold([b0, b1, b2]);
    assert [b0, b1, b2][3..] == [];
    QuantumCanonical(EncodeBlock(b0, b1, b2));
  }

  lemma {:induction false} EncodeCanonical(b: seq<byte>)
    ensures Canonical(Encode(b))
  {
    if |b| == 1 {
      OneCanonical(b[0]);
      assert b == [b[0]];
    } else if |b| == 2 {
      TwoCanonical(b[0], b[1]);
      assert b == [b[0], b[1]];
    } else if |b| == 3 {
      ThreeCanonical(b[0], b[1], b[2]);
      assert b == [b[0], b[1], b[2]];
    } else if |b| > 3 {
      EncodeCanonical(b[3..]);
      CanonicalConcat(EncodeBlock(b[0], b[1], b[2]), Encode(b[3..]));
    }
  }

  lemma TwoBytesArithmetic(c0: sextet, c1: sextet, c2: sextet)
    requires c2 % 4 == 0
    ensures var b := DecodeBlock(c0, c1, c2, 0);
      b[0] / 4 == c0 && (b[0] % 4) * 16 + b[1] / 16 == c1 && (b[1] % 16) * 4 == c2
  {
    QuantumArithmetic(c0, c1, c2, 0);
  }

  lemma OneByteArithmetic(c0: sextet, c1: sextet)
    requires c1 % 16 == 0
    ensures var b := DecodeBlock(c0, c1, 0, 0);
      b[0] / 4 == c0 && (b[0] % 4) * 16 == c1
  {
    QuantumArithmetic(c0, c1, 0, 0);
  }

  lemma PaddedTwoEncodeDecode(q: string)
    requires |q| == 4 && DecodeQuantum(q).None? && q[3] == '='
    requires ValueOf(q[0]).Some? && ValueOf(q[1]).Some? && ValueOf(q[2]).Some?
    requires ValueOf(q[2]).value % 4 == 0
    ensures DecodeFinal(q).Some? && Encode(DecodeFinal(q).value) == q
  {
    var c0, c1, c2 := ValueOf(q[0]).value, ValueOf(q[1]).value, ValueOf(q[2]).value;
    var b := DecodeBlock(c0, c1, c2, 0)[..2];
    assert DecodeFinal(q) == Some(b);
    TwoBytesArithmetic(c0, c1, c2);
    EncodeOfTwo(b);
    assert q == [CharOf(c0), CharOf(c1), CharOf(c2), '='];
  }

  lemma PaddedOneEncodeDecode(q: string)
    requires |q| == 4 && q[2] == '=' && q[3] == '='
    requires ValueOf(q[0]).Some? && ValueOf(q[1]).Some?
    requires ValueOf(q[1]).value % 16 == 0
    ensures DecodeFinal(q).Some? && Encode(DecodeFinal(q).value) == q
  {
    var c0, c1 := ValueOf(q[0]).value, ValueOf(q[1]).value;
    var b := DecodeBlock(c0, c1, 0, 0)[..1];
    assert DecodeFinal(q) == Some(b);
    OneByteArithmetic(c0, c1);
    EncodeOfOne(b);
    assert q == [CharOf(c0), CharOf(c1), '=', '='];
  }

  lemma UnpaddedEncodeDecode(q: string)
    requires |q| == 4 && DecodeQuantum(q).Some?
    ensures DecodeFinal(q).Some? && Encode(DecodeFinal(q).value) == q
  {
    QuantumEncodeDecode(q);
    var b := DecodeQuantum(q).value;
    EncodeUnfold(b);
    assert Encode(b[3..]) == [];
  }

  /** The last quantum of a canonical string is the encoding of what it
      decodes to. */
  lemma FinalEncodeDecode(q: string)
    requires |q| == 4 && Canonical(q)
    requires DecodeFinal(q).Some?
    ensures Encode(DecodeFinal(q).value) == q
  {
    assert q[|q| - 4..] == q;
    if DecodeQuantum(q).Some? {
      UnpaddedEncodeDecode(q);
    } else if ValueOf(q[2]).Some? {
      PaddedTwoEncodeDecode(q);
    } else {
      PaddedOneEncodeDecode(q);
    }
  }

  lemma QuantumArithmetic(c0: sextet, c1: sextet, c2: sextet, c3: sextet)
    ensures var b0, b1, b2 := c0 * 4 + c1 / 16, (c1 % 16) * 16 + c2 / 4, (c2 % 4) * 64 + c3;
      && b0 / 4 == c0 && (b0 % 4) * 16 + b1 / 16 == c1
      && (b1 % 16) * 4 + b2 / 64 == c2 && b2 % 64 == c3
  {
  }

  lemma BlockOfSextets(c0: sextet, c1: sextet, c2: sextet, c3: sextet)
    ensures var b := DecodeBlock(c0, c1, c2, c3);
      EncodeBlock(b[0], b[1], b[2]) == [CharOf(c0), CharOf(c1), CharOf(c2), CharOf(c3)]
  {
    QuantumArithmetic(c0, c1, c2, c3);
    var b := DecodeBlock(c0, c1, c2, c3);
    var x0, x1, x2, x3 := b[0] / 4, (b[0] % 4) * 16 + b[1] / 16, (b[1] % 16) * 4 + b[2] / 64, b[2] % 64;
    assert x0 == c0 && x1 == c1 && x2 == c2 && x3 == c3;
  }

  lemma QuantumEncodeDecode(q: string)
    requires |q| == 4 && DecodeQuantum(q).Some?
    ensures var b := DecodeQuantum(q).value; EncodeBlock(b[0], b[1], b[2]) == q
  {
    var c0, c1, c2, c3 := ValueOf(q[0]).value, ValueOf(q[1]).value, ValueOf(q[2]).value, ValueOf(q[3]).value;
    BlockOfSextets(c0, c1, c2, c3);
    assert q == [CharOf(c0), CharOf(c1), CharOf(c2), CharOf(c3)];
  }

  /** The other direction: a canonical string that decodes is the encoding
      of what it decodes to, so the encoding is a bijection onto the
      canonical strings. */
  lemma {:induction false} EncodeDecode(s: string)
    requires Canonical(s)
    requires Decode(s).Some?
    ensures Encode(Decode(s).value) == s
  {
    if |s| == 4 {
      FinalEncodeDecode(s);
    } else if |s| > 4 {
      var b := Decode(s).value;
      var head := DecodeQuantum(s[..4]).value;
      var rest := Decode(s[4..]).value;
      assert Canonical(s[4..]) by {
        assert s[4..][|s[4..]| - 4..] == s[|s| - 4..];
      }
      EncodeDecode(s[4..]);
      assert b == head + rest;
      assert |b| > 3 && b[3..] == rest;
      QuantumEncodeDecode(s[..4]);
      assert Encode(b) == EncodeBlock(b[0], b[1], b[2]) + Encode(rest);
      assert s == s[..4] + s[4..];
    }
  }
}
