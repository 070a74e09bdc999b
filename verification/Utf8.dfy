/**
  * UTF-8 as the repository validates, decodes and writes it.
  *
  * Bytes are integers below 256. The masks and shifts of the sources are written as the sums,
  * differences and quotients they compute on the ranges that the code has already established.
  */
module Utf8 {
  import opened Wrappers

  type byte = x: int | 0 <= x < 0x100

  datatype Decoded = Decoded(codePoint: CodePoint, length: nat)

  /** Unicode scalar values: every code point that is not a surrogate. */
  predicate IsScalar(c: int) {
    0 <= c < 0xD800 || 0xE000 <= c < 0x11_0000
  }

  predicate IsContinuation(b: byte) {
    0x80 <= b <= 0xBF
  }

  /** The bytes AppendUtf8CodePoint adds for one code point (section 3 of RFC 3629). */
  function Encode(c: CodePoint): (bytes: seq<byte>)
    ensures 1 <= |bytes| <= 4
    ensures c < 0x80 <==> bytes[0] < 0x80
  {
    if c <= 0x7F then [c]
    else if c <= 0x7FF then [0xC0 + High(c), Low(c)]
    else if c <= 0xFFFF then [0xE0 + High(High(c)), Low(High(c)), Low(c)]
    else [0xF0 + High(High(High(c))), Low(High(High(c))), Low(High(c)), Low(c)]
  }

  /** The payload without its six low bits. */
  function High(c: nat): nat {
    c / 0x40
  }

  /** The continuation byte that carries the six low bits. */
  function Low(c: nat): (b: byte) {
    0x80 + (c - c / 0x40 * 0x40)
  }

  /** Shifts six more payload bits, those of continuation byte `b`, into `high`. */
  function Join(high: nat, b: byte): nat
    requires IsContinuation(b)
  {
    high * 0x40 + (b - 0x80)
  }

  lemma JoinInvertsSplit(c: nat)
    ensures Join(High(c), Low(c)) == c && IsContinuation(Low(c))
  {
  }

  lemma SplitInvertsJoin(high: nat, b: byte)
    requires IsContinuation(b)
    ensures High(Join(high, b)) == high && Low(Join(high, b)) == b
  {
  }

  type CodePoint = c: nat | c < 0x20_0000

  function EncodeAll(cs: seq<CodePoint>): seq<byte> {
    if cs == [] then [] else Encode(cs[0]) + EncodeAll(cs[1..])
  }

  lemma EncodeAllOfPrepended(c: CodePoint, cs: seq<CodePoint>)
    ensures EncodeAll([c] + cs) == Encode(c) + EncodeAll(cs)
  {
    assert ([c] + cs)[1..] == cs;
  }

  ghost predicate AllScalars(cs: seq<CodePoint>) {
    forall i :: 0 <= i < |cs| ==> IsScalar(cs[i])
  }

  /** What section 4 of RFC 3629 calls well formed: a concatenation of encoded scalar values. */
  ghost predicate IsWellFormed(s: seq<byte>) {
    exists cs :: AllScalars(cs) && EncodeAll(cs) == s
  }

  /** TryDecodeUtf8CodePoint: lenient, in that it also accepts overlong forms and surrogates. */
  function TryDecode(s: seq<byte>, index: nat): (d: Option<Decoded>)
    requires index < |s|
    ensures d.Some? ==> 1 <= d.value.length <= 4 && index + d.value.length <= |s|
  {
    var b0: int := s[index];
    if b0 < 0x80 then
      Some(Decoded(b0, 1))
    else if 0xC0 <= b0 < 0xE0 then
      if index + 2 > |s| || !IsContinuation(s[index + 1]) then None
      else Some(Decoded(Join(b0 - 0xC0, s[index + 1]), 2))
    else if 0xE0 <= b0 < 0xF0 then
      if index + 3 > |s| || !IsContinuation(s[index + 1]) || !IsContinuation(s[index + 2]) then None
      else Some(Decoded(Join(Join(b0 - 0xE0, s[index + 1]), s[index + 2]), 3))
    else if 0xF0 <= b0 < 0xF8 then
      if index + 4 > |s| || !IsContinuation(s[index + 1]) || !IsContinuation(s[index + 2])
         || !IsContinuation(s[index + 3]) then None
      else Some(Decoded(Join(Join(Join(b0 - 0xF0, s[index + 1]), s[index + 2]), s[index + 3]), 4))
    else
      None
  }

  /** The length of the strictly valid sequence that starts at `i`, or zero if there is none. */
  function StrictLength(s: seq<byte>, i: nat): (n: nat)
    requires i < |s|
    ensures i + n <= |s|
  {
    var b0 := s[i];
    if b0 <= 0x7F then 1
    else if 0xC2 <= b0 <= 0xDF && i + 1 < |s| && IsContinuation(s[i + 1]) then 2
    else if i + 2 < |s| && IsContinuation(s[i + 1]) && IsContinuation(s[i + 2])
            && 0xE0 <= b0 <= 0xEF && (b0 == 0xE0 ==> 0xA0 <= s[i + 1]) && (b0 == 0xED ==> s[i + 1] <= 0x9F) then 3
    else if i + 3 < |s| && IsContinuation(s[i + 1]) && IsContinuation(s[i + 2]) && IsContinuation(s[i + 3])
            && 0xF0 <= b0 <= 0xF4 && (b0 == 0xF0 ==> 0x90 <= s[i + 1]) && (b0 == 0xF4 ==> s[i + 1] <= 0x8F) then 4
    else 0
  }

  function DecodeAll(s: seq<byte>): (r: Option<seq<CodePoint>>) {
    if s == [] then
      Some([])
    else
      var n := StrictLength(s, 0);
      if n == 0 then None
      else match DecodeAll(s[n..])
           case None => None
           case Some(rest) => Some([TryDecode(s, 0).value.codePoint] + rest)
  }

  lemma DecodeTwo(c: nat, s: seq<byte>)
    requires 0x80 <= c < 0x800 && |s| >= 2 && s[..2] == Encode(c)
    ensures TryDecode(s, 0) == Some(Decoded(c, 2)) && StrictLength(s, 0) == 2
  {
    JoinInvertsSplit(c);
    assert s[0] == s[..2][0] && s[1] == s[..2][1];
  }

  lemma DecodeThree(c: nat, s: seq<byte>)
    requires 0x800 <= c < 0x1_0000 && |s| >= 3 && s[..3] == Encode(c)
    ensures TryDecode(s, 0) == Some(Decoded(c, 3))
    ensures IsScalar(c) ==> StrictLength(s, 0) == 3
  {
    JoinInvertsSplit(c);
    JoinInvertsSplit(High(c));
    assert s[0] == s[..3][0] && s[1] == s[..3][1] && s[2] == s[..3][2];
  }

  lemma DecodeFour(c: nat, s: seq<byte>)
    requires 0x1_0000 <= c < 0x20_0000 && |s| >= 4 && s[..4] == Encode(c)
    ensures TryDecode(s, 0) == Some(Decoded(c, 4))
    ensures IsScalar(c) ==> StrictLength(s, 0) == 4
  {
    var c1 := High(c);
    var c2 := High(c1);
    var c3 := High(c2);
    assert s[0] == s[..4][0] == 0xF0 + c3;
    assert s[1] == s[..4][1] == Low(c2) && s[2] == s[..4][2] == Low(c1) && s[3] == s[..4][3] == Low(c);
    assert Join(c3, s[1]) == c2 by { JoinInvertsSplit(c2); }
    assert Join(c2, s[2]) == c1 by { JoinInvertsSplit(c1); }
    assert Join(c1, s[3]) == c by { JoinInvertsSplit(c); }
  }

  /** The decoder and the validator both recover a code point from its encoding. */
  lemma DecodeInvertsEncode(c: CodePoint, rest: seq<byte>)
    ensures TryDecode(Encode(c) + rest, 0) == Some(Decoded(c, |Encode(c)|))
    ensures IsScalar(c) ==> StrictLength(Encode(c) + rest, 0) == |Encode(c)|
  {
    var s := Encode(c) + rest;
    assert s[..|Encode(c)|] == Encode(c);
    if c > 0xFFFF {
      DecodeFour(c, s);
    } else if c > 0x7FF {
      DecodeThree(c, s);
    } else if c > 0x7F {
      DecodeTwo(c, s);
    }
  }

  lemma StrictThree(s: seq<byte>)
    requires |s| > 0 && StrictLength(s, 0) == 3
    ensures var c := Join(Join(s[0] - 0xE0, s[1]), s[2]);
            TryDecode(s, 0) == Some(Decoded(c, 3)) && IsScalar(c) && Encode(c) == s[..3]
  {
    SplitInvertsJoin(s[0] - 0xE0, s[1]);
    SplitInvertsJoin(Join(s[0] - 0xE0, s[1]), s[2]);
  }

  /** The payload of a strict sequence of four is a supplementary code point. */
  lemma FourIsSupplementary(c3: nat, b1: byte, b2: byte, b3: byte)
    requires c3 <= 4 && IsContinuation(b1) && IsContinuation(b2) && IsContinuation(b3)
    requires (c3 == 0 ==> 0x90 <= b1) && (c3 == 4 ==> b1 <= 0x8F)
    ensures 0x1_0000 <= Join(Join(Join(c3, b1), b2), b3) < 0x11_0000
  {
    assert 0x10 <= Join(c3, b1) < 0x110;
    assert 0x400 <= Join(Join(c3, b1), b2) < 0x4400;
  }

  lemma EncodeInvertsFour(c3: nat, b1: byte, b2: byte, b3: byte)
    requires c3 <= 4 && IsContinuation(b1) && IsContinuation(b2) && IsContinuation(b3)
    requires 0x1_0000 <= Join(Join(Join(c3, b1), b2), b3) < 0x11_0000
    ensures Encode(Join(Join(Join(c3, b1), b2), b3)) == [0xF0 + c3, b1, b2, b3]
  {
    SplitInvertsJoin(c3, b1);
    SplitInvertsJoin(Join(c3, b1), b2);
    SplitInvertsJoin(Join(Join(c3, b1), b2), b3);
  }

  lemma StrictFour(s: seq<byte>)
    requires |s| > 0 && StrictLength(s, 0) == 4
    ensures var c := Join(Join(Join(s[0] - 0xF0, s[1]), s[2]), s[3]);
            TryDecode(s, 0) == Some(Decoded(c, 4)) && IsScalar(c) && Encode(c) == s[..4]
  {
    var c3 := s[0] - 0xF0;
    FourIsSupplementary(c3, s[1], s[2], s[3]);
    EncodeInvertsFour(c3, s[1], s[2], s[3]);
  }

  /** A strictly valid start decodes to a scalar value whose encoding is exactly those bytes. */
  lemma StrictStartIsEncodedScalar(s: seq<byte>)
    requires |s| > 0 && StrictLength(s, 0) > 0
    ensures var n := StrictLength(s, 0);
            && TryDecode(s, 0).Some?
            && TryDecode(s, 0).value.length == n
            && IsScalar(TryDecode(s, 0).value.codePoint)
            && Encode(TryDecode(s, 0).value.codePoint) == s[..n]
  {
    match StrictLength(s, 0)
    case 2 => SplitInvertsJoin(s[0] - 0xC0, s[1]);
    case 3 => StrictThree(s);
    case 4 => StrictFour(s);
    case _ =>
  }

  lemma DecodeAllOfPrepended(c: CodePoint, rest: seq<byte>)
    requires IsScalar(c) && DecodeAll(rest).Some?
    ensures DecodeAll(Encode(c) + rest) == Some([c] + DecodeAll(rest).value)
  {
    DecodeInvertsEncode(c, rest);
    assert (Encode(c) + rest)[|Encode(c)|..] == rest;
  }

  /** Decoding succeeds on the encoding of any scalar sequence and gives that sequence back. */
  lemma {:induction false} DecodeAllInvertsEncodeAll(cs: seq<CodePoint>)
    requires AllScalars(cs)
    ensures DecodeAll(EncodeAll(cs)) == Some(cs)
  {
    if cs != [] {
      DecodeAllInvertsEncodeAll(cs[1..]);
      DecodeAllOfPrepended(cs[0], EncodeAll(cs[1..]));
      assert [cs[0]] + cs[1..] == cs;
    }
  }

  lemma DecodeAllHead(s: seq<byte>) returns (c: CodePoint, rest: seq<byte>)
    requires s != [] && DecodeAll(s).Some?
    ensures IsScalar(c) && s == Encode(c) + rest && |rest| < |s|
    ensures DecodeAll(rest).Some? && DecodeAll(s).value == [c] + DecodeAll(rest).value
  {
    var n := StrictLength(s, 0);
    StrictStartIsEncodedScalar(s);
    c, rest := TryDecode(s, 0).value.codePoint, s[n..];
  }

  /** Whatever decodes strictly is the encoding of the scalar values it decodes to. */
  lemma {:induction false} EncodeAllInvertsDecodeAll(s: seq<byte>)
    requires DecodeAll(s).Some?
    ensures AllScalars(DecodeAll(s).value) && EncodeAll(DecodeAll(s).value) == s
    decreases |s|
  {
    if s != [] {
      var c, rest := DecodeAllHead(s);
      EncodeAllInvertsDecodeAll(rest);
      EncodeAllOfPrepended(c, DecodeAll(rest).value);
    }
  }

  /** A byte string is well formed exactly when the strict decoder accepts it. */
  lemma WellFormedIffDecodes(s: seq<byte>)
    ensures IsWellFormed(s) <==> DecodeAll(s).Some?
  {
    if DecodeAll(s).Some? {
      EncodeAllInvertsDecodeAll(s);
    }
    if IsWellFormed(s) {
      var cs :| AllScalars(cs) && EncodeAll(cs) == s;
      DecodeAllInvertsEncodeAll(cs);
    }
  }

  /** Two scalar sequences with one encoding are equal, so text has a unique reading. */
  lemma EncodeAllIsInjective(a: seq<CodePoint>, b: seq<CodePoint>)
    requires AllScalars(a) && AllScalars(b) && EncodeAll(a) == EncodeAll(b)
    ensures a == b
  {
    DecodeAllInvertsEncodeAll(a);
    DecodeAllInvertsEncodeAll(b);
  }

  lemma DecodeSuffix(s: seq<byte>, i: nat)
    requires i < |s|
    ensures StrictLength(s, i) == StrictLength(s[i..], 0)
    ensures TryDecode(s, i) == TryDecode(s[i..], 0)
  {
  }

  /** The validation state machine accepts exactly the concatenations of encoded scalar values. */
  method IsValidUtf8(value: seq<byte>) returns (valid: bool)
    ensures valid <==> IsWellFormed(value)
  {
    WellFormedIffDecodes(value);
    var len := |value|;
    var i := 0;
    while i < len
      invariant 0 <= i <= len
      invariant DecodeAll(value).Some? <==> DecodeAll(value[i..]).Some?
    {
      DecodeSuffix(value, i);
      ghost var n := StrictLength(value, i);
      ghost var start := i;
      var b0 := value[i];
      if b0 <= 0x7F {
        i := i + 1;
      } else if b0 >= 0xC2 && b0 <= 0xDF && i + 1 < len
                && value[i + 1] >= 0x80 && value[i + 1] <= 0xBF {
        i := i + 2;
      } else if b0 == 0xE0 && i + 2 < len
                && value[i + 1] >= 0xA0 && value[i + 1] <= 0xBF
                && value[i + 2] >= 0x80 && value[i + 2] <= 0xBF {
        i := i + 3;
      } else if b0 >= 0xE1 && b0 <= 0xEC && i + 2 < len
                && value[i + 1] >= 0x80 && value[i + 1] <= 0xBF
                && value[i + 2] >= 0x80 && value[i + 2] <= 0xBF {
        i := i + 3;
      } else if b0 == 0xED && i + 2 < len
                && value[i + 1] >= 0x80 && value[i + 1] <= 0x9F  // excludes the surrogates
                && value[i + 2] >= 0x80 && value[i + 2] <= 0xBF {
        i := i + 3;
      } else if (b0 == 0xEE || b0 == 0xEF) && i + 2 < len
                && value[i + 1] >= 0x80 && value[i + 1] <= 0xBF
                && value[i + 2] >= 0x80 && value[i + 2] <= 0xBF {
        i := i + 3;
      } else if b0 == 0xF0 && i + 3 < len
                && value[i + 1] >= 0x90 && value[i + 1] <= 0xBF
                && value[i + 2] >= 0x80 && value[i + 2] <= 0xBF
                && value[i + 3] >= 0x80 && value[i + 3] <= 0xBF {
        i := i + 4;
      } else if b0 >= 0xF1 && b0 <= 0xF3 && i + 3 < len
                && value[i + 1] >= 0x80 && value[i + 1] <= 0xBF
                && value[i + 2] >= 0x80 && value[i + 2] <= 0xBF
                && value[i + 3] >= 0x80 && value[i + 3] <= 0xBF {
        i := i + 4;
      } else if b0 == 0xF4 && i + 3 < len
                && value[i + 1] >= 0x80 && value[i + 1] <= 0x8F
                && value[i + 2] >= 0x80 && value[i + 2] <= 0xBF
                && value[i + 3] >= 0x80 && value[i + 3] <= 0xBF {
        i := i + 4;
      } else {
        assert n == 0;
        return false;
      }
      assert i == start + n;
      assert value[start..][n..] == value[i..];
    }
    return true;
  }
}
