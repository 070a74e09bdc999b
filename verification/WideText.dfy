/**
  * UTF-16 text of the operating system and its conversions to and from UTF-8.
  *
  * A string is a sequence of UTF-16 code units. Characters of Dafny are scalar values, so a
  * surrogate code unit is written as the private character 10 0000 hex above it and every other
  * code unit as itself; other characters above FFFF hex stand for no code unit.
  */
module WideText {
  import opened Utf8
  import opened Wrappers

  predicate IsHigh(c: char) {
    0x10_D800 <= c as int < 0x10_DC00
  }

  predicate IsLow(c: char) {
    0x10_DC00 <= c as int < 0x10_E000
  }

  predicate IsCodeUnit(c: char) {
    c as int < 0x1_0000 || IsHigh(c) || IsLow(c)
  }

  /** Code units in which surrogates come in pairs only, high before low. */
  predicate IsWellFormedUtf16(w: string) {
    forall i :: 0 <= i < |w| ==> IsPairedAt(w, i)
  }

  predicate IsPairedAt(w: string, i: nat)
    requires i < |w|
  {
    && IsCodeUnit(w[i])
    && (IsHigh(w[i]) ==> i + 1 < |w| && IsLow(w[i + 1]))
    && (IsLow(w[i]) ==> 0 < i && IsHigh(w[i - 1]))
  }

  predicate StartsWithPair(w: string) {
    |w| > 1 && IsHigh(w[0]) && IsLow(w[1])
  }

  const REPLACEMENT: CodePoint := 0xFFFD

  /** A code unit that is not part of a pair: an unpaired surrogate has no code point of its own. */
  function Single(c: char): CodePoint {
    if IsHigh(c) || IsLow(c) then REPLACEMENT else c as int
  }

  function Joined(high: char, low: char): CodePoint
    requires IsHigh(high) && IsLow(low)
  {
    0x1_0000 + (high as int - 0x10_D800) * 0x400 + (low as int - 0x10_DC00)
  }

  /** The code points WideCharToMultiByte finds without the flag that makes it reject surrogates. */
  function Scalars(w: string): (cs: seq<CodePoint>)
    ensures AllScalars(cs)
  {
    if w == [] then []
    else if StartsWithPair(w) then [Joined(w[0], w[1])] + Scalars(w[2..])
    else [Single(w[0])] + Scalars(w[1..])
  }

  function WideToUtf8(w: string): seq<byte> {
    EncodeAll(Scalars(w))
  }

  /** One scalar value in UTF-16 (section 2.1 of RFC 2781). */
  function Units(c: CodePoint): (w: string)
    requires IsScalar(c)
    ensures |w| == if c < 0x1_0000 then 1 else 2
  {
    if c < 0x1_0000 then [c as char]
    else
      var high := (c - 0x1_0000) / 0x400;
      [(0x10_D800 + high) as char, (0x10_DC00 + (c - 0x1_0000 - high * 0x400)) as char]
  }

  function Utf16(cs: seq<CodePoint>): string
    requires AllScalars(cs)
  {
    if cs == [] then [] else Units(cs[0]) + Utf16(cs[1..])
  }

  /** MultiByteToWideChar on well-formed bytes, the only ones the host converts back. */
  function Utf8ToWide(bytes: seq<byte>): string
    requires DecodeAll(bytes).Some?
  {
    EncodeAllInvertsDecodeAll(bytes);
    Utf16(DecodeAll(bytes).value)
  }

  /** Whatever the code units, the bytes are well formed. */
  lemma WideToUtf8IsWellFormed(w: string)
    ensures IsWellFormed(WideToUtf8(w)) && DecodeAll(WideToUtf8(w)) == Some(Scalars(w))
  {
    DecodeAllInvertsEncodeAll(Scalars(w));
  }

  /** A text after it has been converted to UTF-8 and back. */
  function Received(w: string): (r: string)
    ensures r == Utf16(Scalars(w))
  {
    WideToUtf8IsWellFormed(w);
    Utf8ToWide(WideToUtf8(w))
  }

  lemma Utf16OfPrepended(c: CodePoint, cs: seq<CodePoint>)
    requires IsScalar(c) && AllScalars(cs)
    ensures AllScalars([c] + cs) && Utf16([c] + cs) == Units(c) + Utf16(cs)
  {
    assert ([c] + cs)[1..] == cs;
  }

  lemma UnitsOfJoined(high: char, low: char)
    requires IsHigh(high) && IsLow(low)
    ensures IsScalar(Joined(high, low)) && Units(Joined(high, low)) == [high, low]
  {
  }

  lemma JoinedUnits(c: CodePoint)
    requires IsScalar(c) && c >= 0x1_0000
    ensures var w := Units(c); IsHigh(w[0]) && IsLow(w[1]) && Joined(w[0], w[1]) == c
  {
  }

  /** Reading text by its first pair or its first unpaired unit. */
  lemma ReceivedStep(w: string)
    requires w != []
    ensures StartsWithPair(w) ==> Received(w) == [w[0], w[1]] + Received(w[2..])
    ensures !StartsWithPair(w) ==> Received(w) == Units(Single(w[0])) + Received(w[1..])
  {
    if StartsWithPair(w) {
      UnitsOfJoined(w[0], w[1]);
      Utf16OfPrepended(Joined(w[0], w[1]), Scalars(w[2..]));
    } else {
      Utf16OfPrepended(Single(w[0]), Scalars(w[1..]));
    }
  }

  /** A front part that ends between pairs does not matter to the rest. */
  lemma WellFormedAfter(w: string, n: nat)
    requires 0 < n <= |w| && !IsHigh(w[n - 1]) && forall i :: 0 <= i < n ==> IsPairedAt(w, i)
    ensures IsWellFormedUtf16(w) <==> IsWellFormedUtf16(w[n..])
  {
    var rest := w[n..];
    forall i | n <= i < |w| ensures IsPairedAt(w, i) <==> IsPairedAt(rest, i - n) {
      assert rest[i - n] == w[i];
      assert i + 1 < |w| ==> rest[i - n + 1] == w[i + 1];
      assert i > n ==> rest[i - n - 1] == w[i - 1];
    }
    if IsWellFormedUtf16(w) {
      forall j | 0 <= j < |rest| ensures IsPairedAt(rest, j) {
        assert IsPairedAt(w, j + n);
      }
    }
  }

  /** Units in front of a text: equality goes part by part. */
  lemma SamePrefix(a: string, b: string, x: string, y: string)
    requires |a| == |b|
    ensures a + x == b + y <==> a == b && x == y
  {
    if a + x == b + y {
      assert (a + x)[..|a|] == a && (b + y)[..|a|] == b;
      assert (a + x)[|a|..] == x && (b + y)[|a|..] == y;
    }
  }

  lemma SingleIsReplaced(c: char)
    requires !IsCodeUnit(c) || IsHigh(c) || IsLow(c)
    ensures Units(Single(c))[0] != c
  {
  }

  lemma UnpairedIsReplaced(w: string)
    requires w != [] && !StartsWithPair(w) && (!IsCodeUnit(w[0]) || IsHigh(w[0]) || IsLow(w[0]))
    ensures Received(w) != w && !IsWellFormedUtf16(w)
  {
    ReceivedStep(w);
    SingleIsReplaced(w[0]);
    assert !IsPairedAt(w, 0);
    var units := Units(Single(w[0]));
    assert (units + Received(w[1..]))[0] == units[0];
  }

  lemma UnchangedAfterPair(w: string)
    requires StartsWithPair(w)
    ensures Received(w) == w <==> Received(w[2..]) == w[2..]
    ensures IsWellFormedUtf16(w) <==> IsWellFormedUtf16(w[2..])
  {
    var pair := [w[0], w[1]];
    ReceivedStep(w);
    assert w == pair + w[2..];
    SamePrefix(pair, pair, Received(w[2..]), w[2..]);
    WellFormedAfter(w, 2);
  }

  lemma UnchangedAfterUnit(w: string)
    requires w != [] && IsCodeUnit(w[0]) && !IsHigh(w[0]) && !IsLow(w[0])
    ensures Received(w) == w <==> Received(w[1..]) == w[1..]
    ensures IsWellFormedUtf16(w) <==> IsWellFormedUtf16(w[1..])
  {
    ReceivedStep(w);
    assert w == [w[0]] + w[1..];
    SamePrefix([w[0]], [w[0]], Received(w[1..]), w[1..]);
    WellFormedAfter(w, 1);
  }

  /** The conversions leave a text alone exactly if its surrogates are paired. */
  lemma {:induction false} ReceivedUnchangedIff(w: string)
    ensures Received(w) == w <==> IsWellFormedUtf16(w)
    decreases |w|
  {
    if w != [] {
      if StartsWithPair(w) {
        ReceivedUnchangedIff(w[2..]);
        UnchangedAfterPair(w);
      } else if !IsCodeUnit(w[0]) || IsHigh(w[0]) || IsLow(w[0]) {
        UnpairedIsReplaced(w);
      } else {
        ReceivedUnchangedIff(w[1..]);
        UnchangedAfterUnit(w);
      }
    }
  }

  lemma {:induction false} ScalarsInvertUtf16(cs: seq<CodePoint>)
    requires AllScalars(cs)
    ensures Scalars(Utf16(cs)) == cs
  {
    if cs != [] {
      var c, rest := cs[0], Utf16(cs[1..]);
      ScalarsInvertUtf16(cs[1..]);
      assert cs == [c] + cs[1..];
      if c < 0x1_0000 {
        assert ([c as char] + rest)[1..] == rest;
      } else {
        JoinedUnits(c);
        assert (Units(c) + rest)[2..] == rest;
      }
    }
  }

  /** What the conversions return is well formed, and a second conversion changes nothing. */
  lemma ReceivedIsWellFormed(w: string)
    ensures IsWellFormedUtf16(Received(w)) && Received(Received(w)) == Received(w)
    ensures WideToUtf8(Received(w)) == WideToUtf8(w)
  {
    ScalarsInvertUtf16(Scalars(w));
    ReceivedUnchangedIff(Received(w));
  }

  /** Comparing texts by their bytes is comparing what the conversions return. */
  lemma SameBytesIffSameReceived(a: string, b: string)
    ensures WideToUtf8(a) == WideToUtf8(b) <==> Received(a) == Received(b)
  {
    ReceivedIsWellFormed(a);
    ReceivedIsWellFormed(b);
    if WideToUtf8(a) == WideToUtf8(b) {
      WideToUtf8IsWellFormed(a);
      WideToUtf8IsWellFormed(b);
    }
  }

  lemma {:induction false} ReceivedKeepsOut(w: string, c: char)
    requires c as int < 0xD800 && c !in w
    ensures c !in Received(w)
  {
    if w != [] {
      ReceivedStep(w);
      if StartsWithPair(w) {
        assert w[0] in w && w[1] in w;
        assert c !in w[2..];
        ReceivedKeepsOut(w[2..], c);
      } else {
        assert w[0] in w;
        assert c !in w[1..];
        ReceivedKeepsOut(w[1..], c);
        assert c !in Units(Single(w[0]));
      }
    }
  }

  lemma AsciiIsWellFormedUtf16(w: string)
    requires forall i :: 0 <= i < |w| ==> w[i] as int < 0x80
    ensures IsWellFormedUtf16(w)
  {
  }

  lemma ReceivedAsciiHead(c: char, rest: string)
    requires c as int < 0x80
    ensures Received([c] + rest) == [c] + Received(rest)
  {
    ReceivedStep([c] + rest);
    assert ([c] + rest)[1..] == rest;
  }

  /** The conversions leave an ASCII front part alone, whatever follows it. */
  lemma {:induction false} ReceivedAfterAscii(front: string, rest: string)
    requires forall i :: 0 <= i < |front| ==> front[i] as int < 0x80
    ensures Received(front + rest) == front + Received(rest)
  {
    if front == [] {
      assert front + rest == rest;
    } else {
      var tail := front[1..] + rest;
      ReceivedAfterAscii(front[1..], rest);
      ReceivedAsciiHead(front[0], tail);
      assert front + rest == [front[0]] + tail;
      assert front + Received(rest) == [front[0]] + (front[1..] + Received(rest));
    }
  }

  /** A high surrogate with nothing after it. */
  const UNPAIRED: char := 0x10_D800 as char

  lemma UnpairedEndIsReplaced(front: string)
    requires forall i :: 0 <= i < |front| ==> front[i] as int < 0x80
    ensures !IsWellFormedUtf16(front + [UNPAIRED])
    ensures Received(front + [UNPAIRED]) == front + [REPLACEMENT as char]
  {
    assert !IsPairedAt(front + [UNPAIRED], |front|);
    ReceivedAfterAscii(front, [UNPAIRED]);
    ReceivedStep([UNPAIRED]);
  }
}
