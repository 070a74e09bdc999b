/**
  * Text normalization: white space is collapsed on bytes, then every code point is folded.
  */
module MetadataNormalization {
  import opened Utf8
  import opened Wrappers

  type Text = seq<byte>

  const SPACE: byte := 0x20

  /** IsWhitespaceByte, which is also a test on code points because it only accepts ASCII. */
  predicate IsWhitespace(c: int) {
    c == 0x20 || c == 0x09 || c == 0x0A || c == 0x0D
  }

  /** NormalizeLowercaseCodePoint: ASCII and Cyrillic lower case, with YO folded onto IE. */
  function Fold(c: CodePoint): CodePoint {
    if c <= 0x7F then (if 0x41 <= c <= 0x5A then c + 0x20 else c)
    else if c == 0x401 || c == 0x451 then 0x435
    else if 0x410 <= c <= 0x42F then c + 0x20
    else if 0x400 <= c <= 0x40F then c + 0x50
    else c
  }

  // ---------------------------------------------------------------------------------------
  // Words: the reference meaning of collapsing white space
  // ---------------------------------------------------------------------------------------

  /** The maximal runs of non-space characters. */
  function Words(s: seq<int>): (words: seq<seq<int>>)
    ensures s != [] && !IsWhitespace(s[0]) ==> words != []
  {
    if s == [] then []
    else if IsWhitespace(s[0]) then Words(s[1..])
    else if |s| == 1 || IsWhitespace(s[1]) then [[s[0]]] + Words(s[1..])
    else var rest := Words(s[1..]); [[s[0]] + rest[0]] + rest[1..]
  }

  function JoinWords(words: seq<seq<int>>): seq<int> {
    if words == [] then []
    else if |words| == 1 then words[0]
    else words[0] + [0x20] + JoinWords(words[1..])
  }

  /** The words of `s` with one space between neighbours. */
  function Collapse(s: seq<int>): seq<int> {
    JoinWords(Words(s))
  }

  /** No white space at either end, and inside only single blanks. */
  ghost predicate IsCollapsed(s: seq<int>) {
    forall i :: 0 <= i < |s| && IsWhitespace(s[i]) ==>
      s[i] == 0x20 && 0 < i < |s| - 1 && !IsWhitespace(s[i - 1]) && !IsWhitespace(s[i + 1])
  }

  /** Collapse by its first characters, which is what inductions over the text need. */
  lemma CollapseStep(s: seq<int>)
    requires s != []
    ensures IsWhitespace(s[0]) ==> Collapse(s) == Collapse(s[1..])
    ensures !IsWhitespace(s[0]) && (|s| == 1 || !IsWhitespace(s[1])) ==> Collapse(s) == [s[0]] + Collapse(s[1..])
    ensures !IsWhitespace(s[0]) && |s| > 1 && IsWhitespace(s[1]) ==>
              Collapse(s) == if Collapse(s[1..]) == [] then [s[0]] else [s[0], 0x20] + Collapse(s[1..])
  {
    if !IsWhitespace(s[0]) {
      var rest := Words(s[1..]);
      WordsAreNonEmpty(s[1..]);
      if |s| > 1 && !IsWhitespace(s[1]) {
        assert Words(s)[1..] == rest[1..];
      } else {
        assert Words(s)[1..] == rest;
      }
    }
  }

  lemma {:induction false} WordsAreNonEmpty(s: seq<int>)
    ensures forall w :: w in Words(s) ==> w != []
    ensures Words(s) == [] <==> Collapse(s) == []
  {
    if s != [] {
      WordsAreNonEmpty(s[1..]);
    }
  }

  /** Every collapsed text has the promised shape and keeps the visible characters. */
  lemma {:induction false} CollapseIsCollapsed(s: seq<int>)
    ensures IsCollapsed(Collapse(s)) && |Collapse(s)| <= |s|
    ensures forall x :: x in Collapse(s) ==> x in s || x == 0x20
    ensures s != [] && !IsWhitespace(s[0]) ==> Collapse(s) != [] && Collapse(s)[0] == s[0]
    ensures Collapse(s) != [] ==> !IsWhitespace(Collapse(s)[0])
    ensures Collapse(s) == [] <==> forall i :: 0 <= i < |s| ==> IsWhitespace(s[i])
    ensures s != [] && IsWhitespace(s[0]) ==> |Collapse(s)| < |s|
  {
    if s != [] {
      CollapseIsCollapsed(s[1..]);
      CollapseStep(s);
    }
  }

  /** What can be seen of a text: all but blanks, tabs and line ends. */
  function Visible(s: seq<int>): seq<int> {
    if s == [] then []
    else (if s[0] == ' ' as int || s[0] == '\t' as int || s[0] == '\n' as int || s[0] == '\r' as int then [] else [s[0]]) + Visible(s[1..])
  }

  lemma VisibleOfPrepended(c: int, s: seq<int>)
    ensures Visible([c] + s) == (if IsWhitespace(c) then [] else [c]) + Visible(s)
  {
    assert ([c] + s)[1..] == s;
  }

  /** Collapsing keeps exactly the visible characters, and of the others only blanks stay. */
  lemma {:induction false} CollapseKeepsVisible(s: seq<int>)
    ensures Visible(Collapse(s)) == Visible(s)
    ensures forall x :: x in Collapse(s) ==> x in Visible(s) || x == ' ' as int
  {
    if s != [] {
      var rest := Collapse(s[1..]);
      CollapseKeepsVisible(s[1..]);
      CollapseStep(s);
      assert s == [s[0]] + s[1..];
      VisibleOfPrepended(s[0], s[1..]);
      VisibleOfPrepended(s[0], rest);
      VisibleOfPrepended(s[0], [0x20] + rest);
      VisibleOfPrepended(0x20, rest);
      assert [s[0], 0x20] + rest == [s[0]] + ([0x20] + rest);
      assert [s[0]] + [] == [s[0]];
    }
  }

  /** A collapsed text starts visibly, and is collapsed again after a letter or a blank. */
  lemma CollapsedTail(s: seq<int>)
    requires s != [] && IsCollapsed(s)
    ensures !IsWhitespace(s[0])
    ensures |s| > 1 && IsWhitespace(s[1]) ==> |s| > 2 && s[1] == 0x20 && IsCollapsed(s[2..])
    ensures |s| == 1 || !IsWhitespace(s[1]) ==> IsCollapsed(s[1..])
  {
  }

  /** A text already in that shape is left alone: the shape characterizes the fixed points. */
  lemma {:induction false} CollapseFixesCollapsed(s: seq<int>)
    ensures IsCollapsed(s) <==> Collapse(s) == s
  {
    CollapseIsCollapsed(s);
    if s != [] && IsCollapsed(s) {
      CollapseStep(s);
      CollapsedTail(s);
      if |s| > 1 && IsWhitespace(s[1]) {
        CollapseFixesCollapsed(s[2..]);
        CollapseStep(s[1..]);
        assert s[1..][1..] == s[2..];
        assert s == [s[0], 0x20] + s[2..];
      } else {
        CollapseFixesCollapsed(s[1..]);
        assert s == [s[0]] + s[1..];
      }
    }
  }

  /** Collapsing sees the same words in the bytes as in the code points they encode. */
  lemma {:induction false} CollapseCommutesWithEncoding(cs: seq<CodePoint>)
    ensures Collapse(EncodeAll(cs)) == EncodeAll(CollapseCodePoints(cs))
  {
    if cs != [] {
      var tail := EncodeAll(cs[1..]);
      CollapseCommutesWithEncoding(cs[1..]);
      CollapseStep(cs);
      CollapseIsCollapsed(cs[1..]);
      CollapseEncodedHead(cs[0], tail);
      FirstByteClass(cs[1..]);
    }
  }

  function CollapseCodePoints(cs: seq<CodePoint>): (r: seq<CodePoint>)
    ensures r == Collapse(cs)
  {
    CollapseIsCollapsed(cs);
    var r := Collapse(cs);
    assert forall i :: 0 <= i < |r| ==> r[i] in r;
    r
  }

  function CollapseBytes(s: Text): (r: Text)
    ensures r == Collapse(s)
  {
    CollapseIsCollapsed(s);
    var r := Collapse(s);
    assert forall i :: 0 <= i < |r| ==> r[i] in r;
    r
  }

  lemma FirstByteClass(cs: seq<CodePoint>)
    ensures EncodeAll(cs) == [] <==> cs == []
    ensures cs != [] ==> (IsWhitespace(EncodeAll(cs)[0]) <==> IsWhitespace(cs[0]))
  {
  }

  /** Collapsing past the encoding of one code point. */
  lemma CollapseEncodedHead(c: CodePoint, tail: seq<byte>)
    ensures IsWhitespace(c) ==> Collapse(Encode(c) + tail) == Collapse(tail)
    ensures !IsWhitespace(c) && (tail == [] || !IsWhitespace(tail[0])) ==>
              Collapse(Encode(c) + tail) == Encode(c) + Collapse(tail)
    ensures !IsWhitespace(c) && tail != [] && IsWhitespace(tail[0]) ==>
              Collapse(Encode(c) + tail) ==
              if Collapse(tail) == [] then Encode(c) else Encode(c) + [0x20] + Collapse(tail)
  {
    CollapseRun(Encode(c), tail);
    if IsWhitespace(c) {
      CollapseStep(Encode(c) + tail);
      assert (Encode(c) + tail)[1..] == tail;
    }
  }

  lemma {:induction false} CollapseRun(run: seq<int>, tail: seq<int>)
    requires run != []
    ensures (forall x :: x in run ==> !IsWhitespace(x)) ==>
              Collapse(run + tail) ==
              if tail == [] || !IsWhitespace(tail[0]) then run + Collapse(tail)
              else if Collapse(tail) == [] then run else run + [0x20] + Collapse(tail)
  {
    var s := run + tail;
    if forall x :: x in run ==> !IsWhitespace(x) {
      assert s[0] == run[0] && run[0] in run;
      CollapseStep(s);
      if |run| == 1 {
        assert s[1..] == tail;
      } else {
        assert s[1..] == run[1..] + tail;
        assert s[1] == run[1] && run[1] in run;
        CollapseRun(run[1..], tail);
        assert run == [run[0]] + run[1..];
      }
    }
  }

  // ---------------------------------------------------------------------------------------
  // Folding and the whole normalization
  // ---------------------------------------------------------------------------------------

  /** AppendLowercasedNormalizedUtf8: bytes that do not decode are copied unchanged. */
  function FoldBytes(s: Text): Text {
    if s == [] then []
    else match TryDecode(s, 0)
         case None => [s[0]] + FoldBytes(s[1..])
         case Some(d) => Encode(Fold(d.codePoint)) + FoldBytes(s[d.length..])
  }

  function FoldAll(cs: seq<CodePoint>): (r: seq<CodePoint>) {
    seq(|cs|, i requires 0 <= i < |cs| => Fold(cs[i]))
  }

  /** The value NormalizeText computes. */
  function NormalizeText(value: Text): Text {
    FoldBytes(CollapseBytes(value))
  }

  /** Code points that normalization has nothing left to do to. */
  ghost predicate IsNormal(cs: seq<CodePoint>) {
    AllScalars(cs) && IsCollapsed(cs) && FoldAll(cs) == cs
  }

  lemma {:induction false} FoldBytesOfEncoding(cs: seq<CodePoint>)
    ensures FoldBytes(EncodeAll(cs)) == EncodeAll(FoldAll(cs))
  {
    if cs != [] {
      var head, tail := Encode(cs[0]), EncodeAll(cs[1..]);
      DecodeInvertsEncode(cs[0], tail);
      assert (head + tail)[|head|..] == tail;
      FoldBytesOfEncoding(cs[1..]);
      assert FoldAll(cs)[1..] == FoldAll(cs[1..]);
    }
  }

  /** On valid UTF-8, normalization folds each code point of the space-collapsed text. */
  lemma NormalizeTextOnCodePoints(cs: seq<CodePoint>)
    ensures NormalizeText(EncodeAll(cs)) == EncodeAll(FoldAll(CollapseCodePoints(cs)))
  {
    CollapseCommutesWithEncoding(cs);
    FoldBytesOfEncoding(CollapseCodePoints(cs));
  }

  lemma FoldKeepsShape(cs: seq<CodePoint>)
    ensures FoldAll(FoldAll(cs)) == FoldAll(cs)
    ensures IsCollapsed(cs) ==> IsCollapsed(FoldAll(cs))
    ensures AllScalars(cs) ==> AllScalars(FoldAll(cs))
  {
    assert forall c: CodePoint :: IsWhitespace(Fold(c)) <==> IsWhitespace(c);
  }

  lemma CollapseKeepsScalars(cs: seq<CodePoint>)
    requires AllScalars(cs)
    ensures AllScalars(CollapseCodePoints(cs))
  {
    CollapseIsCollapsed(cs);
    var r := CollapseCodePoints(cs);
    forall i | 0 <= i < |r| ensures IsScalar(r[i]) {
      assert r[i] in Collapse(cs);
    }
  }

  /** Valid input gives valid output: a collapsed text whose every code point is folded. */
  lemma NormalizeTextIsWellFormed(value: Text)
    requires IsWellFormed(value)
    ensures IsWellFormed(NormalizeText(value))
    ensures IsCollapsed(NormalizeText(value))
    ensures exists cs: seq<CodePoint> :: IsNormal(cs) && NormalizeText(value) == EncodeAll(cs)
  {
    var cs: seq<CodePoint> :| AllScalars(cs) && EncodeAll(cs) == value;
    var collapsed := CollapseCodePoints(cs);
    NormalizeTextOnCodePoints(cs);
    CollapseIsCollapsed(cs);
    CollapseKeepsScalars(cs);
    FoldKeepsShape(collapsed);
    var out := FoldAll(collapsed);
    assert AllScalars(out) && EncodeAll(out) == NormalizeText(value);
    CollapseFixesCollapsed(out);
    CollapseCommutesWithEncoding(out);
    CollapseFixesCollapsed(NormalizeText(value));
  }

  lemma {:induction false} FoldBytesShrinks(s: Text)
    ensures |FoldBytes(s)| <= |s|
    decreases |s|
  {
    if s != [] {
      match TryDecode(s, 0)
      case None => FoldBytesShrinks(s[1..]);
      case Some(d) => FoldBytesShrinks(s[d.length..]);
    }
  }

  /** Normalization never lengthens a byte string, valid or not, so the reserved buffers suffice. */
  lemma NormalizeTextShrinks(value: Text)
    ensures |NormalizeText(value)| <= |value|
  {
    CollapseIsCollapsed(value);
    FoldBytesShrinks(CollapseBytes(value));
  }

  // ---------------------------------------------------------------------------------------
  // When normalizing twice is the same as normalizing once
  // ---------------------------------------------------------------------------------------

  /** What the lenient decoder reads in `s`: code points, and undecodable bytes as themselves. */
  function Lenient(s: Text): seq<int> {
    if s == [] then []
    else match TryDecode(s, 0)
         case None => [s[0] as int] + Lenient(s[1..])
         case Some(d) => [d.codePoint as int] + Lenient(s[d.length..])
  }

  /** IsCollapsed character by character; `afterBlank` says whether a blank or the start came before. */
  predicate Spaced(s: seq<int>, afterBlank: bool) {
    if s == [] then !afterBlank
    else if IsWhitespace(s[0]) then s[0] == 0x20 && !afterBlank && Spaced(s[1..], true)
    else Spaced(s[1..], false)
  }

  lemma {:induction false} SpacedMeaning(s: seq<int>, afterBlank: bool)
    ensures Spaced(s, afterBlank) <==>
            && (afterBlank ==> s != [] && !IsWhitespace(s[0]))
            && (forall i :: 0 <= i < |s| && IsWhitespace(s[i]) ==>
                  s[i] == 0x20 && i < |s| - 1 && !IsWhitespace(s[i + 1]))
  {
    if s != [] {
      SpacedMeaning(s[1..], IsWhitespace(s[0]));
      assert forall i :: 0 < i < |s| ==> s[i] == s[1..][i - 1];
    }
  }

  lemma CollapsedMeansSpaced(s: seq<int>)
    ensures IsCollapsed(s) <==> s == [] || Spaced(s, true)
  {
    SpacedMeaning(s, true);
  }

  lemma {:induction false} SpacedAfterRun(run: seq<int>, tail: seq<int>, afterBlank: bool)
    requires run != [] && forall x :: x in run ==> !IsWhitespace(x)
    ensures Spaced(run + tail, afterBlank) == Spaced(tail, false)
  {
    assert run[0] in run;
    if |run| == 1 {
      assert (run + tail)[1..] == tail;
    } else {
      assert (run + tail)[1..] == run[1..] + tail;
      SpacedAfterRun(run[1..], tail, false);
    }
  }

  /** An encoded code point leaves the spacing of what follows as the code point itself would. */
  lemma SpacedAfterEncoded(c: CodePoint, tail: seq<byte>, afterBlank: bool)
    ensures Spaced(Encode(c) + tail, afterBlank) ==
            if IsWhitespace(c) then c == 0x20 && !afterBlank && Spaced(tail, true) else Spaced(tail, false)
  {
    if IsWhitespace(c) {
      assert (Encode(c) + tail)[1..] == tail;
    } else {
      SpacedAfterRun(Encode(c), tail, afterBlank);
    }
  }

  lemma FoldKeepsWhitespace(c: CodePoint)
    ensures IsWhitespace(Fold(c)) <==> IsWhitespace(c)
    ensures IsWhitespace(c) ==> Fold(c) == c
    ensures Fold(Fold(c)) == Fold(c)
  {
  }

  /** Folding neither makes nor removes a blank among the characters that were read. */
  lemma {:induction false} FoldKeepsSpacing(s: Text, afterBlank: bool)
    ensures Spaced(FoldBytes(s), afterBlank) == Spaced(Lenient(s), afterBlank)
    decreases |s|
  {
    if s != [] {
      match TryDecode(s, 0)
      case None =>
        var tail := s[1..];
        FoldKeepsSpacing(tail, false);
        SpacedAfterRun([s[0]], FoldBytes(tail), afterBlank);
        SpacedAfterRun([s[0]], Lenient(tail), afterBlank);
      case Some(d) =>
        var tail := s[d.length..];
        var c := d.codePoint;
        FoldKeepsWhitespace(c);
        FoldKeepsSpacing(tail, IsWhitespace(c));
        SpacedAfterEncoded(Fold(c), FoldBytes(tail), afterBlank);
        assert ([c as int] + Lenient(tail))[1..] == Lenient(tail);
    }
  }

  lemma FoldedIsCollapsedIff(s: Text)
    ensures IsCollapsed(FoldBytes(s)) <==> IsCollapsed(Lenient(s))
  {
    FoldKeepsSpacing(s, true);
    CollapsedMeansSpaced(FoldBytes(s));
    CollapsedMeansSpaced(Lenient(s));
  }

  /** How many continuation bytes `s` starts with. */
  function ContinuationRun(s: Text): nat {
    if s == [] || !IsContinuation(s[0]) then 0 else 1 + ContinuationRun(s[1..])
  }

  /** How many continuation bytes the byte `b` asks for, unless it cannot start a sequence. */
  function Wanted(b: byte): Option<nat> {
    if b < 0x80 then Some(0)
    else if 0xC0 <= b < 0xE0 then Some(1)
    else if 0xE0 <= b < 0xF0 then Some(2)
    else if 0xF0 <= b < 0xF8 then Some(3)
    else None
  }

  lemma RunMeaning(s: Text)
    ensures ContinuationRun(s) >= 1 <==> |s| >= 1 && IsContinuation(s[0])
    ensures ContinuationRun(s) >= 2 <==> |s| >= 2 && IsContinuation(s[0]) && IsContinuation(s[1])
    ensures ContinuationRun(s) >= 3 <==>
              |s| >= 3 && IsContinuation(s[0]) && IsContinuation(s[1]) && IsContinuation(s[2])
  {
    if s != [] && s[1..] != [] {
      assert s[1..][0] == s[1];
      if s[2..] != [] {
        assert s[1..][1..] == s[2..] && s[2..][0] == s[2];
      }
    }
  }

  /** Decoding fails only for want of continuation bytes. */
  lemma DecodesIff(s: Text)
    requires s != []
    ensures TryDecode(s, 0).Some? <==> Wanted(s[0]).Some? && ContinuationRun(s[1..]) >= Wanted(s[0]).value
  {
    RunMeaning(s[1..]);
  }

  lemma {:induction false} FoldKeepsRun(s: Text)
    ensures ContinuationRun(FoldBytes(s)) == ContinuationRun(s)
  {
    if s != [] && IsContinuation(s[0]) {
      FoldKeepsRun(s[1..]);
      assert ([s[0]] + FoldBytes(s[1..]))[1..] == FoldBytes(s[1..]);
    }
  }

  /** Folding a second time changes nothing, whatever the bytes. */
  lemma {:induction false} FoldBytesIsIdempotent(s: Text)
    ensures FoldBytes(FoldBytes(s)) == FoldBytes(s)
    decreases |s|
  {
    if s != [] {
      match TryDecode(s, 0)
      case None =>
        var folded := FoldBytes(s[1..]);
        FoldBytesIsIdempotent(s[1..]);
        FoldKeepsRun(s[1..]);
        assert ([s[0]] + folded)[1..] == folded;
        DecodesIff(s);
        DecodesIff([s[0]] + folded);
      case Some(d) =>
        var folded := FoldBytes(s[d.length..]);
        var c := Fold(d.codePoint);
        FoldBytesIsIdempotent(s[d.length..]);
        FoldKeepsWhitespace(d.codePoint);
        DecodeInvertsEncode(c, folded);
        assert (Encode(c) + folded)[|Encode(c)|..] == folded;
    }
  }

  /** A decoded code point is written back in no more bytes than it came from; several bytes are never ASCII. */
  lemma DecodedHead(s: Text, d: Decoded)
    requires s != [] && TryDecode(s, 0) == Some(d)
    ensures |Encode(Fold(d.codePoint))| <= d.length
    ensures d.length == 1 ==> s[0] == d.codePoint
    ensures d.length > 1 ==> forall i :: 0 <= i < d.length ==> s[i] >= 0x80
  {
  }

  lemma SpacedAfterDecoded(s: Text, d: Decoded, afterBlank: bool)
    requires s != [] && TryDecode(s, 0) == Some(d) && |Encode(Fold(d.codePoint))| == d.length
    ensures Spaced(s, afterBlank) ==
            if IsWhitespace(d.codePoint) then d.codePoint == 0x20 && !afterBlank && Spaced(s[1..], true)
            else Spaced(s[d.length..], false)
    ensures IsWhitespace(d.codePoint) ==> d.length == 1
  {
    DecodedHead(s, d);
    FoldKeepsWhitespace(d.codePoint);
    if !IsWhitespace(d.codePoint) {
      var head, tail := s[..d.length], s[d.length..];
      assert forall i :: 0 <= i < |head| ==> head[i] == s[i];
      assert head + tail == s;
      SpacedAfterRun(head, tail, afterBlank);
    }
  }

  /** A fold that loses no byte leaves the blanks where they are. */
  lemma {:induction false} FoldInPlaceKeepsSpacing(s: Text, afterBlank: bool)
    requires |FoldBytes(s)| == |s|
    ensures Spaced(FoldBytes(s), afterBlank) == Spaced(s, afterBlank)
    decreases |s|
  {
    if s != [] {
      match TryDecode(s, 0)
      case None =>
        var tail := s[1..];
        FoldInPlaceKeepsSpacing(tail, false);
        SpacedAfterRun([s[0]], FoldBytes(tail), afterBlank);
        assert [s[0]] + tail == s;
        SpacedAfterRun([s[0]], tail, afterBlank);
      case Some(d) =>
        var tail := s[d.length..];
        FoldKeepsWhitespace(d.codePoint);
        DecodedHead(s, d);
        FoldBytesShrinks(tail);
        FoldInPlaceKeepsSpacing(tail, IsWhitespace(d.codePoint));
        SpacedAfterEncoded(Fold(d.codePoint), FoldBytes(tail), afterBlank);
        SpacedAfterDecoded(s, d, afterBlank);
    }
  }

  /** A text is its own normal form exactly if folding and collapsing each leave it alone. */
  lemma FoldedIsNormalIff(c: Text)
    ensures NormalizeText(FoldBytes(c)) == FoldBytes(c) <==> IsCollapsed(FoldBytes(c))
  {
    var n := FoldBytes(c);
    var m := CollapseBytes(n);
    CollapseFixesCollapsed(n);
    FoldBytesIsIdempotent(c);
    if NormalizeText(n) == n {
      CollapseIsCollapsed(n);
      FoldBytesShrinks(m);
      FoldInPlaceKeepsSpacing(m, true);
      CollapsedMeansSpaced(m);
      CollapsedMeansSpaced(n);
    }
  }

  /**
    * Normalizing twice is the same as normalizing once exactly if the collapsed bytes, read
    * leniently, are still collapsed: an ill-formed sequence must not be read as a misplaced blank.
    */
  lemma NormalizeTextIsIdempotentIff(value: Text)
    ensures NormalizeText(NormalizeText(value)) == NormalizeText(value)
       <==> IsCollapsed(Lenient(CollapseBytes(value)))
  {
    var c := CollapseBytes(value);
    FoldedIsNormalIff(c);
    FoldedIsCollapsedIff(c);
  }

  lemma {:induction false} LenientOfEncoding(cs: seq<CodePoint>)
    ensures Lenient(EncodeAll(cs)) == cs
  {
    if cs != [] {
      var head, tail := Encode(cs[0]), EncodeAll(cs[1..]);
      DecodeInvertsEncode(cs[0], tail);
      assert (head + tail)[|head|..] == tail;
      LenientOfEncoding(cs[1..]);
      assert [cs[0]] + cs[1..] == cs;
    }
  }

  /** Encoded code points always meet the condition, surrogates and those above 10FFFF included. */
  lemma NormalizeTextIsIdempotent(cs: seq<CodePoint>)
    ensures NormalizeText(NormalizeText(EncodeAll(cs))) == NormalizeText(EncodeAll(cs))
  {
    NormalizeTextIsIdempotentIff(EncodeAll(cs));
    CollapseCommutesWithEncoding(cs);
    LenientOfEncoding(CollapseCodePoints(cs));
    CollapseIsCollapsed(cs);
  }

  /**
    * Two ill-formed texts. The overlong form C0 A0 is read as a blank, which a second application
    * strips; the byte FF is not read at all and stays.
    */
  lemma OverlongBlankIsNotIdempotent()
    ensures var overlong: Text := [0xC0, 0xA0];
            && !IsWellFormed(overlong)
            && NormalizeText(overlong) == [0x20]
            && NormalizeText(NormalizeText(overlong)) == []
    ensures var stray: Text := [0xFF];
            && !IsWellFormed(stray)
            && NormalizeText(stray) == stray
  {
    var overlong: Text := [0xC0, 0xA0];
    WellFormedIffDecodes(overlong);
    CollapseFixesCollapsed(overlong);
    assert TryDecode(overlong, 0) == Some(Decoded(0x20, 2));
    assert overlong[2..] == [];
    CollapseStep([0x20]);
    var stray: Text := [0xFF];
    WellFormedIffDecodes(stray);
    CollapseFixesCollapsed(stray);
    assert stray[1..] == [];
  }

  // ---------------------------------------------------------------------------------------
  // What folding does to letters
  // ---------------------------------------------------------------------------------------

  /** ASCII capitals, and the Cyrillic capitals from IE WITH GRAVE to YA. */
  predicate IsCapital(c: int) {
    0x41 <= c <= 0x5A || 0x400 <= c <= 0x42F
  }

  /** YO, capital or small. */
  predicate IsYo(c: int) {
    c == 0x401 || c == 0x451
  }

  /** The small letter of a capital: 32 code points on, or 80 in the first Cyrillic row. */
  predicate IsSmallLetterOf(small: int, capital: int) {
    if 0x400 <= capital <= 0x40F then small == capital + 80 else IsCapital(capital) && small == capital + 32
  }

  /** How `c` is written in a normal form: YO as IE, a capital as its small letter, the rest as it is. */
  predicate IsWrittenAs(c: int, normal: int) {
    if IsYo(c) then normal == 0x435
    else if IsCapital(c) then IsSmallLetterOf(normal, c)
    else normal == c
  }

  /** The same letter in either case, or one of the four letters YO and IE. */
  predicate AreVariants(c: int, d: int) {
    || c == d
    || IsSmallLetterOf(c, d) || IsSmallLetterOf(d, c)
    || (c in {0x401, 0x451, 0x415, 0x435} && d in {0x401, 0x451, 0x415, 0x435})
  }

  ghost predicate AreVariantTexts(a: seq<int>, b: seq<int>) {
    |a| == |b| && forall i :: 0 <= i < |a| ==> AreVariants(a[i], b[i])
  }

  lemma FoldWritesLetters(c: CodePoint)
    ensures IsWrittenAs(c, Fold(c))
  {
  }

  lemma FoldIdentifiesVariants(c: CodePoint, d: CodePoint)
    ensures Fold(c) == Fold(d) <==> AreVariants(c, d)
  {
  }

  /** Reading folded bytes gives the letters that were there, each written as in a normal form. */
  lemma {:induction false} FoldedReading(s: Text)
    ensures |Lenient(FoldBytes(s))| == |Lenient(s)|
    ensures forall i :: 0 <= i < |Lenient(s)| ==> IsWrittenAs(Lenient(s)[i], Lenient(FoldBytes(s))[i])
    decreases |s|
  {
    if s != [] {
      match TryDecode(s, 0)
      case None =>
        var folded := FoldBytes(s[1..]);
        FoldedReading(s[1..]);
        FoldKeepsRun(s[1..]);
        assert ([s[0]] + folded)[1..] == folded;
        DecodesIff(s);
        DecodesIff([s[0]] + folded);
        assert Lenient(FoldBytes(s)) == [s[0] as int] + Lenient(folded);
      case Some(d) =>
        var folded := FoldBytes(s[d.length..]);
        var c := Fold(d.codePoint);
        FoldedReading(s[d.length..]);
        FoldWritesLetters(d.codePoint);
        DecodeInvertsEncode(c, folded);
        assert (Encode(c) + folded)[|Encode(c)|..] == folded;
        assert Lenient(FoldBytes(s)) == [c as int] + Lenient(folded);
    }
  }

  /** For all bytes: the normal form reads like the collapsed text, letter by letter in its normal writing. */
  lemma NormalFormReading(value: Text)
    ensures var before, after := Lenient(CollapseBytes(value)), Lenient(NormalizeText(value));
            |after| == |before| && forall i :: 0 <= i < |before| ==> IsWrittenAs(before[i], after[i])
  {
    FoldedReading(CollapseBytes(value));
  }

  /** No normal form has a capital of the two alphabets, or a YO. */
  lemma NormalFormHasNoCapitals(value: Text)
    ensures forall i :: 0 <= i < |Lenient(NormalizeText(value))| ==>
              !IsCapital(Lenient(NormalizeText(value))[i]) && !IsYo(Lenient(NormalizeText(value))[i])
  {
    NormalFormReading(value);
  }

  lemma FoldedAlikeIff(a: seq<CodePoint>, b: seq<CodePoint>)
    ensures FoldAll(a) == FoldAll(b) <==> AreVariantTexts(a, b)
  {
    if FoldAll(a) == FoldAll(b) {
      forall i | 0 <= i < |a| ensures AreVariants(a[i], b[i]) {
        assert FoldAll(a)[i] == FoldAll(b)[i];
        FoldIdentifiesVariants(a[i], b[i]);
      }
    }
    if AreVariantTexts(a, b) {
      forall i | 0 <= i < |a| ensures FoldAll(a)[i] == FoldAll(b)[i] {
        FoldIdentifiesVariants(a[i], b[i]);
      }
    }
  }

  /** Two valid texts share a normal form exactly when their collapsed texts are variants of each other. */
  lemma NormalFormsAgreeIff(a: seq<CodePoint>, b: seq<CodePoint>)
    requires AllScalars(a) && AllScalars(b)
    ensures NormalizeText(EncodeAll(a)) == NormalizeText(EncodeAll(b))
       <==> FoldAll(CollapseCodePoints(a)) == FoldAll(CollapseCodePoints(b))
    ensures NormalizeText(EncodeAll(a)) == NormalizeText(EncodeAll(b))
       <==> AreVariantTexts(CollapseCodePoints(a), CollapseCodePoints(b))
  {
    NormalizeTextOnCodePoints(a);
    NormalizeTextOnCodePoints(b);
    CollapseKeepsScalars(a);
    CollapseKeepsScalars(b);
    FoldKeepsShape(CollapseCodePoints(a));
    FoldKeepsShape(CollapseCodePoints(b));
    FoldedAlikeIff(CollapseCodePoints(a), CollapseCodePoints(b));
    if NormalizeText(EncodeAll(a)) == NormalizeText(EncodeAll(b)) {
      EncodeAllIsInjective(FoldAll(CollapseCodePoints(a)), FoldAll(CollapseCodePoints(b)));
    }
  }

  // ---------------------------------------------------------------------------------------
  // The two loops
  // ---------------------------------------------------------------------------------------

  lemma {:induction false} CollapseAppendSpace(s: seq<int>, b: int)
    requires IsWhitespace(b)
    ensures Collapse(s + [b]) == Collapse(s)
  {
    CollapseStep(s + [b]);
    if s == [] {
      assert (s + [b])[1..] == [];
    } else {
      assert (s + [b])[1..] == s[1..] + [b];
      CollapseStep(s);
      CollapseAppendSpace(s[1..], b);
    }
  }

  lemma {:induction false} VisibleTextStays(s: seq<int>)
    requires s != [] && !IsWhitespace(s[|s| - 1])
    ensures Collapse(s) != []
  {
    CollapseStep(s);
    if |s| > 1 {
      VisibleTextStays(s[1..]);
    }
  }

  lemma {:induction false} CollapseAppendInWord(s: seq<int>, b: int)
    requires !IsWhitespace(b) && s != [] && !IsWhitespace(s[|s| - 1])
    ensures Collapse(s + [b]) == Collapse(s) + [b]
  {
    var t := s + [b];
    CollapseStep(t);
    CollapseStep(s);
    if |s| == 1 {
      assert t[1..] == [b];
      CollapseStep([b]);
    } else {
      var rest := Collapse(s[1..]);
      assert t[1..] == s[1..] + [b];
      CollapseAppendInWord(s[1..], b);
      VisibleTextStays(s[1..]);
      if !IsWhitespace(s[0]) {
        assert [s[0]] + (rest + [b]) == [s[0]] + rest + [b];
        assert [s[0], 0x20] + (rest + [b]) == [s[0], 0x20] + rest + [b];
      }
    }
  }

  lemma {:induction false} CollapseAppendNewWord(s: seq<int>, b: int)
    requires !IsWhitespace(b) && (s == [] || IsWhitespace(s[|s| - 1]))
    ensures Collapse(s + [b]) == if Collapse(s) == [] then [b] else Collapse(s) + [0x20, b]
  {
    var t := s + [b];
    CollapseStep(t);
    if s == [] {
      assert t[1..] == [];
    } else {
      var rest := Collapse(s[1..]);
      assert t[1..] == s[1..] + [b];
      CollapseStep(s);
      CollapseAppendNewWord(s[1..], b);
      if |s| > 1 {
        CollapseStep(s[1..]);
      }
      if !IsWhitespace(s[0]) {
        assert [s[0]] + (rest + [0x20, b]) == [s[0]] + rest + [0x20, b];
        assert [s[0], 0x20] + (rest + [0x20, b]) == [s[0], 0x20] + rest + [0x20, b];
      }
    }
  }

  /** Folding from an index on, in the terms of the decoder at that index. */
  lemma FoldBytesStep(value: Text, index: nat)
    requires index < |value|
    ensures FoldBytes(value[index..]) ==
              match TryDecode(value, index)
              case None => [value[index]] + FoldBytes(value[index + 1..])
              case Some(d) => Encode(Fold(d.codePoint)) + FoldBytes(value[index + d.length..])
  {
    DecodeSuffix(value, index);
    var rest := value[index..];
    match TryDecode(value, index)
    case None => assert rest[1..] == value[index + 1..];
    case Some(d) => assert rest[d.length..] == value[index + d.length..];
  }

  method AppendLowercasedNormalizedUtf8(value: Text, result: Text) returns (extended: Text)
    ensures extended == result + FoldBytes(value)
  {
    extended := result;
    var index := 0;
    while index < |value|
      invariant 0 <= index <= |value|
      invariant extended + FoldBytes(value[index..]) == result + FoldBytes(value)
    {
      FoldBytesStep(value, index);
      ghost var before := extended;
      match TryDecode(value, index) {
        case None =>
          extended := extended + [value[index]];
          index := index + 1;
          assert before + ([value[index - 1]] + FoldBytes(value[index..])) == extended + FoldBytes(value[index..]);
        case Some(d) =>
          extended := extended + Encode(Fold(d.codePoint));
          index := index + d.length;
          assert before + (Encode(Fold(d.codePoint)) + FoldBytes(value[index..])) == extended + FoldBytes(value[index..]);
      }
    }
  }

  /** What the first loop of NormalizeText has built after reading `prefix`. */
  ghost function Trimmed(prefix: Text): Text {
    var words := CollapseBytes(prefix);
    if prefix != [] && IsWhitespace(prefix[|prefix| - 1]) && words != [] then words + [SPACE] else words
  }

  lemma TrimmedStep(prefix: Text, b: byte)
    ensures var wasSpace := prefix == [] || IsWhitespace(prefix[|prefix| - 1]);
            Trimmed(prefix + [b]) ==
            if !IsWhitespace(b) then Trimmed(prefix) + [b]
            else if wasSpace then Trimmed(prefix) else Trimmed(prefix) + [SPACE]
  {
    CollapseIsCollapsed(prefix);
    if IsWhitespace(b) {
      CollapseAppendSpace(prefix, b);
    } else if prefix == [] || IsWhitespace(prefix[|prefix| - 1]) {
      CollapseAppendNewWord(prefix, b);
    } else {
      CollapseAppendInWord(prefix, b);
    }
  }

  method Normalize(value: Text) returns (normalized: Text)
    ensures normalized == NormalizeText(value)
  {
    var trimmed: Text := [];
    var previousWasWhitespace := true;
    for i := 0 to |value|
      invariant previousWasWhitespace <==> value[..i] == [] || IsWhitespace(value[..i][i - 1])
      invariant trimmed == Trimmed(value[..i])
    {
      var currentByte := value[i];
      TrimmedStep(value[..i], currentByte);
      assert value[..i + 1] == value[..i] + [currentByte];
      if IsWhitespace(currentByte) {
        if !previousWasWhitespace {
          trimmed := trimmed + [SPACE];
          previousWasWhitespace := true;
        }
      } else {
        trimmed := trimmed + [currentByte];
        previousWasWhitespace := false;
      }
    }
    assert value[..|value|] == value;
    if trimmed != [] && trimmed[|trimmed| - 1] == SPACE {
      trimmed := trimmed[..|trimmed| - 1];
    }
    assert trimmed == CollapseBytes(value) by {
      CollapseIsCollapsed(value);
    }
    normalized := AppendLowercasedNormalizedUtf8(trimmed, []);
  }
}
