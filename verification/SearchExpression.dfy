/**
  * The expression that free search text becomes for the full-text index: every token of the
  * text as a quoted prefix.
  */
module SearchExpression {
  import opened MetadataNormalization
  import opened Utf8
  import opened Wrappers

  const QUOTE: byte := 0x22
  const STAR: byte := 0x2A

  /** isalnum in the default locale, or a byte of a longer encoding. */
  predicate IsTokenByte(b: byte) {
    b >= 0x80 || 0x30 <= b <= 0x39 || 0x41 <= b <= 0x5A || 0x61 <= b <= 0x7A
  }

  /** Letters, digits, and every byte of a longer encoding can be searched for. */
  predicate IsSearchable(b: byte) {
    || b > '\U{007F}' as int
    || 'a' as int <= b <= 'z' as int || 'A' as int <= b <= 'Z' as int || '0' as int <= b <= '9' as int
  }

  /** What can be searched for stays, and everything else separates words. */
  function Sanitized(text: Text): (r: Text)
    ensures |r| == |text| && forall i :: 0 <= i < |r| ==> r[i] == if IsSearchable(text[i]) then text[i] else ' ' as int
  {
    if text == [] then []
    else Sanitized(text[..|text| - 1]) + [if IsTokenByte(text[|text| - 1]) then text[|text| - 1] else SPACE]
  }

  function Quoted(token: Text): Text {
    [QUOTE] + token + [QUOTE, STAR]
  }

  /** The tokens of a text between blanks, each as a quoted prefix, with blanks between them. */
  function QuotedTokens(text: Text, token: Text, query: Text): Text {
    if text == [] then Flushed(token, query)
    else if text[0] == SPACE then QuotedTokens(text[1..], [], Flushed(token, query))
    else QuotedTokens(text[1..], token + [text[0]], query)
  }

  function Flushed(token: Text, query: Text): Text {
    if token == [] then query
    else (if query == [] then [] else query + [SPACE]) + Quoted(token)
  }

  function FtsQuery(text: Text): Text {
    QuotedTokens(NormalizeText(Sanitized(NormalizeText(text))), [], [])
  }

  method BuildFtsQuery(text: Text) returns (query: Text)
    ensures query == FtsQuery(text)
  {
    var normalizedText := Normalize(text);
    var sanitizedText: Text := [];
    for i := 0 to |normalizedText|
      invariant sanitizedText == Sanitized(normalizedText[..i])
    {
      assert normalizedText[..i + 1][..i] == normalizedText[..i];
      sanitizedText := sanitizedText + [if IsTokenByte(normalizedText[i]) then normalizedText[i] else SPACE];
    }
    assert normalizedText[..|normalizedText|] == normalizedText;
    var tokenizedText := Normalize(sanitizedText);
    query := [];
    var token: Text := [];
    for i := 0 to |tokenizedText|
      invariant QuotedTokens(tokenizedText[i..], token, query) == FtsQuery(text)
    {
      assert tokenizedText[i..][1..] == tokenizedText[i + 1..];
      if tokenizedText[i] == SPACE {
        query := Flushed(token, query);
        token := [];
      } else {
        token := token + [tokenizedText[i]];
      }
    }
    query := Flushed(token, query);
  }

  /** The pieces of a text between blanks. */
  function Tokens(text: Text, token: Text): seq<Text> {
    if text == [] then (if token == [] then [] else [token])
    else if text[0] == SPACE then (if token == [] then [] else [token]) + Tokens(text[1..], [])
    else Tokens(text[1..], token + [text[0]])
  }

  /** A list of quoted prefixes, which is how the index reads an expression. */
  function ReadPrefixes(query: Text): Option<seq<Text>> {
    if query == [] then Some([])
    else if query[0] != QUOTE then None
    else
      var token := UpToQuote(query[1..]);
      var rest := query[1 + |token|..];
      if |rest| < 2 || rest[1] != STAR then None
      else if |rest| == 2 then Some([token])
      else if rest[2] != SPACE || |rest| == 3 then None
      else
        match ReadPrefixes(rest[3..])
        case None => None
        case Some(more) => Some([token] + more)
  }

  function UpToQuote(text: Text): (r: Text)
    ensures |r| <= |text| && QUOTE !in r && (|r| < |text| ==> text[|r|] == QUOTE)
  {
    if text == [] || text[0] == QUOTE then [] else [text[0]] + UpToQuote(text[1..])
  }

  predicate IsBareToken(token: Text) {
    token != [] && QUOTE !in token
  }

  function JoinedPrefixes(tokens: seq<Text>): Text {
    if tokens == [] then []
    else if |tokens| == 1 then Quoted(tokens[0])
    else Quoted(tokens[0]) + [SPACE] + JoinedPrefixes(tokens[1..])
  }

  lemma {:induction false} UpToQuoteOfToken(token: Text, rest: Text)
    requires QUOTE !in token && rest != [] && rest[0] == QUOTE
    ensures UpToQuote(token + rest) == token
  {
    if token == [] {
      assert token + rest == rest;
    } else {
      assert (token + rest)[1..] == token[1..] + rest;
      UpToQuoteOfToken(token[1..], rest);
    }
  }

  /** One step of the reader, with the token and the rest after it already told apart. */
  lemma ReadStep(query: Text, token: Text, rest: Text)
    requires query != [] && query[0] == QUOTE && UpToQuote(query[1..]) == token && query[1 + |token|..] == rest
    requires |rest| >= 2 && rest[1] == STAR && (|rest| > 2 ==> |rest| > 3 && rest[2] == SPACE)
    ensures ReadPrefixes(query) ==
              if |rest| == 2 then Some([token])
              else match ReadPrefixes(rest[3..]) case None => None case Some(more) => Some([token] + more)
  {
  }

  /** Where the parts of a quoted token are in a longer query. */
  lemma QuotedLayout(token: Text, tail: Text)
    ensures var q, rest := Quoted(token) + tail, [QUOTE, STAR] + tail;
            q != [] && q[0] == QUOTE && q[1..] == token + rest && q[1 + |token|..] == rest
  {
  }

  lemma AfterStar(tail: Text)
    ensures var rest := [QUOTE, STAR] + tail;
            && |rest| == 2 + |tail| && rest[1] == STAR
            && (tail != [] ==> rest[2] == tail[0] && rest[3..] == tail[1..])
  {
  }

  lemma ReadQuoted(token: Text, tail: Text)
    requires QUOTE !in token && (tail != [] ==> tail[0] == SPACE && |tail| > 1)
    ensures ReadPrefixes(Quoted(token) + tail) ==
              if tail == [] then Some([token])
              else match ReadPrefixes(tail[1..]) case None => None case Some(more) => Some([token] + more)
  {
    QuotedLayout(token, tail);
    AfterStar(tail);
    UpToQuoteOfToken(token, [QUOTE, STAR] + tail);
    ReadStep(Quoted(token) + tail, token, [QUOTE, STAR] + tail);
  }

  lemma {:induction false} ReadInvertsJoined(tokens: seq<Text>)
    requires forall i :: 0 <= i < |tokens| ==> IsBareToken(tokens[i])
    ensures ReadPrefixes(JoinedPrefixes(tokens)) == Some(tokens)
    ensures tokens != [] ==> JoinedPrefixes(tokens) != []
  {
    if |tokens| == 1 {
      ReadQuoted(tokens[0], []);
      assert Quoted(tokens[0]) + [] == Quoted(tokens[0]) && tokens == [tokens[0]];
    } else if tokens != [] {
      var tail := [SPACE] + JoinedPrefixes(tokens[1..]);
      ReadInvertsJoined(tokens[1..]);
      ReadQuoted(tokens[0], tail);
      assert JoinedPrefixes(tokens) == Quoted(tokens[0]) + tail;
      assert tail[1..] == JoinedPrefixes(tokens[1..]);
      assert tokens == [tokens[0]] + tokens[1..];
    }
  }

  lemma {:induction false} JoinedStep(tokens: seq<Text>, token: Text)
    requires token != []
    ensures JoinedPrefixes(tokens + [token]) == Flushed(token, JoinedPrefixes(tokens))
    ensures tokens != [] ==> JoinedPrefixes(tokens) != []
  {
    if tokens == [] {
      assert [] + [token] == [token];
    } else {
      assert (tokens + [token])[1..] == tokens[1..] + [token];
      JoinedStep(tokens[1..], token);
      if |tokens| > 1 {
        assert Quoted(tokens[0]) + [SPACE] + (JoinedPrefixes(tokens[1..]) + [SPACE] + Quoted(token))
            == Quoted(tokens[0]) + [SPACE] + JoinedPrefixes(tokens[1..]) + [SPACE] + Quoted(token);
      }
    }
  }

  /** The finished tokens and the one being read, if it has begun. */
  function WithToken(before: seq<Text>, token: Text): seq<Text> {
    if token == [] then before else before + [token]
  }

  lemma FlushedIsJoined(before: seq<Text>, token: Text)
    ensures Flushed(token, JoinedPrefixes(before)) == JoinedPrefixes(WithToken(before, token))
  {
    if token != [] {
      JoinedStep(before, token);
    }
  }

  lemma TokensAfterFlush(text: Text, token: Text, before: seq<Text>)
    ensures text == [] ==> before + Tokens(text, token) == WithToken(before, token)
    ensures text != [] && text[0] == SPACE ==> before + Tokens(text, token) == WithToken(before, token) + Tokens(text[1..], [])
    ensures text != [] && text[0] != SPACE ==> Tokens(text, token) == Tokens(text[1..], token + [text[0]])
  {
  }

  lemma {:induction false} QuotedTokensAreJoined(text: Text, token: Text, before: seq<Text>)
    ensures QuotedTokens(text, token, JoinedPrefixes(before)) == JoinedPrefixes(before + Tokens(text, token))
    decreases |text|
  {
    FlushedIsJoined(before, token);
    TokensAfterFlush(text, token, before);
    if text != [] {
      if text[0] == SPACE {
        QuotedTokensAreJoined(text[1..], [], WithToken(before, token));
      } else {
        QuotedTokensAreJoined(text[1..], token + [text[0]], before);
      }
    }
  }

  lemma {:induction false} TokensAreBare(text: Text, token: Text)
    requires QUOTE !in text && QUOTE !in token
    ensures forall i :: 0 <= i < |Tokens(text, token)| ==> IsBareToken(Tokens(text, token)[i])
    decreases |text|
  {
    if text != [] {
      if text[0] == SPACE {
        TokensAreBare(text[1..], []);
      } else {
        TokensAreBare(text[1..], token + [text[0]]);
      }
    }
  }

  // ---------------------------------------------------------------------------------------
  // No text can break out of its quotes
  // ---------------------------------------------------------------------------------------

  lemma EncodingQuotes(c: CodePoint)
    ensures QUOTE in Encode(c) <==> c == 0x22
  {
  }

  lemma {:induction false} EncodedQuotes(cs: seq<CodePoint>)
    ensures QUOTE in EncodeAll(cs) <==> 0x22 in cs
  {
    if cs != [] {
      EncodingQuotes(cs[0]);
      EncodedQuotes(cs[1..]);
    }
  }

  function Cleaned(c: CodePoint): CodePoint {
    if c >= 0x80 || IsTokenByte(c) then c else 0x20
  }

  function CleanedAll(cs: seq<CodePoint>): (r: seq<CodePoint>)
    ensures 0x22 !in r
  {
    if cs == [] then [] else [Cleaned(cs[0])] + CleanedAll(cs[1..])
  }

  lemma LongEncodingsAreHigh(c: CodePoint)
    requires c >= 0x80
    ensures forall i :: 0 <= i < |Encode(c)| ==> Encode(c)[i] >= 0x80
  {
  }

  lemma SanitizedOfOne(c: CodePoint)
    ensures Sanitized(Encode(c)) == Encode(Cleaned(c))
  {
    if c >= 0x80 {
      LongEncodingsAreHigh(c);
    }
  }

  lemma SanitizedOfConcatenation(a: Text, b: Text)
    ensures Sanitized(a + b) == Sanitized(a) + Sanitized(b)
  {
  }

  lemma {:induction false} SanitizedOfEncoding(cs: seq<CodePoint>)
    ensures Sanitized(EncodeAll(cs)) == EncodeAll(CleanedAll(cs))
  {
    if cs != [] {
      SanitizedOfOne(cs[0]);
      SanitizedOfConcatenation(Encode(cs[0]), EncodeAll(cs[1..]));
      SanitizedOfEncoding(cs[1..]);
      EncodeAllOfPrepended(Cleaned(cs[0]), CleanedAll(cs[1..]));
    }
  }

  lemma CollapsingAddsOnlyBlanks(cs: seq<CodePoint>)
    requires 0x22 !in cs
    ensures 0x22 !in FoldAll(CollapseCodePoints(cs))
  {
    CollapseIsCollapsed(cs);
    var r := CollapseCodePoints(cs);
    forall i | 0 <= i < |r| ensures Fold(r[i]) != 0x22 {
      assert r[i] in Collapse(cs);
    }
  }

  lemma {:induction false} WordsAreVisible(s: seq<int>)
    ensures forall i :: 0 <= i < |Words(s)| ==> Words(s)[i] != []
    ensures forall i, j :: 0 <= i < |Words(s)| && 0 <= j < |Words(s)[i]| ==> Words(s)[i][j] in s && !IsWhitespace(Words(s)[i][j])
  {
    if s != [] {
      WordsAreVisible(s[1..]);
    }
  }

  function WordsOfBytes(s: Text): (words: seq<Text>)
    ensures words == Words(s)
    ensures forall i :: 0 <= i < |words| ==> words[i] != [] && SPACE !in words[i]
  {
    WordsAreVisible(s);
    Words(s)
  }

  lemma {:induction false} TokenGrows(run: Text, tail: Text, token: Text)
    requires SPACE !in run
    ensures Tokens(run + tail, token) == Tokens(tail, token + run)
  {
    if run == [] {
      assert run + tail == tail && token + run == token;
    } else {
      assert (run + tail)[1..] == run[1..] + tail && run[0] in run;
      TokenGrows(run[1..], tail, token + [run[0]]);
      assert token + [run[0]] + run[1..] == token + run;
    }
  }

  /** Words with single blanks between them are the tokens of the text they make. */
  lemma {:induction false} TokensOfJoined(words: seq<Text>, text: Text)
    requires text == JoinWords(words) && forall i :: 0 <= i < |words| ==> words[i] != [] && SPACE !in words[i]
    ensures Tokens(text, []) == words
  {
    if |words| == 1 {
      TokenGrows(words[0], [], []);
      assert words[0] + [] == text && [] + words[0] == words[0] && words == [words[0]];
    } else if words != [] {
      var tail := text[|words[0]|..];
      assert text == words[0] + tail && tail[0] == SPACE && tail[1..] == JoinWords(words[1..]);
      TokenGrows(words[0], tail, []);
      TokensOfJoined(words[1..], tail[1..]);
      assert [] + words[0] == words[0] && words == [words[0]] + words[1..];
    }
  }

  /** Sanitizing and collapsing leave nothing to fold. */
  lemma CleanedIsFolded(folded: seq<CodePoint>)
    requires FoldAll(folded) == folded
    ensures FoldAll(CollapseCodePoints(CleanedAll(folded))) == CollapseCodePoints(CleanedAll(folded))
  {
    var cleaned := CleanedAll(folded);
    forall x | x in cleaned ensures Fold(x) == x {
      CleanedElements(folded, x);
      if x in folded {
        var i :| 0 <= i < |folded| && folded[i] == x;
        assert FoldAll(folded)[i] == x;
      }
    }
    CollapseIsCollapsed(cleaned);
    var r := CollapseCodePoints(cleaned);
    forall i | 0 <= i < |r| ensures Fold(r[i]) == r[i] {
      assert r[i] in Collapse(cleaned);
    }
  }

  lemma {:induction false} CleanedElements(cs: seq<CodePoint>, x: CodePoint)
    requires x in CleanedAll(cs)
    ensures x in cs || x == 0x20
  {
    if x != Cleaned(cs[0]) {
      CleanedElements(cs[1..], x);
    }
  }

  /**
    * Whatever valid text a user searches for, the index reads its expression back as quoted
    * prefixes of exactly the words of the sanitized text, none of them empty.
    */
  lemma ExpressionReadsBack(cs: seq<CodePoint>)
    ensures var tokens := WordsOfBytes(Sanitized(NormalizeText(EncodeAll(cs))));
            && ReadPrefixes(FtsQuery(EncodeAll(cs))) == Some(tokens)
            && forall i :: 0 <= i < |tokens| ==> IsBareToken(tokens[i])
  {
    var folded := FoldAll(CollapseCodePoints(cs));
    NormalizeTextOnCodePoints(cs);
    SanitizedOfEncoding(folded);
    var cleaned := CleanedAll(folded);
    NormalizeTextOnCodePoints(cleaned);
    CollapsingAddsOnlyBlanks(cleaned);
    EncodedQuotes(FoldAll(CollapseCodePoints(cleaned)));
    var text := EncodeAll(FoldAll(CollapseCodePoints(cleaned)));
    TokensAreBare(text, []);
    QuotedTokensAreJoined(text, [], []);
    assert [] + Tokens(text, []) == Tokens(text, []);
    ReadInvertsJoined(Tokens(text, []));
    FoldKeepsShape(CollapseCodePoints(cs));
    CleanedIsFolded(folded);
    CollapseCommutesWithEncoding(cleaned);
    TokensOfJoined(WordsOfBytes(EncodeAll(cleaned)), text);
  }
}
