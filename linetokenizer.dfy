/**
 * The line tokenizers of the pure-Java index (LineWordTokenizer in the
 * org.nse pojo package, and its two older copies in org.ns): a line is cut
 * at every whitespace character and at its end, and every run that is not
 * empty or blank becomes a token holding the normalized run and the index
 * of its first character. The three copies differ only in the
 * normalization, which is the break rule parameter here.
 */
module LineTokenizer {
  import opened Common
  import opened Indexing

  /** String.isBlank: every character is whitespace (the empty string too). */
  predicate IsBlank(s: seq<byte>) {
    forall i :: 0 <= i < |s| ==> IsJavaWhitespace(s[i])
  }

  /** The first whitespace character at or after s, or the end of the text. */
  function WsEnd(text: seq<byte>, s: nat): (e: nat)
    requires s <= |text|
    ensures s <= e <= |text|
    ensures e < |text| ==> IsJavaWhitespace(text[e])
    decreases |text| - s
  {
    if s == |text| || IsJavaWhitespace(text[s]) then s else WsEnd(text, s + 1)
  }

  lemma {:induction false} WsEndIsFirst(text: seq<byte>, s: nat)
    requires s <= |text|
    ensures forall j :: s <= j < WsEnd(text, s) ==> !IsJavaWhitespace(text[j])
    decreases |text| - s
  {
    if s < |text| && !IsJavaWhitespace(text[s]) {
      WsEndIsFirst(text, s + 1);
    }
  }

  /** storeToken: the token for text[s..e], or nothing when that run is
      empty or blank. */
  function StoreToken(text: seq<byte>, s: nat, e: nat, brk: BreakRule): (ts: seq<Token>)
    requires s <= e <= |text|
    ensures |ts| <= 1
  {
    var run := text[s..e];
    if IsBlank(run) || run == [] then [] else [Token(Normalize(run, brk), s)]
  }

  /** The tokens tokenizeLine stores from word start s on: the run up to the
      next whitespace, then the runs after it. */
  function TokensFrom(line: seq<byte>, s: nat, brk: BreakRule): seq<Token>
    requires s <= |line|
    decreases |line| - s
  {
    var e := WsEnd(line, s);
    StoreToken(line, s, e, brk) + (if e == |line| then [] else TokensFrom(line, e + 1, brk))
  }

  /** The tokens of a whole line. */
  function LineTokens(line: seq<byte>, brk: BreakRule): seq<Token> {
    TokensFrom(line, 0, brk)
  }

  /** The tokens still to come once the word start is s (past the end of
      the line, none). */
  function TokensAfter(line: seq<byte>, s: nat, brk: BreakRule): seq<Token> {
    if s <= |line| then TokensFrom(line, s, brk) else []
  }

  /**
   * tokenizeLine: wordEnd walks every index up to and including the end of
   * the line; at a whitespace character or at the end the run since
   * wordStart is stored and wordStart moves past wordEnd.
   */
  method TokenizeLine(line: seq<byte>, brk: BreakRule) returns (tokens: seq<Token>)
    ensures tokens == LineTokens(line, brk)
  {
    ghost var all := LineTokens(line, brk);
    tokens := [];
    var wordStart, wordEnd := 0, 0;
    while wordEnd <= |line|
      invariant wordStart <= wordEnd <= |line| + 1
      invariant wordEnd <= |line| ==> WsEnd(line, wordStart) == WsEnd(line, wordEnd)
      invariant wordEnd == |line| + 1 ==> wordStart == wordEnd
      invariant tokens + TokensAfter(line, wordStart, brk) == all
    {
      if wordEnd == |line| || IsJavaWhitespace(line[wordEnd]) {
        StoreAdvance(tokens, line, wordStart, wordEnd, brk);
        tokens := tokens + StoreToken(line, wordStart, wordEnd, brk);
        wordStart := wordEnd + 1;
      } else {
        SkipStep(line, wordEnd);
      }
      wordEnd := wordEnd + 1;
    }
    assert tokens + [] == tokens;
  }

  /** Storing the run that closes at e moves it from the tokens to come to
      the tokens stored. */
  lemma StoreAdvance(tokens: seq<Token>, line: seq<byte>, s: nat, e: nat, brk: BreakRule)
    requires s <= e <= |line| && WsEnd(line, s) == WsEnd(line, e)
    requires e == |line| || IsJavaWhitespace(line[e])
    ensures tokens + TokensAfter(line, s, brk) ==
      (tokens + StoreToken(line, s, e, brk)) + TokensAfter(line, e + 1, brk)
  {
    StoreStep(line, s, e, brk);
    AppendStep(tokens, StoreToken(line, s, e, brk), TokensAfter(line, e + 1, brk),
               tokens + TokensAfter(line, s, brk));
  }

  lemma AppendStep(done: seq<Token>, stored: seq<Token>, rest: seq<Token>, all: seq<Token>)
    requires done + (stored + rest) == all
    ensures done + stored + rest == all
  {
  }

  /** At the whitespace (or the end) that closes the run from s, the tokens
      from s are the stored run followed by the tokens after it. */
  lemma StoreStep(line: seq<byte>, s: nat, e: nat, brk: BreakRule)
    requires s <= e <= |line| && WsEnd(line, s) == WsEnd(line, e)
    requires e == |line| || IsJavaWhitespace(line[e])
    ensures TokensFrom(line, s, brk) ==
      StoreToken(line, s, e, brk) + (if e == |line| then [] else TokensFrom(line, e + 1, brk))
  {
    assert WsEnd(line, e) == e;
  }

  /** A character that is not whitespace does not end the run. */
  lemma SkipStep(line: seq<byte>, e: nat)
    requires e < |line| && !IsJavaWhitespace(line[e])
    ensures WsEnd(line, e) == WsEnd(line, e + 1)
  {
  }

  // ---------------------------------------------------------------------
  // What the tokens are
  // ---------------------------------------------------------------------

  /** p starts a run: a non-whitespace character at the start of the line
      or after a whitespace character. */
  predicate RunStart(line: seq<byte>, p: nat) {
    p < |line| && !IsJavaWhitespace(line[p]) && (p == 0 || IsJavaWhitespace(line[p - 1]))
  }

  /** Every token sits at a run start at or after lo and holds its run,
      normalized, and the positions strictly increase. */
  predicate TokensOfRuns(ts: seq<Token>, line: seq<byte>, lo: nat, brk: BreakRule) {
    (forall k :: 0 <= k < |ts| ==>
      lo <= ts[k].pos && RunStart(line, ts[k].pos) &&
      ts[k].word == Normalize(line[ts[k].pos..WsEnd(line, ts[k].pos)], brk)) &&
    (forall k, l :: 0 <= k < l < |ts| ==> ts[k].pos < ts[l].pos)
  }

  /** Some token of ts sits at position p. */
  predicate HasTokenAt(ts: seq<Token>, p: nat) {
    exists k :: 0 <= k < |ts| && ts[k].pos == p
  }

  /** A run without whitespace is blank exactly when it is empty. */
  lemma BlankRunIsEmpty(line: seq<byte>, s: nat)
    requires s <= |line|
    ensures IsBlank(line[s..WsEnd(line, s)]) <==> WsEnd(line, s) == s
  {
    WsEndIsFirst(line, s);
    if WsEnd(line, s) > s {
      assert line[s..WsEnd(line, s)][0] == line[s];
    }
  }

  /** A head of at most one token placed before tokens that all lie at or
      after the end of its run keeps the runs property. */
  lemma HeadThenRuns(line: seq<byte>, s: nat, brk: BreakRule, rest: seq<Token>)
    requires s < |line| && (s == 0 || IsJavaWhitespace(line[s - 1]))
    requires WsEnd(line, s) < |line|
    requires TokensOfRuns(rest, line, WsEnd(line, s) + 1, brk)
    ensures TokensOfRuns(StoreToken(line, s, WsEnd(line, s), brk) + rest, line, s, brk)
  {
    var e := WsEnd(line, s);
    BlankRunIsEmpty(line, s);
    RunsFromLower(rest, line, s + 1, e + 1, brk);
    if e == s {
      assert StoreToken(line, s, e, brk) == [];
      RunsFromLower(rest, line, s, s + 1, brk);
      assert StoreToken(line, s, e, brk) + rest == rest;
    } else {
      var t := Token(Normalize(line[s..e], brk), s);
      assert StoreToken(line, s, e, brk) == [t];
      ConsRuns(t, rest, line, brk);
    }
  }

  /** Tokens at or after hi are at or after any lo below it. */
  lemma RunsFromLower(ts: seq<Token>, line: seq<byte>, lo: nat, hi: nat, brk: BreakRule)
    requires lo <= hi && TokensOfRuns(ts, line, hi, brk)
    ensures TokensOfRuns(ts, line, lo, brk)
  {
  }

  /** A token at a run start, before tokens that lie after it. */
  lemma ConsRuns(t: Token, rest: seq<Token>, line: seq<byte>, brk: BreakRule)
    requires RunStart(line, t.pos) && t.word == Normalize(line[t.pos..WsEnd(line, t.pos)], brk)
    requires TokensOfRuns(rest, line, t.pos + 1, brk)
    ensures TokensOfRuns([t] + rest, line, t.pos, brk)
  {
    var ts := [t] + rest;
    forall k | 1 <= k < |ts|
      ensures ts[k] == rest[k - 1]
    {
    }
  }

  /** The tokens from a word start s are exactly the runs from s on: each
      at its run start with its normalized run, in increasing order. */
  lemma {:induction false} TokensFromSound(line: seq<byte>, s: nat, brk: BreakRule)
    requires s <= |line| && (s == 0 || IsJavaWhitespace(line[s - 1]))
    ensures TokensOfRuns(TokensFrom(line, s, brk), line, s, brk)
    decreases |line| - s
  {
    var e := WsEnd(line, s);
    if e < |line| {
      var rest := TokensFrom(line, e + 1, brk);
      TokensFromSound(line, e + 1, brk);
      InnerRunSound(line, s, brk, e, rest);
    } else {
      LastRunSound(line, s, brk);
    }
  }

  lemma InnerRunSound(line: seq<byte>, s: nat, brk: BreakRule, e: nat, rest: seq<Token>)
    requires s <= |line| && (s == 0 || IsJavaWhitespace(line[s - 1]))
    requires e == WsEnd(line, s) < |line| && rest == TokensFrom(line, e + 1, brk)
    requires TokensOfRuns(rest, line, e + 1, brk)
    ensures TokensOfRuns(TokensFrom(line, s, brk), line, s, brk)
  {
    HeadThenRuns(line, s, brk, rest);
    TokensFromSplit(line, s, brk, e, rest);
  }

  /** The tokens from s: the run's own, then those after its whitespace. */
  lemma TokensFromSplit(line: seq<byte>, s: nat, brk: BreakRule, e: nat, rest: seq<Token>)
    requires s <= |line| && e == WsEnd(line, s) < |line| && rest == TokensFrom(line, e + 1, brk)
    ensures TokensFrom(line, s, brk) == StoreToken(line, s, e, brk) + rest
  {
  }

  lemma LastRunSound(line: seq<byte>, s: nat, brk: BreakRule)
    requires s <= |line| && (s == 0 || IsJavaWhitespace(line[s - 1]))
    requires WsEnd(line, s) == |line|
    ensures TokensOfRuns(TokensFrom(line, s, brk), line, s, brk)
  {
    BlankRunIsEmpty(line, s);
    assert TokensFrom(line, s, brk) == StoreToken(line, s, |line|, brk);
  }

  /** Every run start from a word start s on has a token. */
  lemma {:induction false} TokensFromComplete(line: seq<byte>, s: nat, brk: BreakRule, p: nat)
    requires s <= |line| && s <= p && RunStart(line, p)
    ensures HasTokenAt(TokensFrom(line, s, brk), p)
    decreases |line| - s
  {
    if p == s {
      RunStartHasToken(line, s, brk);
    } else {
      WsEndIsFirst(line, s);
      assert WsEnd(line, s) < p;
      TokensFromComplete(line, WsEnd(line, s) + 1, brk, p);
      LaterRunHasToken(line, s, brk, p);
    }
  }

  /** The run starting at s is the first token from s. */
  lemma RunStartHasToken(line: seq<byte>, s: nat, brk: BreakRule)
    requires s <= |line| && RunStart(line, s)
    ensures |TokensFrom(line, s, brk)| > 0 && TokensFrom(line, s, brk)[0].pos == s
  {
    BlankRunIsEmpty(line, s);
    var head := StoreToken(line, s, WsEnd(line, s), brk);
    assert head[0].pos == s;
    StoreStep(line, s, WsEnd(line, s), brk);
  }

  /** A token of the runs after the first run is a token from s. */
  lemma LaterRunHasToken(line: seq<byte>, s: nat, brk: BreakRule, p: nat)
    requires s <= |line| && WsEnd(line, s) < |line|
    requires HasTokenAt(TokensFrom(line, WsEnd(line, s) + 1, brk), p)
    ensures HasTokenAt(TokensFrom(line, s, brk), p)
  {
    var rest := TokensFrom(line, WsEnd(line, s) + 1, brk);
    var head := StoreToken(line, s, WsEnd(line, s), brk);
    var k :| 0 <= k < |rest| && rest[k].pos == p;
    StoreStep(line, s, WsEnd(line, s), brk);
    assert (head + rest)[|head| + k] == rest[k];
  }

  /** The tokens of a line are its runs, one per run start, in order. */
  lemma LineTokensAreRuns(line: seq<byte>, brk: BreakRule)
    ensures TokensOfRuns(LineTokens(line, brk), line, 0, brk)
    ensures forall p :: RunStart(line, p) ==>
      exists k :: 0 <= k < |LineTokens(line, brk)| && LineTokens(line, brk)[k].pos == p
  {
    TokensFromSound(line, 0, brk);
    forall p | RunStart(line, p)
      ensures HasTokenAt(LineTokens(line, brk), p)
    {
      TokensFromComplete(line, 0, brk, p);
    }
  }
}

/** The tokenizer on the lines of its own examples, under the English
    analyzer's break characters. */
module LineTokenizerExamples {
  import opened Common
  import opened Indexing
  import opened Analyzers
  import opened LineTokenizer

  /** A line of whitespace only yields no token. */
  lemma BlankLine()
    ensures LineTokens([32, 9, 32], EnglishRule) == []
  {
  }

  /** ".": a run that normalizes to nothing still yields an (empty) token. */
  lemma DotLine()
    ensures LineTokens([46], EnglishRule) == [Token([], 0)]
  {
  }
}
