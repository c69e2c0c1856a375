/**
 * BufferedWordTokenizer: the whitespace tokenizer over one read buffer.
 * The first nBytes bytes of the buffer are split at whitespace like a line;
 * the last byte is special. When the buffer was not filled the last run is
 * the end of the text and is stored as it is. When the buffer is full and
 * ends inside a word, that partial word is not stored: its length becomes
 * the truncation count and its bytes are moved to the front of the buffer,
 * where the next read continues it.
 */
module BufferedTokenizer {
  import opened Common
  import opened Indexing
  import opened LineTokenizer

  /** What the constructor leaves behind: the tokens and the truncation. */
  datatype Scan = Scan(tokens: seq<Token>, truncate: nat)

  /**
   * The scan from word start s: whitespace is looked for at every index
   * but the last; at the last index the run is stored whole (buffer not
   * full), carried over (full, last byte not whitespace) or stored up to
   * the whitespace (full, last byte whitespace).
   */
  function ScanFrom(text: seq<byte>, s: nat, full: bool, brk: BreakRule): Scan
    requires s < |text|
    decreases |text| - s
  {
    var last := |text| - 1;
    var e := WsEnd(text, s);
    if e < last then
      var r := ScanFrom(text, e + 1, full, brk);
      Scan(StoreToken(text, s, e, brk) + r.tokens, r.truncate)
    else if !full then Scan(StoreToken(text, s, |text|, brk), 0)
    else if !IsJavaWhitespace(text[last]) then Scan([], |text| - s)
    else Scan(StoreToken(text, s, last, brk), 0)
  }

  /** The whole scan of the first nBytes bytes, `full` telling whether they
      fill the buffer. */
  function Scanned(text: seq<byte>, full: bool, brk: BreakRule): Scan {
    if text == [] then Scan([], 0) else ScanFrom(text, 0, full, brk)
  }

  /**
   * The constructor. `buffer` is the caller's read buffer and nBytes the
   * number of bytes the last read put in it; the carried-over bytes are
   * copied to its front with System.arraycopy semantics.
   */
  class BufferedWordTokenizer {
    var wordTokens: seq<Token>
    var truncate: nat

    constructor (buffer: array<byte>, nBytes: nat, brk: BreakRule)
      requires nBytes <= buffer.Length
      modifies buffer
      ensures Scan(wordTokens, truncate) == Scanned(old(buffer[..nBytes]), nBytes == buffer.Length, brk)
      ensures truncate <= nBytes
      ensures buffer[..truncate] == old(buffer[..nBytes])[nBytes - truncate..]
      ensures buffer[truncate..] == old(buffer[..])[truncate..]
    {
      wordTokens := [];
      truncate := 0;
      new;
      if nBytes > 0 {
        var tokens, wordStart := SplitBeforeLast(buffer, nBytes, brk);
        wordTokens := tokens;
        EndAtLast(buffer, nBytes, wordStart, brk);
      }
    }

    /** The iterations of the constructor loop before the last byte: every
        whitespace byte closes a run, which is stored. */
    method SplitBeforeLast(buffer: array<byte>, nBytes: nat, brk: BreakRule) returns (tokens: seq<Token>, wordStart: nat)
      requires 0 < nBytes <= buffer.Length
      ensures wordStart < nBytes && WsEnd(buffer[..nBytes], wordStart) >= nBytes - 1
      ensures ScanFrom(buffer[..nBytes], 0, nBytes == buffer.Length, brk) ==
        ScanAfter(tokens, buffer[..nBytes], wordStart, nBytes == buffer.Length, brk)
    {
      ghost var text := buffer[..nBytes];
      ghost var full := nBytes == buffer.Length;
      ghost var goal := ScanFrom(text, 0, full, brk);
      tokens := [];
      wordStart := 0;
      var wordEnd := 0;
      while wordEnd < nBytes - 1
        invariant wordStart <= wordEnd <= nBytes - 1
        invariant WsEnd(text, wordStart) == WsEnd(text, wordEnd)
        invariant ScanAfter(tokens, text, wordStart, full, brk) == goal
      {
        if IsJavaWhitespace(buffer[wordEnd]) {
          var stored := tokens + StoreToken(buffer[..nBytes], wordStart, wordEnd, brk);
          WhitespaceStep(tokens, text, wordStart, wordEnd, full, brk, stored);
          tokens, wordStart := stored, wordEnd + 1;
        } else {
          SkipStep(text, wordEnd);
        }
        wordEnd := wordEnd + 1;
      }
    }

    /** The last iteration of the constructor loop: the run that reaches
        the last byte is stored whole, carried over or stored up to the
        final whitespace. */
    method EndAtLast(buffer: array<byte>, nBytes: nat, wordStart: nat, brk: BreakRule)
      requires wordStart < nBytes <= buffer.Length
      requires WsEnd(buffer[..nBytes], wordStart) >= nBytes - 1 && truncate == 0
      modifies `wordTokens, `truncate, buffer
      ensures var r := ScanFrom(old(buffer[..nBytes]), wordStart, nBytes == buffer.Length, brk);
        wordTokens == old(wordTokens) + r.tokens && truncate == r.truncate
      ensures truncate <= nBytes
      ensures buffer[..truncate] == old(buffer[..nBytes])[nBytes - truncate..]
      ensures buffer[truncate..] == old(buffer[..])[truncate..]
    {
      ghost var text := buffer[..nBytes];
      ghost var full := nBytes == buffer.Length;
      var wordEnd := nBytes - 1;
      LastStep(text, wordStart, wordEnd, full, brk);
      ghost var r := ScanFrom(text, wordStart, full, brk);
      assert buffer[wordEnd] == text[wordEnd];
      if nBytes < buffer.Length {
        assert r == Scan(StoreToken(text, wordStart, nBytes, brk), 0);
        StoreRun(buffer, nBytes, wordStart, nBytes, brk);
      } else if !IsJavaWhitespace(buffer[wordEnd]) {
        assert r == Scan([], nBytes - wordStart);
        assert wordTokens + [] == wordTokens;
        truncate := (wordEnd - wordStart) + 1;
        ArrayCopyToFront(buffer, wordStart, truncate);
        assert text[nBytes - truncate..] == old(buffer[..])[wordStart..wordStart + truncate];
      } else {
        assert r == Scan(StoreToken(text, wordStart, wordEnd, brk), 0);
        StoreRun(buffer, nBytes, wordStart, wordEnd, brk);
      }
    }

    /** wordTokens.add of the run from s to e of the bytes read. */
    method StoreRun(buffer: array<byte>, nBytes: nat, s: nat, e: nat, brk: BreakRule)
      requires s <= e <= nBytes <= buffer.Length
      modifies `wordTokens
      ensures wordTokens == old(wordTokens) + StoreToken(buffer[..nBytes], s, e, brk)
    {
      StoreTokenPrefix(buffer[..], buffer[..nBytes], s, e, brk);
      wordTokens := wordTokens + StoreToken(buffer[..], s, e, brk);
    }

    /** didTruncate: a partial word was carried over. */
    predicate DidTruncate()
      reads this
    {
      truncate != 0
    }

    /** getTruncatedBytes: how many bytes were carried over. */
    function GetTruncatedBytes(): (n: nat)
      reads this
      ensures n > 0 <==> DidTruncate()
    {
      truncate
    }
  }

  /** System.arraycopy(buffer, from, buffer, 0, count): the copy behaves as
      if the source range were read before anything is written. */
  method ArrayCopyToFront(buffer: array<byte>, from: nat, count: nat)
    requires from + count <= buffer.Length
    modifies buffer
    ensures buffer[..count] == old(buffer[from..from + count])
    ensures buffer[count..] == old(buffer[count..])
  {
    forall i | 0 <= i < count {
      buffer[i] := buffer[from + i];
    }
  }

  /** The token of a run only depends on the bytes of the run. */
  lemma StoreTokenPrefix(big: seq<byte>, text: seq<byte>, s: nat, e: nat, brk: BreakRule)
    requires s <= e <= |text| <= |big| && text == big[..|text|]
    ensures StoreToken(big, s, e, brk) == StoreToken(text, s, e, brk)
  {
    assert big[s..e] == text[s..e];
  }

  /** The scan from word start s behind the tokens already stored. */
  function ScanAfter(stored: seq<Token>, text: seq<byte>, s: nat, full: bool, brk: BreakRule): Scan
    requires s < |text|
  {
    var r := ScanFrom(text, s, full, brk);
    Scan(stored + r.tokens, r.truncate)
  }

  /** At a whitespace byte before the last, the scan stores the run and
      goes on after it. */
  lemma WhitespaceStep(stored: seq<Token>, text: seq<byte>, s: nat, e: nat, full: bool, brk: BreakRule,
                       next: seq<Token>)
    requires s <= e < |text| - 1 && IsJavaWhitespace(text[e])
    requires WsEnd(text, s) == WsEnd(text, e) && next == stored + StoreToken(text, s, e, brk)
    ensures ScanAfter(stored, text, s, full, brk) == ScanAfter(next, text, e + 1, full, brk)
  {
    var run := StoreToken(text, s, e, brk);
    var r := ScanFrom(text, e + 1, full, brk);
    assert WsEnd(text, e) == e;
    assert ScanFrom(text, s, full, brk) == Scan(run + r.tokens, r.truncate);
    AppendStep(stored, run, r.tokens, stored + (run + r.tokens));
  }

  /** At the last byte, the scan ends in one of its three cases. */
  lemma LastStep(text: seq<byte>, s: nat, e: nat, full: bool, brk: BreakRule)
    requires s <= e == |text| - 1
    requires WsEnd(text, s) >= e
    ensures ScanFrom(text, s, full, brk) ==
      if !full then Scan(StoreToken(text, s, |text|, brk), 0)
      else if !IsJavaWhitespace(text[e]) then Scan([], |text| - s)
      else Scan(StoreToken(text, s, e, brk), 0)
  {
  }

  // ---------------------------------------------------------------------
  // The buffered scan against the line tokenizer
  // ---------------------------------------------------------------------

  /** Adding a whitespace byte that is also a break character to a run
      stores the same token. */
  lemma TrailingBreakSameToken(text: seq<byte>, s: nat, brk: BreakRule)
    requires s < |text| && IsJavaWhitespace(text[|text| - 1]) && IsBreak(brk, text[|text| - 1])
    requires s <= |text| - 1
    ensures StoreToken(text, s, |text|, brk) == StoreToken(text, s, |text| - 1, brk)
  {
    var run := text[s..|text| - 1];
    var c := text[|text| - 1];
    assert text[s..|text|] == run + [c];
    NormalizeIgnoresTrailingBreak(run, c, brk);
    if run == [] {
      assert IsBlank(run + [c]);
    } else {
      assert IsBlank(run + [c]) <==> IsBlank(run) by {
        assert forall i :: 0 <= i < |run| ==> (run + [c])[i] == run[i];
      }
    }
  }

  /** The run carried over. */
  predicate CarriedRun(text: seq<byte>, t: nat) {
    0 < t <= |text| &&
    (forall j :: |text| - t <= j < |text| ==> !IsJavaWhitespace(text[j])) &&
    (t == |text| || IsJavaWhitespace(text[|text| - t - 1]))
  }

  /** The token a carried-over run of length t would have made. */
  function CarriedToken(text: seq<byte>, t: nat, brk: BreakRule): Token
    requires t <= |text|
  {
    Token(Normalize(text[|text| - t..], brk), |text| - t)
  }

  /** A full buffer ending inside a word: the scan from s stores the
      line's tokens from s but the last and carries the last run over. */
  predicate CarriesLastRun(text: seq<byte>, s: nat, brk: BreakRule, r: Scan)
    requires s <= |text|
  {
    CarriedRun(text, r.truncate) && s <= |text| - r.truncate &&
    r.tokens + [CarriedToken(text, r.truncate, brk)] == TokensFrom(text, s, brk)
  }

  /** The endings on which the scan stores exactly the line's tokens: a
      full buffer ending in whitespace, or a partial buffer whose last byte
      is not whitespace or is also a break character. */
  predicate EndsLikeLine(text: seq<byte>, full: bool, brk: BreakRule)
    requires |text| > 0
  {
    var c := text[|text| - 1];
    if full then IsJavaWhitespace(c) else IsJavaWhitespace(c) ==> IsBreak(brk, c)
  }

  /** A run that ends before the last byte is stored by both tokenizers,
      in front of the carried-over scan after it. */
  lemma InnerRunCarries(text: seq<byte>, s: nat, full: bool, brk: BreakRule)
    requires s < |text| && WsEnd(text, s) < |text| - 1
    requires CarriesLastRun(text, WsEnd(text, s) + 1, brk, ScanFrom(text, WsEnd(text, s) + 1, full, brk))
    ensures CarriesLastRun(text, s, brk, ScanFrom(text, s, full, brk))
  {
    var e := WsEnd(text, s);
    var head := StoreToken(text, s, e, brk);
    var r' := ScanFrom(text, e + 1, full, brk);
    assert ScanFrom(text, s, full, brk) == Scan(head + r'.tokens, r'.truncate);
    assert CarriedRun(text, r'.truncate);
    StoreStep(text, s, e, brk);
    AppendStep(head, r'.tokens, [CarriedToken(text, r'.truncate, brk)], TokensFrom(text, s, brk));
  }

  /** A run that ends before the last byte is stored by both tokenizers,
      in front of the matching scan after it. */
  lemma InnerRunMatches(text: seq<byte>, s: nat, full: bool, brk: BreakRule)
    requires s < |text| && WsEnd(text, s) < |text| - 1
    requires ScanFrom(text, WsEnd(text, s) + 1, full, brk) == Scan(TokensFrom(text, WsEnd(text, s) + 1, brk), 0)
    ensures ScanFrom(text, s, full, brk) == Scan(TokensFrom(text, s, brk), 0)
  {
    var e := WsEnd(text, s);
    var head := StoreToken(text, s, e, brk);
    var rest := TokensFrom(text, e + 1, brk);
    assert ScanFrom(text, s, full, brk) == Scan(head + rest, 0);
    StoreStep(text, s, e, brk);
  }

  /** A full buffer whose last run reaches its end carries that run over. */
  lemma LastRunCarries(text: seq<byte>, s: nat, brk: BreakRule)
    requires s < |text| && (s == 0 || IsJavaWhitespace(text[s - 1]))
    requires WsEnd(text, s) >= |text| - 1 && !IsJavaWhitespace(text[|text| - 1])
    ensures CarriesLastRun(text, s, brk, ScanFrom(text, s, true, brk))
  {
    var n := |text|;
    WsEndIsFirst(text, s);
    BlankRunIsEmpty(text, s);
    StoreStep(text, s, n, brk);
    assert text[s..n] == text[n - (n - s)..];
    assert StoreToken(text, s, n, brk) == [CarriedToken(text, n - s, brk)];
  }

  /** The last run without whitespace, in a partial buffer, is stored
      whole by both tokenizers. */
  lemma LastRunWholeMatches(text: seq<byte>, s: nat, full: bool, brk: BreakRule)
    requires s < |text| && WsEnd(text, s) == |text| && EndsLikeLine(text, full, brk)
    ensures ScanFrom(text, s, full, brk) == Scan(TokensFrom(text, s, brk), 0)
  {
    WsEndIsFirst(text, s);
    StoreStep(text, s, |text|, brk);
  }

  /** The last run ending at a final whitespace byte is stored without it
      by both tokenizers (in a partial buffer that byte is a break
      character, which normalizing drops). */
  lemma LastRunCutMatches(text: seq<byte>, s: nat, full: bool, brk: BreakRule)
    requires s < |text| && WsEnd(text, s) == |text| - 1 && EndsLikeLine(text, full, brk)
    ensures ScanFrom(text, s, full, brk) == Scan(TokensFrom(text, s, brk), 0)
  {
    var n := |text|;
    StoreStep(text, s, n - 1, brk);
    StoreStep(text, n, n, brk);
    assert TokensFrom(text, n, brk) == [];
    if !full {
      TrailingBreakSameToken(text, s, brk);
    }
  }

  lemma {:induction false} ScanFromCarries(text: seq<byte>, s: nat, brk: BreakRule)
    requires s < |text| && (s == 0 || IsJavaWhitespace(text[s - 1]))
    requires !IsJavaWhitespace(text[|text| - 1])
    ensures CarriesLastRun(text, s, brk, ScanFrom(text, s, true, brk))
    decreases |text| - s
  {
    if WsEnd(text, s) < |text| - 1 {
      ScanFromCarries(text, WsEnd(text, s) + 1, brk);
      InnerRunCarries(text, s, true, brk);
    } else {
      LastRunCarries(text, s, brk);
    }
  }

  lemma {:induction false} ScanFromMatches(text: seq<byte>, s: nat, full: bool, brk: BreakRule)
    requires s < |text| && EndsLikeLine(text, full, brk)
    ensures ScanFrom(text, s, full, brk) == Scan(TokensFrom(text, s, brk), 0)
    decreases |text| - s
  {
    if WsEnd(text, s) < |text| - 1 {
      ScanFromMatches(text, WsEnd(text, s) + 1, full, brk);
      InnerRunMatches(text, s, full, brk);
    } else if WsEnd(text, s) == |text| {
      LastRunWholeMatches(text, s, full, brk);
    } else {
      LastRunCutMatches(text, s, full, brk);
    }
  }

  /** The buffered tokenizer on a whole read, against the line tokenizer
      on the same bytes. */
  lemma ScannedIsLine(text: seq<byte>, full: bool, brk: BreakRule)
    ensures text == [] ==> Scanned(text, full, brk) == Scan([], 0)
    ensures text != [] && full && !IsJavaWhitespace(text[|text| - 1]) ==>
      var t := Scanned(text, full, brk).truncate;
      CarriedRun(text, t) &&
      Scanned(text, full, brk).tokens + [CarriedToken(text, t, brk)] == LineTokens(text, brk)
    ensures text != [] && EndsLikeLine(text, full, brk) ==>
      Scanned(text, full, brk) == Scan(LineTokens(text, brk), 0)
  {
    if text != [] {
      if full && !IsJavaWhitespace(text[|text| - 1]) {
        ScanFromCarries(text, 0, brk);
      }
      if EndsLikeLine(text, full, brk) {
        ScanFromMatches(text, 0, full, brk);
      }
    }
  }

  /** The quirk of a partial buffer: its last byte is kept in the last run
      even when it is whitespace, so a final TAB (whitespace, but not a
      break character of the English rule) stays in the word, where the
      line tokenizer drops it. */
  lemma TrailingTabKept(brk: BreakRule)
    requires brk == AnyOf([32, 46, 44, 10, 13, 63, 33, 59, 58])
    ensures Scanned([97, 9], false, brk).tokens == [Token([97, 9], 0)]
    ensures LineTokens([97, 9], brk) == [Token([97], 0)]
  {
    TabRunStored(brk);
    TabRunCut(brk);
  }

  /** The buffered scan of "a\t" in a partial buffer stores "a\t"; one
      half of TrailingTabKept. */
  lemma TabRunStored(brk: BreakRule)
    requires brk == AnyOf([32, 46, 44, 10, 13, 63, 33, 59, 58])
    ensures Scanned([97, 9], false, brk).tokens == [Token([97, 9], 0)]
  {
    var text: seq<byte> := [97, 9];
    assert text[0..2] == text;
    assert Normalize(text, brk) == [97, 9] by {
      assert BreakIndex(text, brk) == 2;
      assert text[..2] == text;
    }
    assert WsEnd(text, 0) == 1;
  }

  /** The line tokenizer stores "a" for "a\t"; the other half of
      TrailingTabKept. */
  lemma TabRunCut(brk: BreakRule)
    requires brk == AnyOf([32, 46, 44, 10, 13, 63, 33, 59, 58])
    ensures LineTokens([97, 9], brk) == [Token([97], 0)]
  {
    var text: seq<byte> := [97, 9];
    assert IsJavaWhitespace(text[1]);
    assert WsEnd(text, 0) == 1;
    assert text[0..1] == [97];
    assert Normalize([97], brk) == [97];
    StoreStep(text, 0, 1, brk);
    StoreStep(text, 2, 2, brk);
  }
}
