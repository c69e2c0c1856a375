/**
 * The line-based indexing of the pure-Java index (org.nse ...pojo and the
 * older org.ns JavaWordIndex), as values: RandomAccessFile.readLine splits
 * the file into lines, every line's tokens are placed at the line's
 * position, and the index maps each word to the positions of its tokens
 * in file order.
 */
module JavaLines {
  import opened Common
  import opened Indexing
  import opened LineTokenizer
  const LF: byte := 10
  const CR: byte := 13

  // ---------------------------------------------------------------------
  // RandomAccessFile.readLine
  // ---------------------------------------------------------------------

  /** The first '\n' or '\r' at or after `at`, or the end of the file. */
  function LineEnd(file: seq<byte>, at: nat): (e: nat)
    requires at <= |file|
    ensures at <= e <= |file|
    ensures forall k :: at <= k < e ==> file[k] != LF && file[k] != CR
    ensures e < |file| ==> file[e] == LF || file[e] == CR
    decreases |file| - at
  {
    if at == |file| || file[at] == LF || file[at] == CR then at else LineEnd(file, at + 1)
  }

  /** A line and where the next readLine starts. */
  datatype Line = Line(text: seq<byte>, next: nat)

  /** readLine from file offset `at`: null at the end of the file;
      otherwise the bytes up to the first line terminator, one char per
      byte, and the offset after that terminator. */
  function ReadLine(file: seq<byte>, at: nat): (r: Option<Line>)
    requires at <= |file|
    ensures r.None? <==> at == |file|
    ensures r.Some? ==> at < r.value.next <= |file| && at + |r.value.text| <= r.value.next
    ensures r.Some? && r.value.next < |file| ==> at + |r.value.text| < r.value.next
  {
    if at == |file| then None
    else
      var e := LineEnd(file, at);
      var next :=
        if e == |file| then e
        else if file[e] == CR && e + 1 < |file| && file[e + 1] == LF then e + 2
        else e + 1;
      Some(Line(file[at..e], next))
  }

  /** A line is the file's bytes up to the terminator, none of them a
      terminator byte, and the next read starts after exactly one "\n",
      "\r" or "\r\n" (after nothing only at the end of the file). */
  lemma ReadLineSplits(file: seq<byte>, at: nat)
    requires at < |file|
    ensures var line := ReadLine(file, at).value; var e := at + |line.text|;
      file[at..e] == line.text &&
      (forall k :: 0 <= k < |line.text| ==> line.text[k] != LF && line.text[k] != CR) &&
      file[e..line.next] in {[], [LF], [CR], [CR, LF]} &&
      (file[e..line.next] == [] ==> line.next == |file|) &&
      (file[e..line.next] == [CR] ==> line.next == |file| || file[line.next] != LF)
  {
    var e := LineEnd(file, at);
    var next := ReadLine(file, at).value.next;
    assert file[e..next] == [] || file[e..next] == [file[e]] || file[e..next] == [file[e], file[e + 1]];
  }

  // ---------------------------------------------------------------------
  // What doIndexing stores
  // ---------------------------------------------------------------------

  /** The tokens of a line, moved to the line's position in the file. */
  function Placed(ts: seq<Token>, base: nat): (rs: seq<Token>)
    ensures |rs| == |ts|
    ensures forall k :: 0 <= k < |ts| ==> rs[k] == Token(ts[k].word, base + ts[k].pos)
  {
    seq(|ts|, k requires 0 <= k < |ts| => Token(ts[k].word, base + ts[k].pos))
  }

  /** The tokens doIndexing stores from the line read at `at` on, when the
      running position is `position`. */
  function TokensFromLines(file: seq<byte>, at: nat, position: nat, brk: BreakRule): seq<Token>
    requires at <= |file|
    decreases |file| - at
  {
    match ReadLine(file, at)
    case None => []
    case Some(line) =>
      Placed(LineTokens(line.text, brk), position) +
      TokensFromLines(file, line.next, position + |line.text| + 1, brk)
  }

  /** Every token of the file, in the order doIndexing stores them. */
  function FileTokens(file: seq<byte>, brk: BreakRule): seq<Token> {
    TokensFromLines(file, 0, 0, brk)
  }

  /** `done` holds the tokens of the lines before offset `at`, whose line
      starts at `position`: the rest of the file supplies the others. */
  ghost predicate ReadUpTo(file: seq<byte>, brk: BreakRule, done: seq<Token>, at: nat, position: nat) {
    at <= |file| && done + TokensFromLines(file, at, position, brk) == FileTokens(file, brk)
  }

  /** One store into the map: the position appended to the word's list, or
      a new list holding only this position. */
  function AddToken(m: map<seq<byte>, seq<nat>>, t: Token): (r: map<seq<byte>, seq<nat>>)
    ensures r.Keys == m.Keys + {t.word}
  {
    m[t.word := (if t.word in m then m[t.word] else []) + [t.pos]]
  }

  /** The map after storing the tokens one after the other. */
  function IndexOf(ts: seq<Token>): map<seq<byte>, seq<nat>>
    decreases |ts|
  {
    if ts == [] then map[] else AddToken(IndexOf(ts[..|ts| - 1]), ts[|ts| - 1])
  }

  /** The positions of w's tokens, in token order. */
  function Occurrences(ts: seq<Token>, w: seq<byte>): seq<nat>
    decreases |ts|
  {
    if ts == [] then []
    else Occurrences(ts[..|ts| - 1], w) + (if ts[|ts| - 1].word == w then [ts[|ts| - 1].pos] else [])
  }

  /** Some token carries the word w. */
  predicate HasWord(ts: seq<Token>, w: seq<byte>) {
    exists k :: 0 <= k < |ts| && ts[k].word == w
  }


  /** Storing one more token is one more AddToken. */
  lemma IndexOfSnoc(ts: seq<Token>, t: Token)
    ensures IndexOf(ts + [t]) == AddToken(IndexOf(ts), t)
  {
    assert (ts + [t])[..|ts|] == ts;
  }

  /** A word has positions exactly when some token carries it. */
  lemma {:induction false} OccurrencesNonEmpty(ts: seq<Token>, w: seq<byte>)
    ensures HasWord(ts, w) <==> Occurrences(ts, w) != []
    decreases |ts|
  {
    if ts != [] {
      var init := ts[..|ts| - 1];
      OccurrencesNonEmpty(init, w);
      if HasWord(init, w) {
        var k :| 0 <= k < |init| && init[k].word == w;
        assert ts[k] == init[k];
      }
      if HasWord(ts, w) && ts[|ts| - 1].word != w {
        var k :| 0 <= k < |ts| && ts[k].word == w;
        assert init[k] == ts[k];
      }
    }
  }

  /** The map holds exactly the words of the tokens, and each word's list
      is the positions of its tokens, in order. */
  lemma {:induction false} IndexOfIsOccurrences(ts: seq<Token>)
    ensures forall w :: w in IndexOf(ts) <==> HasWord(ts, w)
    ensures forall w :: w in IndexOf(ts) ==> IndexOf(ts)[w] == Occurrences(ts, w)
    ensures forall w :: w !in IndexOf(ts) ==> Occurrences(ts, w) == []
    decreases |ts|
  {
    if ts != [] {
      var init := ts[..|ts| - 1];
      var t := ts[|ts| - 1];
      IndexOfIsOccurrences(init);
      assert ts == init + [t];
      forall w
        ensures w in IndexOf(ts) <==> HasWord(ts, w)
      {
        if HasWord(init, w) {
          var k :| 0 <= k < |init| && init[k].word == w;
          assert ts[k] == init[k];
        }
        if HasWord(ts, w) && w != t.word {
          var k :| 0 <= k < |ts| && ts[k].word == w;
          assert init[k] == ts[k];
        }
      }
    }
  }

  /** Each word's positions keep the order of the tokens: strictly
      increasing when the token positions are. */
  lemma {:induction false} OccurrencesIncrease(ts: seq<Token>, w: seq<byte>)
    requires Increasing(ts)
    ensures forall i, j :: 0 <= i < j < |Occurrences(ts, w)| ==> Occurrences(ts, w)[i] < Occurrences(ts, w)[j]
    ensures forall i :: 0 <= i < |Occurrences(ts, w)| ==> exists k :: 0 <= k < |ts| && ts[k] == Token(w, Occurrences(ts, w)[i])
    decreases |ts|
  {
    if ts != [] {
      var init := ts[..|ts| - 1];
      var t := ts[|ts| - 1];
      assert Increasing(init);
      OccurrencesIncrease(init, w);
      var o := Occurrences(init, w);
      forall i | 0 <= i < |o|
        ensures o[i] < t.pos
      {
        var k :| 0 <= k < |init| && init[k] == Token(w, o[i]);
        assert ts[k] == init[k];
      }
      var all := Occurrences(ts, w);
      assert all == o + (if t.word == w then [t.pos] else []);
      forall i | 0 <= i < |all|
        ensures exists k :: 0 <= k < |ts| && ts[k] == Token(w, all[i])
      {
        if i < |o| {
          var k :| 0 <= k < |init| && init[k] == Token(w, o[i]);
          assert ts[k] == init[k];
        } else {
          assert ts[|ts| - 1] == Token(w, all[i]);
        }
      }
      assert forall i :: 0 <= i < |all| ==> exists k :: 0 <= k < |ts| && ts[k] == Token(w, all[i]);
    } else {
      assert Occurrences(ts, w) == [];
    }
  }

  /** The tokens' positions strictly increase and lie in [lo, hi). */
  ghost predicate Spread(ts: seq<Token>, lo: int, hi: int) {
    Increasing(ts) && forall k :: 0 <= k < |ts| ==> lo <= ts[k].pos < hi
  }

  /** Two spread runs of tokens, the first ending before the second
      begins, are spread together. */
  lemma AppendSpread(a: seq<Token>, b: seq<Token>, lo: int, mid: int, from: int, hi: int)
    requires Spread(a, lo, mid) && Spread(b, from, hi)
    requires lo <= mid <= from && mid <= hi
    ensures Spread(a + b, lo, hi)
  {
    forall j, k | 0 <= j < k < |a + b|
      ensures (a + b)[j].pos < (a + b)[k].pos
    {
      if k < |a| {
        assert (a + b)[j] == a[j] && (a + b)[k] == a[k];
      } else if j < |a| {
        assert (a + b)[j] == a[j] && (a + b)[k] == b[k - |a|];
      } else {
        assert (a + b)[j] == b[j - |a|] && (a + b)[k] == b[k - |a|];
      }
    }
    forall k | 0 <= k < |a + b|
      ensures lo <= (a + b)[k].pos < hi
    {
      if k < |a| {
        assert (a + b)[k] == a[k];
      } else {
        assert (a + b)[k] == b[k - |a|];
      }
    }
  }

  /** The tokens of one line, placed at `position`: increasing, and within
      the line's length from it. */
  lemma PlacedLineSound(text: seq<byte>, position: nat, brk: BreakRule)
    ensures Spread(Placed(LineTokens(text, brk), position), position, position + |text|)
  {
    LineTokensAreRuns(text, brk);
  }

  /** The positions doIndexing stores from a line on strictly increase and
      lie in the file, no earlier than the running position: a line's
      position never passes its offset, as every terminator counts at
      least one. */
  lemma {:induction false} TokensFromLinesSound(file: seq<byte>, at: nat, position: nat, brk: BreakRule)
    requires at <= |file| && (at < |file| ==> position <= at)
    ensures Spread(TokensFromLines(file, at, position, brk), position, |file|)
    decreases |file| - at
  {
    match ReadLine(file, at)
    case None =>
    case Some(line) =>
      var tokens := LineTokens(line.text, brk);
      var next := position + |line.text| + 1;
      assert line.next < |file| ==> next <= line.next;
      TokensFromLinesSound(file, line.next, next, brk);
      PlacedLineSound(line.text, position, brk);
      AppendSpread(Placed(tokens, position), TokensFromLines(file, line.next, next, brk),
                   position, position + |line.text|, next, |file|);
      TokensFromLinesUnfold(file, at, position, brk, line, tokens, line.next, next);
  }

  /** Every stored position is an offset into the file, and each word's
      positions strictly increase. */
  lemma FilePositionsSound(file: seq<byte>, brk: BreakRule, w: seq<byte>)
    ensures forall k :: 0 <= k < |FileTokens(file, brk)| ==> FileTokens(file, brk)[k].pos < |file|
    ensures forall i :: 0 <= i < |Occurrences(FileTokens(file, brk), w)| ==> Occurrences(FileTokens(file, brk), w)[i] < |file|
    ensures forall i, j :: 0 <= i < j < |Occurrences(FileTokens(file, brk), w)| ==>
      Occurrences(FileTokens(file, brk), w)[i] < Occurrences(FileTokens(file, brk), w)[j]
  {
    TokensFromLinesSound(file, 0, 0, brk);
    OccurrencesIncrease(FileTokens(file, brk), w);
  }

  /** The positions of w in the file, as both index classes keep them:
      offsets into the file, strictly increasing. */
  function Positions(file: seq<byte>, brk: BreakRule, w: seq<byte>): (ps: seq<nat>)
    ensures forall i :: 0 <= i < |ps| ==> ps[i] < |file|
    ensures forall i, j :: 0 <= i < j < |ps| ==> ps[i] < ps[j]
  {
    FilePositionsSound(file, brk, w);
    Occurrences(FileTokens(file, brk), w)
  }

  /** Looking a word up in the index built from the file: it is there
      exactly when some token of the file carries it, and then it maps to
      the word's positions; a word that is not there has none. */
  lemma LookupIsPositions(file: seq<byte>, brk: BreakRule, m: map<seq<byte>, seq<nat>>, w: seq<byte>)
    requires m == IndexOf(FileTokens(file, brk))
    ensures w in m <==> HasWord(FileTokens(file, brk), w)
    ensures w in m <==> Positions(file, brk, w) != []
    ensures w in m ==> m[w] == Positions(file, brk, w)
  {
    IndexOfIsOccurrences(FileTokens(file, brk));
    OccurrencesNonEmpty(FileTokens(file, brk), w);
  }

  /** One more token placed is one more token stored. */
  lemma PlacedStep(done: seq<Token>, tokens: seq<Token>, j: nat, position: nat)
    requires j < |tokens|
    ensures done + Placed(tokens[..j + 1], position) ==
      (done + Placed(tokens[..j], position)) + [Token(tokens[j].word, position + tokens[j].pos)]
  {
    assert Placed(tokens[..j + 1], position) == Placed(tokens[..j], position) + [Token(tokens[j].word, position + tokens[j].pos)];
  }

  /** One line read: its placed tokens join what was stored (`after`),
      and the lines from `next` on, starting at `nextPosition`, supply the
      rest of the file. */
  lemma LineStep(done: seq<Token>, file: seq<byte>, at: nat, position: nat, brk: BreakRule, line: Line, tokens: seq<Token>,
                 after: seq<Token>, next: nat, nextPosition: nat)
    requires at <= |file| && ReadLine(file, at) == Some(line) && tokens == LineTokens(line.text, brk)
    requires ReadUpTo(file, brk, done, at, position)
    requires after == done + Placed(tokens, position) && next == line.next && nextPosition == position + |line.text| + 1
    ensures next <= |file|
    ensures ReadUpTo(file, brk, after, next, nextPosition)
  {
    var head := Placed(tokens, position);
    var rest := TokensFromLines(file, next, nextPosition, brk);
    TokensFromLinesUnfold(file, at, position, brk, line, tokens, next, nextPosition);
    AppendAssociates(done, head, rest);
  }

  lemma AppendAssociates(a: seq<Token>, b: seq<Token>, c: seq<Token>)
    ensures (a + b) + c == a + (b + c)
  {
  }

  /** At the end of the file, what was stored is every token of it. */
  lemma ReadAll(file: seq<byte>, brk: BreakRule, done: seq<Token>, at: nat, position: nat)
    requires at <= |file| && ReadLine(file, at) == None && ReadUpTo(file, brk, done, at, position)
    ensures done == FileTokens(file, brk)
  {
    assert TokensFromLines(file, at, position, brk) == [];
    assert done + [] == done;
  }

  /** The lines from `at` on: the first line's tokens, placed at
      `position`, then the lines after it. */
  lemma TokensFromLinesUnfold(file: seq<byte>, at: nat, position: nat, brk: BreakRule, line: Line, tokens: seq<Token>,
                              next: nat, nextPosition: nat)
    requires at <= |file| && ReadLine(file, at) == Some(line) && tokens == LineTokens(line.text, brk)
    requires next == line.next && nextPosition == position + |line.text| + 1
    ensures next <= |file|
    ensures TokensFromLines(file, at, position, brk) == Placed(tokens, position) + TokensFromLines(file, next, nextPosition, brk)
  {
  }

  /** readLine also ends a line at "\r\n", but the running position counts
      one byte per terminator: in "a\r\nb" the token of "b" is stored at 2,
      where the file holds the '\n', one byte before the offset 3 of "b". */
  lemma CrLfShiftsPositions(brk: BreakRule)
    ensures FileTokens([97, CR, LF, 98], brk) == [Token(Normalize([97], brk), 0), Token(Normalize([98], brk), 2)]
  {
    var file: seq<byte> := [97, CR, LF, 98];
    var first := Line([97], 3);
    var second := Line([98], 4);
    assert LineEnd(file, 0) == 1;
    assert file[0..1] == [97];
    assert ReadLine(file, 0) == Some(first);
    assert LineEnd(file, 3) == 4;
    assert file[3..4] == [98];
    assert ReadLine(file, 3) == Some(second);
    SingleRunLine([97], brk);
    SingleRunLine([98], brk);
    TokensFromLinesUnfold(file, 0, 0, brk, first, [Token(Normalize([97], brk), 0)], 3, 2);
    TokensFromLinesUnfold(file, 3, 2, brk, second, [Token(Normalize([98], brk), 0)], 4, 4);
    assert TokensFromLines(file, 4, 4, brk) == [];
  }

  /** A line of one non-whitespace byte is one token at 0. */
  lemma SingleRunLine(text: seq<byte>, brk: BreakRule)
    requires |text| == 1 && !IsJavaWhitespace(text[0])
    ensures LineTokens(text, brk) == [Token(Normalize(text, brk), 0)]
  {
    assert WsEnd(text, 1) == 1;
    assert WsEnd(text, 0) == 1;
    assert text[0..1] == text;
  }
}
