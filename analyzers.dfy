/**
 * The break predicates that decide where a word ends: the native delimiter
 * table (one row per analyzer, only TEXT exists), the two Java analyzers
 * that mirror it, and the native in-place normalizer built on the table.
 */
module Analyzers {
  import opened Common

  /** enum index_analyzer: the only analyzer is TEXT, row 0 of the table. */
  const TEXT: nat := 0

  /** The delimiter table; row TEXT holds " ?!:;,.\n\r". A C string row,
      so its implicit NUL terminator is not a member. */
  const DelimTable: seq<seq<byte>> := [[32, 63, 33, 58, 59, 44, 46, 10, 13]]

  /** The nine characters the English text analyzers break on. */
  predicate IsTextBreakChar(c: byte) {
    c == ' ' as byte || c == '.' as byte || c == ',' as byte || c == '\n' as byte ||
    c == '\r' as byte || c == '?' as byte || c == '!' as byte || c == ';' as byte ||
    c == ':' as byte
  }

  /** analyzer_word_should_break_at: walk the analyzer's delimiter row until
      its terminator and report whether c occurs in it. */
  method ShouldBreakAt(analyzer: nat, c: byte) returns (r: bool)
    requires analyzer < |DelimTable|
    ensures r <==> c in DelimTable[analyzer]
  {
    var delims := DelimTable[analyzer];
    var i := 0;
    while i < |delims|
      invariant 0 <= i <= |delims|
      invariant c !in delims[..i]
    {
      if c == delims[i] {
        return true;
      }
      i := i + 1;
    }
    assert delims[..i] == delims;
    return false;
  }

  /** The TEXT row holds exactly the nine English break characters. */
  lemma TextRowIsTextBreak(c: byte)
    ensures c in DelimTable[TEXT] <==> IsTextBreakChar(c)
  {
  }

  // ---------------------------------------------------------------------
  // Java analyzers
  // ---------------------------------------------------------------------

  /** EnglishAnalyzer.asNative: the native row this analyzer selects. */
  function EnglishAsNative(): (r: nat)
    ensures r < |DelimTable| && r == TEXT
  {
    0
  }

  /** EnglishAnalyzer.breakAt. */
  predicate EnglishBreakAt(c: byte) {
    c == ' ' as byte || c == '.' as byte || c == ',' as byte || c == '\n' as byte ||
    c == '\r' as byte || c == '?' as byte || c == '!' as byte || c == ';' as byte || c == ':' as byte
  }

  /** WhitespaceTextAnalyzer.breakAt (pure-Java path). */
  predicate WhitespaceTextBreakAt(c: byte) {
    c == ' ' as byte || c == '.' as byte || c == ',' as byte || c == '\n' as byte ||
    c == '\r' as byte || c == '?' as byte || c == '!' as byte || c == ';' as byte || c == ':' as byte
  }

  /** The Java English analyzer and the native row it names agree on every
      8-bit character, and neither breaks on TAB, letters or digits. */
  lemma EnglishMatchesNative(c: byte)
    ensures EnglishBreakAt(c) <==> c in DelimTable[EnglishAsNative()]
    ensures c == 9 ==> !EnglishBreakAt(c)
    ensures IsLetterOrDigit(c) ==> !EnglishBreakAt(c)
  {
  }

  /** The pure-Java analyzer is the same predicate as the English one. */
  lemma WhitespaceTextIsEnglish(c: byte)
    ensures WhitespaceTextBreakAt(c) <==> EnglishBreakAt(c)
    ensures c == 9 ==> !WhitespaceTextBreakAt(c)
  {
  }

  /** Neither the native rows nor the Java analyzers care about letter case. */
  lemma TextBreakCaseBlind()
    ensures forall c: byte :: EnglishBreakAt(ToLower(c)) == EnglishBreakAt(c)
    ensures forall c: byte :: WhitespaceTextBreakAt(ToLower(c)) == WhitespaceTextBreakAt(c)
    ensures CaseBlind(NulOrDelim(DelimTable[TEXT]))
  {
    forall c: byte ensures IsBreak(NulOrDelim(DelimTable[TEXT]), ToLower(c)) == IsBreak(NulOrDelim(DelimTable[TEXT]), c) {
      TextRowIsTextBreak(c);
      TextRowIsTextBreak(ToLower(c));
    }
  }

  /** The break rule JavaWordIndex.normalize follows with either English
      analyzer: its nine break characters. */
  const EnglishRule: BreakRule := AnyOf([32, 46, 44, 10, 13, 63, 33, 59, 58])

  lemma EnglishRuleIsBreakAt(c: byte)
    ensures IsBreak(EnglishRule, c) <==> EnglishBreakAt(c)
  {
  }

  /** Both Java normalizations (cut at an English break character, or at the
      first byte that is not a letter or digit, then lowercase) are
      idempotent. */
  lemma JavaNormalizeIdempotent(s: seq<byte>)
    ensures Normalize(Normalize(s, EnglishRule), EnglishRule) == Normalize(s, EnglishRule)
    ensures Normalize(Normalize(s, NotLetterOrDigit), NotLetterOrDigit) == Normalize(s, NotLetterOrDigit)
  {
    TextBreakCaseBlind();
    forall c: byte ensures IsBreak(EnglishRule, ToLower(c)) == IsBreak(EnglishRule, c) {
      EnglishRuleIsBreakAt(c);
      EnglishRuleIsBreakAt(ToLower(c));
    }
    NormalizeIdempotent(s, EnglishRule);
    NormalizeIdempotent(s, NotLetterOrDigit);
  }

  /** Case and trailing punctuation do not affect lookup: "God," and "god"
      normalize to the same key. */
  lemma GodCommaIsGod()
    ensures Normalize([71, 111, 100, 44], EnglishRule) == [103, 111, 100]
    ensures Normalize([103, 111, 100], EnglishRule) == [103, 111, 100]
  {
    CapitalGodWithComma();
    LowerGod();
  }

  /** "God," is cut at the comma and lowered; one half of GodCommaIsGod. */
  lemma CapitalGodWithComma()
    ensures Normalize([71, 111, 100, 44], EnglishRule) == [103, 111, 100]
  {
    var god: seq<byte> := [71, 111, 100, 44];
    EnglishRuleIsBreakAt(44);
    EnglishRuleIsBreakAt(71);
    EnglishRuleIsBreakAt(111);
    EnglishRuleIsBreakAt(100);
    assert BreakIndex([44], EnglishRule) == 0;
    assert god[1..][1..][1..] == [44];
    assert BreakIndex(god, EnglishRule) == 3;
    assert god[..3] == [71, 111, 100];
    assert LowerAll([100]) == [100];
    assert LowerAll([111, 100]) == [111, 100];
    assert LowerAll([71, 111, 100]) == [103, 111, 100];
  }

  /** "god" has no break character and is already lower case; the other
      half of GodCommaIsGod. */
  lemma LowerGod()
    ensures Normalize([103, 111, 100], EnglishRule) == [103, 111, 100]
  {
    var lower: seq<byte> := [103, 111, 100];
    EnglishRuleIsBreakAt(103);
    EnglishRuleIsBreakAt(111);
    EnglishRuleIsBreakAt(100);
    assert BreakIndex([], EnglishRule) == 0;
    assert lower[1..][1..][1..] == [];
    assert BreakIndex(lower, EnglishRule) == 3;
    assert lower[..3] == lower;
    assert LowerAll([100]) == [100];
    assert LowerAll([111, 100]) == [111, 100];
    assert LowerAll(lower) == lower;
  }

  // ---------------------------------------------------------------------
  // analyzer_normalize
  // ---------------------------------------------------------------------

  /** The bytes at which the native normalizer stops: the C string
      terminator or a delimiter of the row. */
  function NulOrDelim(row: seq<byte>): BreakRule {
    AnyOf([0] + row)
  }

  /** strncpy(dst, src, |src|) followed by dst[|src|] = NUL: the bytes of src
      up to its first NUL, then zero padding through index |src|. */
  method CopyBounded(src: seq<byte>, dst: array<byte>)
    requires |src| < dst.Length
    modifies dst
    ensures forall j :: 0 <= j < BreakIndex(src, AtNul) ==> dst[j] == src[j]
    ensures forall j :: BreakIndex(src, AtNul) <= j <= |src| ==> dst[j] == 0
    ensures dst[|src| + 1..] == old(dst[|src| + 1..])
  {
    ghost var k := BreakIndex(src, AtNul);
    BreakIndexIsFirst(src, AtNul);
    var i := 0;
    var padding := false;
    while i < |src|
      invariant 0 <= i <= |src|
      invariant padding <==> k < i
      invariant forall j :: 0 <= j < i ==> dst[j] == (if j < k then src[j] else 0)
      invariant dst[|src| + 1..] == old(dst[|src| + 1..])
    {
      if !padding && src[i] == 0 {
        padding := true;
      }
      dst[i] := if padding then 0 else src[i];
      i := i + 1;
    }
    dst[|src|] := 0;
  }

  /**
   * analyzer_normalize: copy at most originalLen bytes (strncpy stops at a
   * NUL and pads), terminate at originalLen, cut at the first delimiter and
   * lowercase what is left. The result is the shared normalization of the
   * first originalLen bytes, and length is its strlen.
   */
  method AnalyzerNormalize(analyzer: nat, original: seq<byte>, originalLen: nat, normalized: array<byte>)
    returns (length: nat)
    requires analyzer < |DelimTable|
    requires originalLen <= |original|
    requires originalLen < normalized.Length
    modifies normalized
    ensures length <= originalLen
    ensures normalized[..length] == Normalize(original[..originalLen], NulOrDelim(DelimTable[analyzer]))
    ensures normalized[length] == 0
    ensures normalized[originalLen + 1..] == old(normalized[originalLen + 1..])
  {
    ghost var brk := NulOrDelim(DelimTable[analyzer]);
    var src := original[..originalLen];
    ghost var cut := BreakIndex(src, brk);
    BreakIndexIsFirst(src, brk);
    CopyBounded(src, normalized);
    ghost var k := BreakIndex(src, AtNul);
    assert cut <= k;
    length := CutAtDelimiter(analyzer, normalized, src, cut, originalLen);
    LowercaseInPlace(normalized, length);
  }

  /** The cutting loop of analyzer_normalize over the copied bytes: the
      first byte that is NUL or a delimiter becomes the terminator, and the
      number of bytes before it is returned. */
  method CutAtDelimiter(analyzer: nat, normalized: array<byte>, ghost src: seq<byte>, ghost cut: nat,
                        ghost bound: nat)
    returns (length: nat)
    requires analyzer < |DelimTable|
    requires cut <= |src| && cut <= bound < normalized.Length
    requires forall j :: 0 <= j < cut ==> normalized[j] == src[j] && !IsBreak(NulOrDelim(DelimTable[analyzer]), src[j])
    requires normalized[cut] == 0 || normalized[cut] in DelimTable[analyzer]
    modifies normalized
    ensures length == cut && normalized[..length] == src[..cut] && normalized[length] == 0
    ensures normalized[bound + 1..] == old(normalized[bound + 1..])
  {
    length := 0;
    while normalized[length] != 0
      invariant 0 <= length <= cut
      invariant forall j :: 0 <= j < cut ==> normalized[j] == src[j]
      invariant normalized[cut] == 0 || normalized[cut] in DelimTable[analyzer]
      invariant normalized[bound + 1..] == old(normalized[bound + 1..])
      decreases cut - length
    {
      var isBreak := ShouldBreakAt(analyzer, normalized[length]);
      if isBreak {
        normalized[length] := 0;
        break;
      }
      length := length + 1;
    }
  }

  /** Normalizing an already normalized word changes nothing: the same
      bytes and therefore the same returned length. */
  lemma AnalyzerNormalizeIdempotent(s: seq<byte>)
    ensures Normalize(Normalize(s, NulOrDelim(DelimTable[TEXT])), NulOrDelim(DelimTable[TEXT]))
         == Normalize(s, NulOrDelim(DelimTable[TEXT]))
  {
    TextBreakCaseBlind();
    NormalizeIdempotent(s, NulOrDelim(DelimTable[TEXT]));
  }
}
