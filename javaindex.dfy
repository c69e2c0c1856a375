/**
 * The pure-Java index of both packages (org.nse ...pojo.JavaWordIndex and
 * the older org.ns JavaWordIndex). doIndexing reads the file line by line
 * with RandomAccessFile.readLine, tokenizes every line, counts the position
 * of a line as the sum of the earlier line lengths plus one each, and keeps
 * a map from normalized word to a WordEntry holding the word's positions.
 * A query reads a context window back from the file for every position.
 * The two packages differ only in the break rule of normalize and in how
 * much of each read a query keeps.
 */
module JavaIndex {
  import opened Common
  import opened Indexing
  import opened LineTokenizer
  import opened Frames
  import opened Frontends
  import opened JavaLines

  // ---------------------------------------------------------------------
  // normalize
  // ---------------------------------------------------------------------

  /** normalize: scan for the first break character, keep the prefix before
      it (the whole word when there is none) and lowercase it. */
  method JavaNormalize(word: seq<byte>, brk: BreakRule) returns (token: seq<byte>)
    ensures token == Normalize(word, brk)
  {
    var cut := |word|;
    var i := 0;
    while i < |word|
      invariant i <= |word| && cut == |word|
      invariant forall k :: 0 <= k < i ==> !IsBreak(brk, word[k])
    {
      if IsBreak(brk, word[i]) {
        cut := i;
        break;
      }
      i := i + 1;
    }
    BreakIndexIsFirst(word, brk);
    token := LowerAll(word[..cut]);
  }

  // ---------------------------------------------------------------------
  // WordEntry
  // ---------------------------------------------------------------------

  /** Java's String.hashCode over one char per byte, as the 32 bits of the
      int: h := 31*h + c for every char. */
  function StringHash(s: seq<byte>): (h: nat)
    ensures h < U32_LIMIT
    decreases |s|
  {
    if s == [] then 0 else (31 * StringHash(s[..|s| - 1]) + s[|s| - 1] as nat) % U32_LIMIT
  }

  /** A word and the positions where it was found; two entries are equal
      when their words are. */
  class WordEntry {
    const word: seq<byte>
    var filePositions: seq<nat>

    /** A new entry holds its first position only. */
    constructor (word: seq<byte>, initial: nat)
      ensures this.word == word && filePositions == [initial]
    {
      this.word := word;
      filePositions := [initial];
    }

    /** addFilePosition appends; the earlier positions stay as they were. */
    method AddFilePosition(filePosition: nat)
      modifies `filePositions
      ensures filePositions == old(filePositions) + [filePosition]
    {
      filePositions := filePositions + [filePosition];
    }

    /** equals: the same object, or another WordEntry with an equal word. */
    predicate Equals(other: WordEntry) {
      this == other || word == other.word
    }

    /** hashCode: Objects.hash(word), that is 31 + word.hashCode(). */
    function HashCode(): (h: nat)
      ensures h < U32_LIMIT
    {
      (31 + StringHash(word)) % U32_LIMIT
    }
  }

  /** Equality of entries is equality of their words, so equal entries
      hash alike. */
  lemma EqualEntriesHashAlike(a: WordEntry, b: WordEntry)
    ensures a.Equals(b) <==> a.word == b.word
    ensures a.Equals(b) ==> a.HashCode() == b.HashCode()
  {
  }

  // ---------------------------------------------------------------------
  // Reading windows back
  // ---------------------------------------------------------------------

  /** withContext: where the read for a word at pos starts, never before
      the start of the file; it is the native file_pos_with_context. */
  function WithContext(pos: nat, ctx: nat): (start: nat)
    ensures start == PosWithContext(pos, ctx)
  {
    var d := pos - ctx;
    if d < 0 then 0 else d
  }

  /** getActualReadLength: the buffer size, less what the file lacks before
      the word. With the buffer of a query it is the native read_size. */
  function ActualReadLength(ctx: nat, pos: nat, bufferSize: nat): (n: int)
    ensures bufferSize >= ctx ==> n >= 0
    ensures forall wordLen: nat {:trigger ReadSize(pos, ctx, wordLen)} ::
      bufferSize == 2 * ctx + wordLen ==> n == ReadSize(pos, ctx, wordLen)
  {
    var truncateBeginning := pos - ctx;
    if truncateBeginning < 0 then bufferSize + truncateBeginning else bufferSize
  }

  /** How many bytes RandomAccessFile.read(buffer) returns after seeking to
      start: 0 for an empty buffer, -1 at the end of the file, else as many
      as fit and the file still holds. */
  function ReadCount(fileLength: nat, start: nat, length: nat): (n: int)
    ensures n == -1 <==> 0 < length && fileLength <= start
    ensures 0 <= n ==> n <= length && (n == 0 || start + n <= fileLength)
    ensures 0 < n ==> n == length || start + n == fileLength
  {
    if length == 0 then 0 else if fileLength <= start then -1 else Min(length, fileLength - start)
  }

  /** seek(start) then read(buffer): the bytes read land at the front of
      the buffer. */
  method ReadAt(file: seq<byte>, start: nat, buffer: array<byte>) returns (readBytes: int)
    modifies buffer
    ensures readBytes == ReadCount(|file|, start, buffer.Length)
    ensures 0 < readBytes ==> buffer[..readBytes] == file[start..start + readBytes]
  {
    readBytes := ReadCount(|file|, start, buffer.Length);
    if 0 < readBytes {
      forall k | 0 <= k < readBytes {
        buffer[k] := file[start + k];
      }
    }
  }

  /** What a read of `size` bytes from withContext(pos) keeps when it is
      not cut to the actual read length. */
  function FullRead(file: seq<byte>, pos: nat, ctx: nat, size: nat): (r: seq<byte>)
    requires pos < |file|
  {
    var start := WithContext(pos, ctx);
    file[start..start + Min(size, |file| - start)]
  }

  /** One full read per position, in order. */
  function FullReads(file: seq<byte>, ps: seq<nat>, ctx: nat, size: nat): (rs: seq<seq<byte>>)
    requires forall k :: 0 <= k < |ps| ==> ps[k] < |file|
    ensures |rs| == |ps|
  {
    if ps == [] then [] else [FullRead(file, ps[0], ctx, size)] + FullReads(file, ps[1..], ctx, size)
  }

  lemma {:induction false} FullReadsAt(file: seq<byte>, ps: seq<nat>, ctx: nat, size: nat)
    requires forall k :: 0 <= k < |ps| ==> ps[k] < |file|
    ensures forall k :: 0 <= k < |ps| ==> FullReads(file, ps, ctx, size)[k] == FullRead(file, ps[k], ctx, size)
    decreases |ps|
  {
    if ps != [] {
      FullReadsAt(file, ps[1..], ctx, size);
    }
  }

  /** A full read is the window of the native encoder when the word is at
      least ctx bytes into the file, or when the file ends within the
      window; nearer the start it runs ctx - pos bytes past the window. */
  lemma FullReadVersusWindow(file: seq<byte>, pos: nat, ctx: nat, wordLen: nat)
    requires pos < |file|
    ensures ctx <= pos || |file| <= pos + ctx + wordLen ==>
      FullRead(file, pos, ctx, 2 * ctx + wordLen) == Window(file, pos, ctx, wordLen)
    ensures pos < ctx ==>
      FullRead(file, pos, ctx, 2 * ctx + wordLen) == file[..Min(2 * ctx + wordLen, |file|)]
  {
  }

  /** getWords keeps min(readBytes, actualReadLength) bytes of a read into
      a buffer of 2*ctx + |word| bytes: exactly the native window. */
  lemma ClampedReadIsWindow(file: seq<byte>, pos: nat, ctx: nat, wordLen: nat)
    requires pos < |file|
    ensures var size := 2 * ctx + wordLen;
      var start := WithContext(pos, ctx);
      var n := Min(ReadCount(|file|, start, size), ActualReadLength(ctx, pos, size));
      0 <= n <= size && start + n <= |file| && file[start..start + n] == Window(file, pos, ctx, wordLen)
  {
    var size := 2 * ctx + wordLen;
    assert ActualReadLength(ctx, pos, size) == ReadSize(pos, ctx, wordLen);
  }

  /** One read of getWords (org.nse): seek to withContext(pos), read into
      the buffer, keep min(readBytes, actualReadLength) bytes. */
  method ReadClamped(file: seq<byte>, pos: nat, ctx: nat, buffer: array<byte>) returns (str: seq<byte>)
    requires pos < |file| && 2 * ctx <= buffer.Length
    modifies buffer
    ensures str == Window(file, pos, ctx, buffer.Length - 2 * ctx)
  {
    var start := WithContext(pos, ctx);
    var actualReadLength := ActualReadLength(ctx, pos, buffer.Length);
    var readBytes := ReadAt(file, start, buffer);
    ClampedReadIsWindow(file, pos, ctx, buffer.Length - 2 * ctx);
    var n := Min(readBytes, actualReadLength);
    if 0 < n {
      assert buffer[..n] == buffer[..readBytes][..n];
      assert file[start..start + n] == file[start..start + readBytes][..n];
    }
    str := buffer[..n];
  }

  /** One read of wordsWithContext (org.ns) and of the iterator: seek to
      withContext(pos), read into the buffer, keep readBytes bytes. */
  method ReadFull(file: seq<byte>, pos: nat, ctx: nat, buffer: array<byte>) returns (str: seq<byte>)
    requires pos < |file|
    modifies buffer
    ensures str == FullRead(file, pos, ctx, buffer.Length)
  {
    var readBytes := ReadAt(file, WithContext(pos, ctx), buffer);
    str := buffer[..readBytes];
  }

  /** The loop of getWords: one clamped read per position, in order. */
  method ReadWindows(file: seq<byte>, positions: seq<nat>, ctx: nat, buffer: array<byte>) returns (results: seq<seq<byte>>)
    requires forall k :: 0 <= k < |positions| ==> positions[k] < |file|
    requires 2 * ctx <= buffer.Length
    modifies buffer
    ensures results == Windows(file, positions, ctx, buffer.Length - 2 * ctx)
  {
    var wordLen := buffer.Length - 2 * ctx;
    results := [];
    var k := 0;
    while k < |positions|
      invariant k <= |positions| && results == Windows(file, positions[..k], ctx, wordLen)
    {
      var str := ReadClamped(file, positions[k], ctx, buffer);
      assert results + [str] == Windows(file, positions[..k + 1], ctx, wordLen) by {
        assert positions[..k + 1] == positions[..k] + [positions[k]];
        WindowsAppend(file, positions[..k], [positions[k]], ctx, wordLen);
      }
      results := results + [str];
      k := k + 1;
    }
    assert positions[..k] == positions;
  }

  /** The loop of wordsWithContext: one full read per position, in order. */
  method ReadEach(file: seq<byte>, positions: seq<nat>, ctx: nat, buffer: array<byte>) returns (results: seq<seq<byte>>)
    requires forall k :: 0 <= k < |positions| ==> positions[k] < |file|
    modifies buffer
    ensures results == FullReads(file, positions, ctx, buffer.Length)
  {
    results := [];
    var k := 0;
    while k < |positions|
      invariant k <= |positions| && |results| == k
      invariant forall i :: 0 <= i < k ==> results[i] == FullRead(file, positions[i], ctx, buffer.Length)
    {
      var str := ReadFull(file, positions[k], ctx, buffer);
      results := results + [str];
      k := k + 1;
    }
    FullReadsAt(file, positions, ctx, buffer.Length);
  }

  // ---------------------------------------------------------------------
  // The query iterator
  // ---------------------------------------------------------------------

  /**
   * JavaWordContextIterator, the same in both packages: one read per
   * remaining position into a buffer of 2*ctx + |word| bytes from
   * withContext(pos), kept up to readBytes. Unlike getWords it does not
   * cut a read near the start of the file to the actual read length.
   */
  class JavaWordContextIterator {
    const file: seq<byte>
    const ctx: nat
    const positions: seq<nat>
    const buffer: array<byte>
    /** How many positions the iterator has consumed. */
    var cursor: nat

    ghost predicate Valid()
      reads this
    {
      cursor <= |positions| && forall k :: 0 <= k < |positions| ==> positions[k] < |file|
    }

    /** The strings the iterator still yields, in order. */
    ghost function Remaining(): seq<seq<byte>>
      reads this
      requires Valid()
    {
      FullReads(file, positions[cursor..], ctx, buffer.Length)
    }

    /** The iterator over an entry's positions, with a fresh buffer. */
    constructor (file: seq<byte>, ctx: nat, word: seq<byte>, positions: seq<nat>)
      requires forall k :: 0 <= k < |positions| ==> positions[k] < |file|
      ensures Valid() && this.file == file && this.ctx == ctx && this.positions == positions
      ensures buffer.Length == 2 * ctx + |word| && fresh(buffer)
      ensures Remaining() == FullReads(file, positions, ctx, 2 * ctx + |word|)
    {
      this.file := file;
      this.ctx := ctx;
      this.positions := positions;
      buffer := new byte[2 * ctx + |word|];
      cursor := 0;
      new;
      assert positions[0..] == positions;
    }

    /** hasNext: positions remain. */
    method HasNext() returns (b: bool)
      requires Valid()
      ensures b <==> Remaining() != []
    {
      b := cursor < |positions|;
    }

    /** next: seek to withContext(pos) and return what one read of the
        whole buffer brings back. */
    method Next() returns (s: seq<byte>)
      requires Valid() && Remaining() != []
      modifies this, buffer
      ensures Valid() && [s] + Remaining() == old(Remaining())
    {
      ghost var rest := positions[cursor + 1..];
      assert positions[cursor..] == [positions[cursor]] + rest;
      var pos := positions[cursor];
      cursor := cursor + 1;
      s := ReadFull(file, pos, ctx, buffer);
    }
  }

  /** What a query for an iterator gives: an empty iterator, the
      ClassCastException of casting an empty iterator to
      WordContextIterator, an exception from opening the file, or an
      iterator over the word's positions. */
  datatype Iteration = NoWords | CastFails | Failed(error: OpenError) | Iterates(it: JavaWordContextIterator)

  /** The query returns normally and its iterator strings exactly `strings`. */
  ghost predicate Answers(r: Iteration, strings: seq<seq<byte>>)
    reads if r.Iterates? then {r.it} else {}
  {
    (r.NoWords? && strings == []) || (r.Iterates? && r.it.Valid() && r.it.Remaining() == strings)
  }

  /** A word the file does not hold has no reads to give, so an empty
      iterator would answer it; the cast that iterateWords and
      wordIteratorWithContext perform instead answers nothing. */
  lemma UnknownWordCastFails(file: seq<byte>, brk: BreakRule, word: seq<byte>, ctx: nat)
    requires Positions(file, brk, Normalize(word, brk)) == []
    ensures var w := Normalize(word, brk);
      var strings := FullReads(file, Positions(file, brk, w), ctx, 2 * ctx + |w|);
      strings == [] && Answers(NoWords, strings) && !Answers(CastFails, strings)
  {
  }

  // ---------------------------------------------------------------------
  // The index
  // ---------------------------------------------------------------------

  /** An index over a file whose words are normalized by `brk`: the
      analyzer's break characters in org.nse, any byte that is not a letter
      or digit in org.ns. */
  class JavaWordIndex {
    /** The bytes of the file at the index's path, which nothing writes. */
    const file: seq<byte>
    const brk: BreakRule
    var index: map<seq<byte>, WordEntry>
    /** org.ns only: whether the RandomAccessFile field is open. */
    var fileOpen: bool

    /** Every entry is filed under its own word. */
    ghost predicate Filed()
      reads `index
    {
      forall w :: w in index ==> index[w].word == w
    }

    /** The positions the entries hold, by word. */
    ghost function Entries(): map<seq<byte>, seq<nat>>
      reads `index, index.Values
    {
      map w | w in index :: index[w].filePositions
    }

    /** After indexing, the entries hold exactly the words of the file and
        their positions. */
    ghost predicate Valid()
      reads `index, index.Values
    {
      Filed() && Entries() == IndexOf(FileTokens(file, brk))
    }

    /** The constructor, once the path was found: index the file. */
    constructor (file: seq<byte>, brk: BreakRule)
      ensures Valid() && this.file == file && this.brk == brk && !fileOpen
    {
      this.file := file;
      this.brk := brk;
      index := map[];
      fileOpen := true;
      new;
      DoIndexing();
    }

    /**
     * doIndexing: read the file line by line; store every token of a line
     * at the line's position plus the token's offset in it, then advance
     * the position by the line's length plus one. org.ns closes its file
     * afterwards.
     */
    method DoIndexing()
      requires index == map[]
      modifies this
      ensures Valid() && !fileOpen
    {
      var at: nat := 0;
      var position: nat := 0;
      ghost var done: seq<Token> := [];
      var read := ReadLine(file, at);
      while read.Some?
        invariant at <= |file| && read == ReadLine(file, at)
        invariant ReadUpTo(file, brk, done, at, position)
        invariant Filed() && forall w :: w in index ==> fresh(index[w])
        invariant Entries() == IndexOf(done)
        decreases |file| - at
      {
        var line := read.value;
        var tokens := TokenizeLine(line.text, brk);
        StoreTokens(tokens, position, done);
        ghost var after := done + Placed(tokens, position);
        var next: nat, nextPosition: nat := line.next, position + |line.text| + 1;
        LineStep(done, file, at, position, brk, line, tokens, after, next, nextPosition);
        done, at, position := after, next, nextPosition;
        read := ReadLine(file, at);
      }
      ReadAll(file, brk, done, at, position);
      assert Valid();
      fileOpen := false;
    }

    /** The tokens of one line, each appended to its word's entry or filed
        under a new entry. */
    method StoreTokens(tokens: seq<Token>, position: nat, ghost done: seq<Token>)
      requires Filed() && Entries() == IndexOf(done)
      modifies `index, index.Values
      ensures Filed() && Entries() == IndexOf(done + Placed(tokens, position))
      ensures forall w :: w in index ==> (w in old(index) && index[w] == old(index[w])) || (w !in old(index) && fresh(index[w]))
    {
      var j := 0;
      assert done + Placed(tokens[..j], position) == done;
      while j < |tokens|
        invariant j <= |tokens|
        invariant Filed() && Entries() == IndexOf(done + Placed(tokens[..j], position))
        invariant old(index).Keys <= index.Keys
        invariant forall w :: w in index ==> (w in old(index) && index[w] == old(index[w])) || (w !in old(index) && fresh(index[w]))
      {
        var t := Token(tokens[j].word, position + tokens[j].pos);
        Store(t);
        PlacedStep(done, tokens, j, position);
        IndexOfSnoc(done + Placed(tokens[..j], position), t);
        j := j + 1;
      }
      assert tokens[..j] == tokens;
    }

    /** The body of doIndexing's inner loop for one token: append to the
        word's entry, or file a new entry with only this position. */
    method Store(t: Token)
      requires Filed()
      modifies `index, index.Values
      ensures Filed() && Entries() == AddToken(old(Entries()), t)
      ensures old(index).Keys <= index.Keys
      ensures forall w :: w in index ==> (w in old(index) && index[w] == old(index[w])) || (w !in old(index) && fresh(index[w]))
    {
      if t.word in index {
        var existing := index[t.word];
        existing.AddFilePosition(t.pos);
      } else {
        var entry := new WordEntry(t.word, t.pos);
        index := index[t.word := entry];
        assert Entries().Keys == old(Entries()).Keys + {t.word};
        assert forall w :: w in Entries() ==> Entries()[w] == AddToken(old(Entries()), t)[w];
      }
    }

    /** Looking a normalized word up: it is in the map exactly when some
        token of the file carries it, and its entry holds the word and the
        word's positions. */
    lemma LookUp(w: seq<byte>)
      requires Valid()
      ensures w in index <==> Positions(file, brk, w) != []
      ensures w in index ==> index[w].word == w && index[w].filePositions == Positions(file, brk, w)
    {
      LookupIsPositions(file, brk, Entries(), w);
      assert w in index ==> index[w].filePositions == Entries()[w];
    }

    /**
     * getWords (org.nse): an unknown word gives no strings; otherwise one
     * read per stored position, in order, into a buffer of 2*ctx + |word|
     * bytes from withContext(pos), kept up to min(readBytes,
     * actualReadLength). Each string is the native window of the word.
     */
    method GetWords(word: seq<byte>, ctx: ContextBytes) returns (results: seq<seq<byte>>)
      requires Valid()
      ensures var w := Normalize(word, brk);
        results == Windows(file, Positions(file, brk, w), ctx.Size(), |w|)
    {
      var w := JavaNormalize(word, brk);
      LookUp(w);
      if w !in index {
        return [];
      }
      var entry := index[w];
      var buffer := new byte[2 * ctx.Size() + |entry.word|];
      results := ReadWindows(file, entry.filePositions, ctx.Size(), buffer);
    }

    /** new JavaWordContextIterator(file, ctx, entry) for a word the index
        holds. */
    method NewIterator(w: seq<byte>, ctx: nat) returns (r: Iteration)
      requires Valid() && w in index
      ensures r.Iterates? && fresh(r.it) && r.it.Valid()
      ensures r.it.Remaining() == FullReads(file, Positions(file, brk, w), ctx, 2 * ctx + |w|)
    {
      LookUp(w);
      var entry := index[w];
      var it := new JavaWordContextIterator(file, ctx, entry.word, entry.filePositions);
      r := Iterates(it);
    }

    /**
     * iterateWords (org.nse) as written: an unknown word gets the empty
     * iterator cast to WordContextIterator, which throws
     * ClassCastException; a FileNotFoundException when the file is gone;
     * else an iterator over the word's positions.
     */
    method IterateWords(word: seq<byte>, ctx: ContextBytes, fileExists: bool) returns (r: Iteration)
      requires Valid()
      ensures Positions(file, brk, Normalize(word, brk)) == [] ==> r == CastFails
      ensures Positions(file, brk, Normalize(word, brk)) != [] && !fileExists ==> r == Failed(FileNotFound)
      ensures Positions(file, brk, Normalize(word, brk)) != [] && fileExists ==>
        r.Iterates? && fresh(r.it) && r.it.Valid() &&
        var w := Normalize(word, brk);
        r.it.Remaining() == FullReads(file, Positions(file, brk, w), ctx.Size(), 2 * ctx.Size() + |w|)
    {
      var w := JavaNormalize(word, brk);
      LookUp(w);
      if w !in index {
        return CastFails;
      }
      if !fileExists {
        return Failed(FileNotFound);
      }
      r := NewIterator(w, ctx.Size());
    }

    /**
     * iterateWords as evidently intended: an empty iterator for an unknown
     * word. Whenever the file exists, every word is answered with exactly
     * the full reads of its positions, as wordsWithContext returns them.
     */
    method IterateWordsIntended(word: seq<byte>, ctx: ContextBytes, fileExists: bool) returns (r: Iteration)
      requires Valid()
      ensures var w := Normalize(word, brk);
        fileExists ==> Answers(r, FullReads(file, Positions(file, brk, w), ctx.Size(), 2 * ctx.Size() + |w|))
      ensures !fileExists ==> r == if Positions(file, brk, Normalize(word, brk)) == [] then NoWords else Failed(FileNotFound)
      ensures r.Iterates? ==> fresh(r.it)
    {
      var w := JavaNormalize(word, brk);
      LookUp(w);
      if w !in index {
        return NoWords;
      }
      if !fileExists {
        return Failed(FileNotFound);
      }
      r := NewIterator(w, ctx.Size());
    }

    /**
     * wordsWithContext (org.ns): an unknown word gives no strings and
     * leaves the file as it was; otherwise the file is reopened if closed
     * and each position gives one read of 2*ctx + |word| bytes from
     * withContext(pos), kept up to readBytes.
     */
    method WordsWithContext(word: seq<byte>, ctx: ContextBytes) returns (results: seq<seq<byte>>)
      requires Valid()
      modifies `fileOpen
      ensures var w := Normalize(word, brk);
        results == FullReads(file, Positions(file, brk, w), ctx.Size(), 2 * ctx.Size() + |w|)
      ensures fileOpen == (old(fileOpen) || Positions(file, brk, Normalize(word, brk)) != [])
    {
      var w := JavaNormalize(word, brk);
      LookUp(w);
      if w !in index {
        return [];
      }
      var entry := index[w];
      if !fileOpen {
        fileOpen := true;
      }
      var buffer := new byte[2 * ctx.Size() + |entry.word|];
      results := ReadEach(file, entry.filePositions, ctx.Size(), buffer);
    }

    /**
     * wordIteratorWithContext (org.ns) as written: an unknown word, and
     * a file that cannot be opened once its stack trace is printed, both
     * get the empty iterator cast to WordContextIterator, which throws
     * ClassCastException; else an iterator over the word's positions.
     */
    method WordIteratorWithContext(word: seq<byte>, ctx: ContextBytes, fileOpens: bool) returns (r: Iteration)
      requires Valid()
      ensures Positions(file, brk, Normalize(word, brk)) == [] || !fileOpens ==> r == CastFails
      ensures Positions(file, brk, Normalize(word, brk)) != [] && fileOpens ==>
        r.Iterates? && fresh(r.it) && r.it.Valid() &&
        var w := Normalize(word, brk);
        r.it.Remaining() == FullReads(file, Positions(file, brk, w), ctx.Size(), 2 * ctx.Size() + |w|)
    {
      var w := JavaNormalize(word, brk);
      LookUp(w);
      if w !in index {
        return CastFails;
      }
      if !fileOpens {
        return CastFails;
      }
      r := NewIterator(w, ctx.Size());
    }
  }

  /** What constructing an index gives: the index, or the exception. */
  datatype Opened = Indexed(index: JavaWordIndex) | NotIndexed(error: OpenError)

  /** The constructors of both JavaWordIndex classes: a path that does not
      exist is refused, with FileNotFoundException in org.nse and
      IllegalArgumentException in org.ns (`legacy`); any other path is
      indexed, and the org.ns file is closed once indexing ends. */
  method OpenJavaIndex(file: seq<byte>, brk: BreakRule, fileExists: bool, legacy: bool) returns (r: Opened)
    ensures r.NotIndexed? <==> !fileExists
    ensures r.NotIndexed? ==> r.error == if legacy then IllegalArgument else FileNotFound
    ensures r.Indexed? ==> fresh(r.index) && r.index.Valid() && r.index.file == file && r.index.brk == brk
    ensures r.Indexed? ==> !r.index.fileOpen
  {
    if !fileExists {
      return NotIndexed(if legacy then IllegalArgument else FileNotFound);
    }
    var index := new JavaWordIndex(file, brk);
    r := Indexed(index);
  }
}
