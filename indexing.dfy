/**
 * What do_indexing stores, as pure functions: the file is read in chunks of
 * word_buffer_size - 1 bytes, each chunk is split by strtok on " \r\n", and
 * every token is normalized and stored at position_offset plus its offset
 * in the chunk. A token that reaches the last byte of a full chunk is moved
 * to the front of the buffer, but the carry-over is reset before the next
 * read, so that token is never stored and the next chunk starts afresh.
 */
module Indexing {
  import opened Common
  import opened CUtils
  import opened HashTable

  /** WHITESPACE, the strtok delimiters of do_indexing. */
  predicate IsDelim(c: byte) {
    c == ' ' as byte || c == '\r' as byte || c == '\n' as byte
  }

  /** A normalized word and the file offset of its first byte. */
  datatype Token = Token(word: seq<byte>, pos: nat)

  /** Where strtok ends a token that starts at i: the next delimiter or the
      end of the string. */
  function TokenEnd(text: seq<byte>, i: nat): (e: nat)
    requires i <= |text|
    ensures i <= e <= |text|
    ensures e < |text| ==> IsDelim(text[e])
    decreases |text| - i
  {
    if i == |text| || IsDelim(text[i]) then i else TokenEnd(text, i + 1)
  }

  /** A token holds no delimiter: TokenEnd is the first delimiter at or
      after i. */
  lemma {:induction false} TokenEndIsFirst(text: seq<byte>, i: nat)
    requires i <= |text|
    ensures forall j :: i <= j < TokenEnd(text, i) ==> !IsDelim(text[j])
    decreases |text| - i
  {
    if i < |text| && !IsDelim(text[i]) {
      TokenEndIsFirst(text, i + 1);
    }
  }

  /**
   * The tokens of one chunk (text is the chunk as a C string) from scan
   * position i on: delimiters are skipped, each token is normalized and
   * placed at base + its offset, and a token that ends at `edge`
   * (word_buffer_size - 1, the last byte of a full read) ends the scan
   * without being stored.
   */
  function ScanTokens(text: seq<byte>, i: nat, base: nat, edge: nat): seq<Token>
    requires i <= |text|
    decreases |text| - i, 1
  {
    if i == |text| then []
    else if IsDelim(text[i]) then ScanTokens(text, i + 1, base, edge)
    else TakeToken(text, i, base, edge)
  }

  /** The scan at the first byte of a token: the token ends at the next
      delimiter; it is stored unless it ends at the edge, and the scan goes
      on after it. */
  function TakeToken(text: seq<byte>, i: nat, base: nat, edge: nat): seq<Token>
    requires i < |text| && !IsDelim(text[i])
    decreases |text| - i, 0
  {
    var e := TokenEnd(text, i);
    if e == edge then []
    else [Token(Normalize(text[i..e], NulOrPunct), base + i)] + ScanTokens(text, e, base, edge)
  }

  /** The size of the read at offset off: word_buffer_size - 1 bytes, or what
      is left of the file. */
  function ChunkSize(fileLength: nat, off: nat, bufferSize: nat): (n: nat)
    requires 1 <= bufferSize && off <= fileLength
    ensures n <= bufferSize - 1 && off + n <= fileLength
    ensures n == 0 <==> off == fileLength || bufferSize == 1
  {
    if bufferSize - 1 <= fileLength - off then bufferSize - 1 else fileLength - off
  }

  /** The tokens do_indexing stores from file offset off on, in order. */
  function IndexTokensFrom(file: seq<byte>, off: nat, bufferSize: nat): seq<Token>
    requires 1 <= bufferSize && off <= |file|
    decreases |file| - off
  {
    var n := ChunkSize(|file|, off, bufferSize);
    if n == 0 then []
    else ScanTokens(CString(file[off..off + n]), 0, off, bufferSize - 1) + IndexTokensFrom(file, off + n, bufferSize)
  }

  function IndexTokens(file: seq<byte>, bufferSize: nat): seq<Token>
    requires 1 <= bufferSize
  {
    IndexTokensFrom(file, 0, bufferSize)
  }

  /** Storing the tokens one after the other. */
  function StoreAll(s: IndexState, tokens: seq<Token>): IndexState
    requires 0 < |s.table|
    decreases |tokens|
  {
    if tokens == [] then s
    else
      StoreKeepsCapacity(s, tokens[0].word, tokens[0].pos);
      StoreAll(Store(s, tokens[0].word, tokens[0].pos), tokens[1..])
  }

  /** The index file_word_index_open builds: an empty table of the given
      capacity after storing every token. */
  function Indexed(file: seq<byte>, capacity: nat, bufferSize: nat): IndexState
    requires 0 < capacity && 1 <= bufferSize
  {
    StoreAll(IndexState(EmptyTable(capacity), 0), IndexTokens(file, bufferSize))
  }

  lemma StoreKeepsCapacity(s: IndexState, word: seq<byte>, pos: nat)
    requires 0 < |s.table|
    ensures |s.table| <= |Store(s, word, pos).table|
  {
  }

  // ---------------------------------------------------------------------
  // Lemmas
  // ---------------------------------------------------------------------

  /** Storing a token sequence keeps the index invariant. */
  lemma {:induction false} StoreAllKeepsInvariant(s: IndexState, tokens: seq<Token>)
    requires StateOk(s)
    ensures StateOk(StoreAll(s, tokens))
    decreases |tokens|
  {
    if tokens != [] {
      StoreKeepsInvariant(s, tokens[0].word, tokens[0].pos);
      StoreAllKeepsInvariant(Store(s, tokens[0].word, tokens[0].pos), tokens[1..]);
    }
  }

  /** The index after opening satisfies the invariant. */
  lemma IndexedOk(file: seq<byte>, capacity: nat, bufferSize: nat)
    requires 0 < capacity && 1 <= bufferSize
    ensures StateOk(Indexed(file, capacity, bufferSize))
  {
    EmptyStateOk(capacity);
    StoreAllKeepsInvariant(IndexState(EmptyTable(capacity), 0), IndexTokens(file, bufferSize));
  }

  /** Token positions strictly increase. */
  predicate Increasing(ts: seq<Token>) {
    forall j, k :: 0 <= j < k < |ts| ==> ts[j].pos < ts[k].pos
  }

  /** Every token lies in text (placed at base) from index lo on, on a byte
      that is neither a delimiter nor NUL. */
  predicate OnWordBytes(ts: seq<Token>, text: seq<byte>, base: nat, lo: nat) {
    forall k :: 0 <= k < |ts| ==>
      base + lo <= ts[k].pos < base + |text| &&
      !IsDelim(text[ts[k].pos - base]) && text[ts[k].pos - base] != 0
  }

  lemma ConsTokens(t: Token, rest: seq<Token>, text: seq<byte>, base: nat, lo: nat, hi: nat)
    requires lo <= t.pos - base < hi && base <= t.pos < base + |text|
    requires !IsDelim(text[t.pos - base]) && text[t.pos - base] != 0
    requires OnWordBytes(rest, text, base, hi) && Increasing(rest)
    ensures OnWordBytes([t] + rest, text, base, lo) && Increasing([t] + rest)
  {
    var ts := [t] + rest;
    forall k | 0 < k < |ts| ensures ts[k] == rest[k - 1] {
    }
  }

  lemma AppendTokens(a: seq<Token>, b: seq<Token>, text: seq<byte>, base: nat, lo: nat, mid: nat)
    requires OnWordBytes(a, text, base, lo) && Increasing(a)
    requires forall k :: 0 <= k < |a| ==> a[k].pos < base + mid
    requires OnWordBytes(b, text, base, mid) && Increasing(b)
    requires lo <= mid
    ensures OnWordBytes(a + b, text, base, lo) && Increasing(a + b)
  {
    var ts := a + b;
    forall k | |a| <= k < |ts| ensures ts[k] == b[k - |a|] {
    }
  }

  /** Every token of a chunk lies after the scan position, on a byte that is
      neither a delimiter nor NUL, and positions strictly increase. */
  lemma {:induction false} ScanTokensSound(text: seq<byte>, i: nat, base: nat, edge: nat)
    requires i <= |text| && 0 !in text
    ensures OnWordBytes(ScanTokens(text, i, base, edge), text, base, i)
    ensures Increasing(ScanTokens(text, i, base, edge))
    decreases |text| - i
  {
    var ts := ScanTokens(text, i, base, edge);
    if i < |text| {
      if IsDelim(text[i]) {
        ScanTokensSound(text, i + 1, base, edge);
        assert ts == ScanTokens(text, i + 1, base, edge);
      } else {
        var e := TokenEnd(text, i);
        if e != edge {
          ScanTokensSound(text, e, base, edge);
          var t := Token(Normalize(text[i..e], NulOrPunct), base + i);
          assert ts == TakeToken(text, i, base, edge);
          assert ts == [t] + ScanTokens(text, e, base, edge);
          ConsTokens(t, ScanTokens(text, e, base, edge), text, base, i, e);
        }
      }
    }
  }

  /** Every stored token sits on a byte of the file that is neither a
      delimiter nor NUL, and positions strictly increase. */
  lemma {:induction false} IndexTokensFromSound(file: seq<byte>, off: nat, bufferSize: nat)
    requires 1 <= bufferSize && off <= |file|
    ensures OnWordBytes(IndexTokensFrom(file, off, bufferSize), file, 0, off)
    ensures Increasing(IndexTokensFrom(file, off, bufferSize))
    decreases |file| - off
  {
    var n := ChunkSize(|file|, off, bufferSize);
    if n != 0 {
      var a := ScanTokens(CString(file[off..off + n]), 0, off, bufferSize - 1);
      var rest := IndexTokensFrom(file, off + n, bufferSize);
      ChunkTokensSound(file, off, n, bufferSize - 1);
      IndexTokensFromSound(file, off + n, bufferSize);
      AppendTokens(a, rest, file, 0, off, off + n);
      IndexTokensFromSplit(file, off, bufferSize, n, a, rest);
    }
  }

  /** One read of do_indexing: the tokens of the chunk at off, then those
      from the next read on. */
  lemma IndexTokensFromStep(file: seq<byte>, off: nat, bufferSize: nat)
    requires 1 <= bufferSize && off <= |file|
    requires ChunkSize(|file|, off, bufferSize) != 0
    ensures var n := ChunkSize(|file|, off, bufferSize);
      IndexTokensFrom(file, off, bufferSize) ==
      ScanTokens(CString(file[off..off + n]), 0, off, bufferSize - 1) + IndexTokensFrom(file, off + n, bufferSize)
  {
  }

  /** The same step, for a chunk and tokens already named. */
  lemma IndexTokensFromSplit(file: seq<byte>, off: nat, bufferSize: nat, n: nat, a: seq<Token>, rest: seq<Token>)
    requires 1 <= bufferSize && off <= |file|
    requires n == ChunkSize(|file|, off, bufferSize) && n != 0
    requires a == ScanTokens(CString(file[off..off + n]), 0, off, bufferSize - 1)
    requires rest == IndexTokensFrom(file, off + n, bufferSize)
    ensures IndexTokensFrom(file, off, bufferSize) == a + rest
  {
    IndexTokensFromStep(file, off, bufferSize);
  }

  /** The tokens of the chunk file[off..off + n] lie inside the chunk, on
      bytes of the file that are neither delimiters nor NUL. */
  lemma ChunkTokensSound(file: seq<byte>, off: nat, n: nat, edge: nat)
    requires off + n <= |file|
    ensures var a := ScanTokens(CString(file[off..off + n]), 0, off, edge);
      OnWordBytes(a, file, 0, off) && Increasing(a) &&
      forall k :: 0 <= k < |a| ==> a[k].pos < off + n
  {
    var text := CString(file[off..off + n]);
    var a := ScanTokens(text, 0, off, edge);
    CStringHasNoNul(file[off..off + n]);
    ScanTokensSound(text, 0, off, edge);
    forall k | 0 <= k < |a|
      ensures off <= a[k].pos < off + n && !IsDelim(file[a[k].pos]) && file[a[k].pos] != 0
    {
      var p := a[k].pos - off;
      assert text[p] == file[off..off + n][p] == file[off + p];
    }
  }

  // ---------------------------------------------------------------------
  // Which tokens are stored: one per run, at its first byte
  // ---------------------------------------------------------------------

  /** p is where strtok starts a token in text: a byte that is not a
      delimiter, at the start of text or right after a delimiter. */
  predicate RunStart(text: seq<byte>, p: nat) {
    p < |text| && !IsDelim(text[p]) && (p == 0 || IsDelim(text[p - 1]))
  }

  /** t is stored from the chunk text read at file offset base: it sits at
      the start of a run that does not end at the edge, and holds that run
      normalized. */
  predicate TokenOfChunk(t: Token, text: seq<byte>, base: nat, edge: nat) {
    base <= t.pos && RunStart(text, t.pos - base) &&
    TokenEnd(text, t.pos - base) != edge &&
    t.word == Normalize(text[t.pos - base..TokenEnd(text, t.pos - base)], NulOrPunct)
  }

  /** Every token of ts is stored from the chunk text, at or after lo. */
  predicate ChunkSound(ts: seq<Token>, text: seq<byte>, base: nat, edge: nat, lo: nat) {
    forall k :: 0 <= k < |ts| ==> base + lo <= ts[k].pos && TokenOfChunk(ts[k], text, base, edge)
  }

  /** Every run of text starting at or after lo that does not end at the
      edge has a token in ts. */
  ghost predicate ChunkComplete(ts: seq<Token>, text: seq<byte>, base: nat, edge: nat, lo: nat) {
    forall p :: lo <= p && RunStart(text, p) && TokenEnd(text, p) != edge ==>
      exists k :: 0 <= k < |ts| && ts[k].pos == base + p
  }

  /** A scan position from which every token found is a run start. */
  predicate ScanStart(text: seq<byte>, i: nat) {
    i == 0 || i >= |text| || IsDelim(text[i]) || IsDelim(text[i - 1])
  }

  /** The scan of one chunk stores exactly one token per run of the chunk,
      in order, at the run's first byte and holding the normalized run;
      only a run that ends at the edge (the last run of a full read) is
      left out. */
  lemma {:induction false} ScanTokensExact(text: seq<byte>, i: nat, base: nat, edge: nat)
    requires i <= |text| <= edge && ScanStart(text, i)
    ensures ChunkSound(ScanTokens(text, i, base, edge), text, base, edge, i)
    ensures ChunkComplete(ScanTokens(text, i, base, edge), text, base, edge, i)
    decreases |text| - i
  {
    if i < |text| {
      if IsDelim(text[i]) {
        ScanTokensExact(text, i + 1, base, edge);
        SkipDelimExact(ScanTokens(text, i + 1, base, edge), text, base, edge, i);
      } else {
        var e := TokenEnd(text, i);
        TokenEndIsFirst(text, i);
        NoRunInside(text, i, edge);
        if e == edge {
          assert ScanTokens(text, i, base, edge) == [];
        } else {
          var t := Token(Normalize(text[i..e], NulOrPunct), base + i);
          var rest := ScanTokens(text, e, base, edge);
          assert ScanTokens(text, i, base, edge) == [t] + rest;
          ScanTokensExact(text, e, base, edge);
          ConsChunkSound(t, rest, text, base, edge, i, e);
          ConsChunkComplete(t, rest, text, base, edge, i, e);
        }
      }
    }
  }

  /** Skipping a delimiter keeps the tokens sound and complete. */
  lemma SkipDelimExact(ts: seq<Token>, text: seq<byte>, base: nat, edge: nat, i: nat)
    requires i < |text| && IsDelim(text[i])
    requires ChunkSound(ts, text, base, edge, i + 1) && ChunkComplete(ts, text, base, edge, i + 1)
    ensures ChunkSound(ts, text, base, edge, i) && ChunkComplete(ts, text, base, edge, i)
  {
  }

  /** No run starts strictly inside the token at i. */
  lemma NoRunInside(text: seq<byte>, i: nat, edge: nat)
    requires i < |text| && !IsDelim(text[i])
    requires forall j :: i <= j < TokenEnd(text, i) ==> !IsDelim(text[j])
    ensures forall p :: i < p < TokenEnd(text, i) ==> !RunStart(text, p)
    ensures TokenEnd(text, i) == edge && |text| <= edge ==>
      forall p :: i <= p && RunStart(text, p) ==> TokenEnd(text, p) == edge
  {
    forall p | i < p < TokenEnd(text, i) ensures !RunStart(text, p) {
      assert !IsDelim(text[p - 1]);
    }
  }

  /** The step of ScanTokensExact at a stored token t, at i, ending at e:
      the tokens stay sound. */
  lemma ConsChunkSound(t: Token, rest: seq<Token>, text: seq<byte>, base: nat, edge: nat, i: nat, e: nat)
    requires i < e && t.pos == base + i && TokenOfChunk(t, text, base, edge)
    requires ChunkSound(rest, text, base, edge, e)
    ensures ChunkSound([t] + rest, text, base, edge, i)
  {
    var ts := [t] + rest;
    forall k | 0 < k < |ts| ensures base + i <= ts[k].pos && TokenOfChunk(ts[k], text, base, edge) {
      assert ts[k] == rest[k - 1];
    }
  }

  /** The same step: the tokens stay complete, since no run starts inside
      the token. */
  lemma ConsChunkComplete(t: Token, rest: seq<Token>, text: seq<byte>, base: nat, edge: nat, i: nat, e: nat)
    requires i < e && t.pos == base + i
    requires forall p :: i < p < e ==> !RunStart(text, p)
    requires ChunkComplete(rest, text, base, edge, e)
    ensures ChunkComplete([t] + rest, text, base, edge, i)
  {
    var ts := [t] + rest;
    forall p | i <= p && RunStart(text, p) && TokenEnd(text, p) != edge
      ensures exists k :: 0 <= k < |ts| && ts[k].pos == base + p
    {
      if p == i {
        assert ts[0].pos == base + p;
      } else {
        assert e <= p && RunStart(text, p) && TokenEnd(text, p) != edge;
        var k :| 0 <= k < |rest| && rest[k].pos == base + p;
        assert ts[k + 1].pos == base + p;
      }
    }
  }

  /** The text do_indexing tokenizes for the read at off: the chunk, cut at
      its first NUL by strtok. */
  function ChunkText(file: seq<byte>, off: nat, bufferSize: nat): (text: seq<byte>)
    requires 1 <= bufferSize && off <= |file|
    ensures |text| <= bufferSize - 1
  {
    CString(file[off..off + ChunkSize(|file|, off, bufferSize)])
  }

  /** The offset of the read that holds file offset pos: every read but
      the last is m = word_buffer_size - 1 bytes long. */
  function ChunkOf(pos: nat, m: nat): (c: nat)
    requires 0 < m
    ensures c <= pos < c + m && c % m == 0
  {
    ModUnique((pos / m) * m, m, pos / m, 0);
    (pos / m) * m
  }

  /** t is stored by do_indexing from file: it is a token of the chunk
      text of the read that holds its position. */
  predicate TokenOfFile(t: Token, file: seq<byte>, bufferSize: nat) {
    2 <= bufferSize && t.pos < |file| &&
    TokenOfChunk(t, ChunkText(file, ChunkOf(t.pos, bufferSize - 1), bufferSize),
                 ChunkOf(t.pos, bufferSize - 1), bufferSize - 1)
  }

  /** Every token of ts is stored from file, at or after off. */
  predicate FileSound(ts: seq<Token>, file: seq<byte>, bufferSize: nat, off: nat) {
    forall k :: 0 <= k < |ts| ==> off <= ts[k].pos && TokenOfFile(ts[k], file, bufferSize)
  }

  /** Every run of every read from off on that does not end at the edge of
      its read has a token in ts. */
  ghost predicate FileComplete(ts: seq<Token>, file: seq<byte>, bufferSize: nat, off: nat) {
    2 <= bufferSize ==>
      forall c, p ::
        (off <= c <= |file| && c % (bufferSize - 1) == 0 &&
         RunStart(ChunkText(file, c, bufferSize), p) &&
         TokenEnd(ChunkText(file, c, bufferSize), p) != bufferSize - 1) ==>
          exists k :: 0 <= k < |ts| && ts[k].pos == c + p
  }

  /** Two different multiples of m are at least m apart. */
  lemma MultiplesApart(a: nat, b: nat, m: nat)
    requires 0 < m && a % m == 0 && b % m == 0 && a < b
    ensures a + m <= b
  {
    assert a == (a / m) * m && b == (b / m) * m;
    MulAtLeast(b / m - a / m, m);
    assert b - a == (b / m - a / m) * m;
  }

  /** A position inside the read at off belongs to that read. */
  lemma ChunkOfIn(off: nat, pos: nat, m: nat)
    requires 0 < m && off % m == 0 && off <= pos < off + m
    ensures ChunkOf(pos, m) == off
  {
    var c := ChunkOf(pos, m);
    if c < off {
      MultiplesApart(c, off, m);
    } else if off < c {
      MultiplesApart(off, c, m);
    }
  }

  /** do_indexing from the read at off on stores exactly one token per run
      of each read, at the run's first byte and holding the normalized run,
      leaving out only a run that ends at the last byte of a full read. */
  lemma {:induction false} IndexTokensFromExact(file: seq<byte>, off: nat, bufferSize: nat)
    requires 2 <= bufferSize && off <= |file|
    requires off % (bufferSize - 1) == 0 || off == |file|
    ensures FileSound(IndexTokensFrom(file, off, bufferSize), file, bufferSize, off)
    ensures FileComplete(IndexTokensFrom(file, off, bufferSize), file, bufferSize, off)
    decreases |file| - off
  {
    var m := bufferSize - 1;
    var n := ChunkSize(|file|, off, bufferSize);
    if n == 0 {
      NothingAtEnd(file, off, bufferSize);
    } else {
      var text := ChunkText(file, off, bufferSize);
      var a := ScanTokens(text, 0, off, m);
      var rest := IndexTokensFrom(file, off + n, bufferSize);
      IndexTokensFromSplit(file, off, bufferSize, n, a, rest);
      ScanTokensExact(text, 0, off, m);
      NextRead(off, n, m, |file|);
      IndexTokensFromExact(file, off + n, bufferSize);
      AppendFileSound(file, off, bufferSize, n, a, rest);
      AppendFileComplete(file, off, bufferSize, n, a, rest);
    }
  }

  /** Past the last read nothing is stored and no run is left. */
  lemma NothingAtEnd(file: seq<byte>, off: nat, bufferSize: nat)
    requires 2 <= bufferSize && off <= |file| && ChunkSize(|file|, off, bufferSize) == 0
    ensures FileSound(IndexTokensFrom(file, off, bufferSize), file, bufferSize, off)
    ensures FileComplete(IndexTokensFrom(file, off, bufferSize), file, bufferSize, off)
  {
  }

  /** The next read starts at a multiple of m, or at the end of the file. */
  lemma NextRead(off: nat, n: nat, m: nat, fileLength: nat)
    requires 0 < m && off % m == 0 && 0 < n <= m && off + n <= fileLength
    requires n == m || off + n == fileLength
    ensures (off + n) % m == 0 || off + n == fileLength
  {
    if n == m {
      ModUnique(off + m, m, off / m + 1, 0);
    }
  }

  /** The step of IndexTokensFromExact: the chunk's tokens, then the rest,
      are all stored from the file. */
  lemma AppendFileSound(file: seq<byte>, off: nat, bufferSize: nat, n: nat, a: seq<Token>, rest: seq<Token>)
    requires 2 <= bufferSize && off < |file| && off % (bufferSize - 1) == 0
    requires ChunkSound(a, ChunkText(file, off, bufferSize), off, bufferSize - 1, 0)
    requires FileSound(rest, file, bufferSize, off + n)
    ensures FileSound(a + rest, file, bufferSize, off)
  {
    var ts := a + rest;
    forall k | 0 <= k < |ts| ensures off <= ts[k].pos && TokenOfFile(ts[k], file, bufferSize) {
      if k < |a| {
        assert ts[k] == a[k];
        OfChunkIsOfFile(a[k], file, off, bufferSize);
      } else {
        assert ts[k] == rest[k - |a|];
      }
    }
  }

  /** A token of the read at off is a token of the file. */
  lemma OfChunkIsOfFile(t: Token, file: seq<byte>, off: nat, bufferSize: nat)
    requires 2 <= bufferSize && off < |file| && off % (bufferSize - 1) == 0
    requires TokenOfChunk(t, ChunkText(file, off, bufferSize), off, bufferSize - 1)
    ensures TokenOfFile(t, file, bufferSize)
  {
    ChunkOfIn(off, t.pos, bufferSize - 1);
  }

  /** The same step: every run of the chunk and of later reads has a
      token. */
  lemma AppendFileComplete(file: seq<byte>, off: nat, bufferSize: nat, n: nat, a: seq<Token>, rest: seq<Token>)
    requires 2 <= bufferSize && off < |file| && off % (bufferSize - 1) == 0
    requires n == ChunkSize(|file|, off, bufferSize) && n != 0
    requires ChunkComplete(a, ChunkText(file, off, bufferSize), off, bufferSize - 1, 0)
    requires FileComplete(rest, file, bufferSize, off + n)
    ensures FileComplete(a + rest, file, bufferSize, off)
  {
    var m := bufferSize - 1;
    var ts := a + rest;
    forall c, p | off <= c <= |file| && c % m == 0 &&
        RunStart(ChunkText(file, c, bufferSize), p) &&
        TokenEnd(ChunkText(file, c, bufferSize), p) != m
      ensures exists k :: 0 <= k < |ts| && ts[k].pos == c + p
    {
      if c == off {
        var k :| 0 <= k < |a| && a[k].pos == off + p;
        assert ts[k].pos == c + p;
      } else {
        MultiplesApart(off, c, m);
        var k :| 0 <= k < |rest| && rest[k].pos == c + p;
        assert ts[|a| + k].pos == c + p;
      }
    }
  }

  /** The tokens of a whole file: in file order, each on a byte that is
      neither a delimiter nor NUL, each at the first byte of a run of its
      read and holding that run normalized, and one for every run of every
      read except a run that ends at the last byte of a full read. */
  lemma IndexTokensSound(file: seq<byte>, bufferSize: nat)
    requires 1 <= bufferSize
    ensures OnWordBytes(IndexTokens(file, bufferSize), file, 0, 0)
    ensures Increasing(IndexTokens(file, bufferSize))
    ensures FileSound(IndexTokens(file, bufferSize), file, bufferSize, 0)
    ensures FileComplete(IndexTokens(file, bufferSize), file, bufferSize, 0)
  {
    IndexTokensFromSound(file, 0, bufferSize);
    if bufferSize == 1 {
      assert IndexTokens(file, bufferSize) == [];
    } else {
      IndexTokensFromExact(file, 0, bufferSize);
    }
  }

  /** A word that crosses a read boundary is lost: with a 5-byte word buffer
      (reads of 4 bytes), "ab cd" stores "ab" at 0 and only the tail "d" at
      4; "cd" is never stored. */
  lemma SplitWordIsLost()
    ensures IndexTokens([97, 98, 32, 99, 100], 5) == [Token([97, 98], 0), Token([100], 4)]
  {
    var file: seq<byte> := [97, 98, 32, 99, 100];
    var c1 := file[0..4];
    assert CString(c1) == c1 by {
      assert BreakIndex(c1, AtNul) == 4;
    }
    assert TokenEnd(c1, 2) == 2;
    assert TokenEnd(c1, 1) == 2;
    assert TokenEnd(c1, 0) == 2;
    assert TokenEnd(c1, 4) == 4;
    assert TokenEnd(c1, 3) == 4;
    assert ScanTokens(c1, 2, 0, 4) == ScanTokens(c1, 3, 0, 4);
    assert ScanTokens(c1, 3, 0, 4) == [];
    assert Normalize([97, 98], NulOrPunct) == [97, 98] by {
      assert BreakIndex([97, 98], NulOrPunct) == 2;
    }
    assert c1[0..2] == [97, 98];
    assert ScanTokens(c1, 0, 0, 4) == [Token([97, 98], 0)] + ScanTokens(c1, 2, 0, 4);
    var c2 := file[4..5];
    assert CString(c2) == c2 by {
      assert BreakIndex(c2, AtNul) == 1;
    }
    assert TokenEnd(c2, 1) == 1;
    assert TokenEnd(c2, 0) == 1;
    assert ScanTokens(c2, 1, 4, 4) == [];
    assert Normalize([100], NulOrPunct) == [100] by {
      assert BreakIndex([100], NulOrPunct) == 1;
    }
    assert c2[0..1] == [100];
    assert ScanTokens(c2, 0, 4, 4) == [Token([100], 4)] + ScanTokens(c2, 1, 4, 4);
    assert IndexTokensFrom(file, 5, 5) == [];
    assert IndexTokensFrom(file, 4, 5) == [Token([100], 4)];
  }
}
