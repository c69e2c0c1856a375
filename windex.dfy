/**
 * The native word index as an object: the bucket array and the word count
 * that store_word, redistribute_hash_entries, do_indexing and
 * do_compaction update in place, and the query entry points that fill a
 * caller's buffer through read_words_with_ctx.
 *
 * Every method is proved against the value model: the table and the count
 * together always equal an IndexState satisfying StateOk, each mutation
 * moves that state exactly as the matching function says, and each buffer
 * fill writes exactly the bytes Frames.Fill describes.
 */
module NativeIndex {
  import opened Common
  import opened CUtils
  import opened Frames
  import opened HashTable
  import opened Indexing

  /** single_read_size in windex.c: room for one frame header and a terminator. */
  const WINDEX_SLACK: nat := 8
  /** limit_to_single_read in wordindex.c: room for one u32 only. */
  const WORDINDEX_SLACK: nat := 4

  /** The frames r describes, in front of the frames already written. */
  function Prepend(written: seq<seq<byte>>, r: FillResult): FillResult {
    FillResult(written + r.frames, r.next)
  }

  /** A buffer after a call that wrote r: its frames and the terminator at
      the front, every later byte as it was before the call. */
  ghost predicate FilledBuffer(now: seq<byte>, before: seq<byte>, r: FillResult)
    requires FramesFit(r.frames)
  {
    var f := Filled(r.frames);
    |now| == |before| && |f| <= |now| && now[..|f|] == f && now[|f|..] == before[|f|..]
  }

  /** A buffer after a call that found nothing: the terminator at offset 0. */
  ghost predicate TerminatedOnly(now: seq<byte>, before: seq<byte>)
  {
    |now| == |before| && 4 <= |now| && now[..4] == Le32(0) && now[4..] == before[4..]
  }

  /** fread of a frame into the buffer after its 4-byte header, then the
      header itself: the bytes written so far grow by one frame. */
  method WriteFrame(buffer: array<byte>, at: nat, w: seq<byte>, ghost written: seq<seq<byte>>)
    requires FramesFit(written) && |w| < U32_LIMIT
    requires at == |Serialize(written)| && at + 4 + |w| <= buffer.Length
    requires buffer[..at] == Serialize(written)
    modifies buffer
    ensures FramesFit(written + [w])
    ensures buffer[..at + 4 + |w|] == Serialize(written + [w])
    ensures forall k :: at + 4 + |w| <= k < buffer.Length ==> buffer[k] == old(buffer[k])
  {
    forall k | 0 <= k < |w| {
      buffer[at + 4 + k] := w[k];
    }
    assert buffer[..at] == Serialize(written);
    assert buffer[at + 4..at + 4 + |w|] == w;
    WriteU32(buffer, at, |w|);
    ghost var header := buffer[..at] + buffer[at..at + 4];
    assert header == Serialize(written) + Le32(|w|);
    assert buffer[at + 4..at + 4 + |w|] == w;
    SerializeAppend(written, w);
    assert buffer[..at + 4 + |w|] == header + buffer[at + 4..at + 4 + |w|];
  }

  /** write_u32(buffer + total, BUFF_TERM_MARK) after the frames. */
  method WriteTerminator(buffer: array<byte>, at: nat, ghost written: seq<seq<byte>>)
    requires FramesFit(written)
    requires at == |Serialize(written)| && at + 4 <= buffer.Length
    requires buffer[..at] == Serialize(written)
    modifies buffer
    ensures buffer[..at + 4] == Filled(written)
    ensures forall k :: at + 4 <= k < buffer.Length ==> buffer[k] == old(buffer[k])
  {
    WriteU32(buffer, at, 0);
    assert buffer[..at + 4] == buffer[..at] + buffer[at..at + 4];
  }

  /** The terminator after the frames written so far, which completes the
      fill described by those frames and the index handed back. */
  method FinishFill(buffer: array<byte>, total: nat, ghost written: seq<seq<byte>>, ghost before: seq<byte>,
                    ghost next: Option<nat>)
    requires FramesFit(written) && total == |Serialize(written)| && total + 4 <= buffer.Length
    requires buffer[..total] == Serialize(written) && |before| == buffer.Length
    requires forall k :: total <= k < buffer.Length ==> buffer[k] == before[k]
    modifies buffer
    ensures FilledBuffer(buffer[..], before, FillResult(written, next))
  {
    WriteTerminator(buffer, total, written);
    FilledFromLoop(buffer[..], before, written, next);
  }

  /** A fill from index j whose next frame fits writes that frame first. */
  lemma FillTakes(file: seq<byte>, vec: seq<nat>, j: nat, used: nat, size: nat, ctx: nat, wordLen: nat)
    requires j < |vec| && FitsU32(ctx, wordLen)
    requires used + 2 * ctx + wordLen + 8 <= size
    ensures var w := Window(file, vec[j], ctx, wordLen);
      Fill(file, vec, j, used, size, ctx, wordLen)
      == Prepend([w], Fill(file, vec, j + 1, used + 4 + |w|, size, ctx, wordLen))
  {
  }

  lemma FillStart(r: FillResult)
    ensures r == Prepend([], r)
  {
    assert [] + r.frames == r.frames;
  }

  /** The loop of read_words_with_ctx stopping at position j: the fill it
      was tracking ends with the frames written so far. */
  lemma FillStopsAt(r0: FillResult, written: seq<seq<byte>>, file: seq<byte>, vec: seq<nat>, j: nat,
                    used: nat, size: nat, ctx: nat, wordLen: nat)
    requires j < |vec| && FitsU32(ctx, wordLen)
    requires used + 2 * ctx + wordLen + 8 > size
    requires r0 == Prepend(written, Fill(file, vec, j, used, size, ctx, wordLen))
    ensures r0 == FillResult(written, Some(j))
  {
    assert written + [] == written;
  }

  /** The loop of read_words_with_ctx at the end of the positions. */
  lemma FillEndsAt(r0: FillResult, written: seq<seq<byte>>, file: seq<byte>, vec: seq<nat>, j: nat,
                   used: nat, size: nat, ctx: nat, wordLen: nat)
    requires j == |vec| && FitsU32(ctx, wordLen)
    requires r0 == Prepend(written, Fill(file, vec, j, used, size, ctx, wordLen))
    ensures r0 == FillResult(written, None)
  {
    assert written + [] == written;
  }

  /** The loop of read_words_with_ctx after writing the frame w of position
      j: the fill it was tracking goes on from j + 1 with one more frame
      written. */
  lemma FillTakesAt(r0: FillResult, written: seq<seq<byte>>, w: seq<byte>, file: seq<byte>, vec: seq<nat>,
                    j: nat, used: nat, size: nat, ctx: nat, wordLen: nat,
                    now: seq<seq<byte>>, j2: nat, used2: nat)
    requires j < |vec| && FitsU32(ctx, wordLen)
    requires used + 2 * ctx + wordLen + 8 <= size
    requires r0 == Prepend(written, Fill(file, vec, j, used, size, ctx, wordLen))
    requires w == Window(file, vec[j], ctx, wordLen)
    requires now == written + [w] && j2 == j + 1 && used2 == used + 4 + |w|
    ensures r0 == Prepend(now, Fill(file, vec, j2, used2, size, ctx, wordLen))
  {
    FillTakes(file, vec, j, used, size, ctx, wordLen);
    PrependPrepend(written, [w], Fill(file, vec, j + 1, used + 4 + |w|, size, ctx, wordLen));
  }

  lemma PrependPrepend(a: seq<seq<byte>>, b: seq<seq<byte>>, r: FillResult)
    ensures Prepend(a, Prepend(b, r)) == Prepend(a + b, r)
  {
    assert a + (b + r.frames) == (a + b) + r.frames;
  }

  /** The fill the buffer describes, from the state of the write loop. */
  lemma FilledFromLoop(now: seq<byte>, before: seq<byte>, written: seq<seq<byte>>, next: Option<nat>)
    requires FramesFit(written) && |now| == |before|
    requires |Serialize(written)| + 4 <= |now|
    requires now[..|Serialize(written)| + 4] == Filled(written)
    requires forall k :: |Serialize(written)| + 4 <= k < |now| ==> now[k] == before[k]
    ensures FilledBuffer(now, before, FillResult(written, next))
  {
    var f := Filled(written);
    assert |f| == |Serialize(written)| + 4;
    assert now[|f|..] == before[|f|..];
  }

  /** One strtok token taken off the front of a chunk's remaining tokens. */
  lemma ScanTakes(text: seq<byte>, i: nat, e: nat, base: nat, edge: nat, word: seq<byte>)
    requires i < |text| && !IsDelim(text[i]) && e == TokenEnd(text, i) && e != edge
    requires word == Normalize(text[i..e], NulOrPunct)
    ensures ScanTokens(text, i, base, edge) == [Token(word, base + i)] + ScanTokens(text, e, base, edge)
  {
    assert ScanTokens(text, i, base, edge) == TakeToken(text, i, base, edge);
  }

  /** One chunk read by do_indexing, seen through the log of stored tokens:
      the chunk's tokens move from what is left to do to what is done. */
  lemma ChunkLog(whole: seq<Token>, before: seq<Token>, after: seq<Token>, file: seq<byte>,
                 off: nat, n: nat, bufferSize: nat, text: seq<byte>)
    requires 1 <= bufferSize && off <= |file|
    requires n == ChunkSize(|file|, off, bufferSize) && n != 0
    requires text == CString(file[off..off + n])
    requires whole == before + IndexTokensFrom(file, off, bufferSize)
    requires after == before + ScanTokens(text, 0, off, bufferSize - 1)
    ensures whole == after + IndexTokensFrom(file, off + n, bufferSize)
  {
    IndexTokensFromStep(file, off, bufferSize);
  }

  /** The end of the file: nothing is left to store. */
  lemma EndLog(whole: seq<Token>, done: seq<Token>, file: seq<byte>, off: nat, bufferSize: nat)
    requires 1 <= bufferSize && off <= |file| && ChunkSize(|file|, off, bufferSize) == 0
    requires whole == done + IndexTokensFrom(file, off, bufferSize)
    ensures done == whole
  {
    assert IndexTokensFrom(file, off, bufferSize) == [];
    assert done + [] == done;
  }

  lemma LogStep<T>(whole: seq<T>, before: seq<T>, done: seq<T>, rest: seq<T>, todo: seq<T>, after: seq<T>)
    requires whole == before + todo && todo == done + rest && after == before + done
    ensures whole == after + rest
  {
  }

  lemma {:induction false} StoreAllSnoc(s: IndexState, ts: seq<Token>, t: Token)
    requires 0 < |s.table|
    ensures 0 < |StoreAll(s, ts).table|
    ensures StoreAll(s, ts + [t]) == Store(StoreAll(s, ts), t.word, t.pos)
    decreases |ts|
  {
    if ts == [] {
      assert [t][1..] == [];
    } else {
      StoreKeepsCapacity(s, ts[0].word, ts[0].pos);
      assert (ts + [t])[1..] == ts[1..] + [t];
      StoreAllSnoc(Store(s, ts[0].word, ts[0].pos), ts[1..], t);
    }
  }

  lemma PlaceAllSnoc(t: Table, es: seq<Entry>, e: Entry)
    requires 0 < |t|
    ensures PlaceAll(t, es + [e]) == Place(PlaceAll(t, es), e)
  {
    assert (es + [e])[..|es|] == es;
  }

  lemma FlattenSnoc(t: Table, i: nat)
    requires i < |t|
    ensures Flatten(t[..i + 1]) == Flatten(t[..i]) + t[i]
  {
    assert t[..i + 1][..i] == t[..i];
  }

  /** The inner loop of redistribute_hash_entries: every entry of one old
      chain, from its head, linked at the tail of its new bucket. */
  method PlaceChain(newTable: array<seq<Entry>>, chain: seq<Entry>, ghost empty: Table, ghost done: seq<Entry>)
    requires 0 < |empty| == newTable.Length
    requires newTable[..] == PlaceAll(empty, done)
    modifies newTable
    ensures newTable[..] == PlaceAll(empty, done + chain)
  {
    var j := 0;
    assert done + chain[..0] == done;
    while j < |chain|
      invariant 0 <= j <= |chain|
      invariant newTable[..] == PlaceAll(empty, done + chain[..j])
    {
      var e := chain[j];
      var nb := e.hash % newTable.Length;
      ghost var cur := newTable[..];
      newTable[nb] := newTable[nb] + [e];
      assert newTable[..] == Place(cur, e);
      PlaceAllSnoc(empty, done + chain[..j], e);
      assert done + chain[..j + 1] == (done + chain[..j]) + [e];
      j := j + 1;
    }
    assert chain[..j] == chain;
  }

  /** calloc of a bucket array: every bucket empty. */
  method NewBuckets(n: nat) returns (buckets: array<seq<Entry>>)
    ensures fresh(buckets) && buckets[..] == EmptyTable(n)
  {
    buckets := new seq<Entry>[n](_ => []);
    assert buckets[..] == EmptyTable(n);
  }

  /** The chain walk of the query entry points: the index of the first
      entry whose word is a prefix of the query, or |chain|. */
  method FindEntry(chain: seq<Entry>, query: seq<byte>) returns (k: nat)
    ensures k <= |chain|
    ensures k < |chain| ==> LookupInChain(chain, query) == Some(chain[k])
    ensures k == |chain| ==> LookupInChain(chain, query).None?
  {
    k := 0;
    while k < |chain| && !IsPrefix(chain[k].word, query)
      invariant 0 <= k <= |chain|
      invariant LookupInChain(chain, query) == LookupInChain(chain[k..], query)
    {
      assert chain[k..][1..] == chain[k + 1..];
      k := k + 1;
    }
  }

  class WordIndex {
    /** The indexed file; it does not change while the index is open. */
    const file: seq<byte>
    /** The bucket array; |table| is the capacity. */
    var table: seq<seq<Entry>>
    var wordCount: nat
    /** The table before the first store_word call. */
    ghost const init: IndexState
    /** Every store_word call so far, in order. */
    ghost var stored: seq<Token>

    ghost function State(): IndexState
      reads this
    {
      IndexState(table, wordCount)
    }

    /** What the C code itself needs of the table: a positive capacity, so
        that hash % capacity is defined. The index invariant StateOk holds of
        every state the methods produce (see Open and StoreKeepsInvariant). */
    ghost predicate Valid()
      reads this
    {
      0 < |table|
    }

    /** The table is what storing the log into the initial table gives. */
    ghost predicate Tracks()
      reads this
    {
      0 < |table| && 0 < |init.table| && State() == StoreAll(init, stored)
    }

    /**
     * file_word_index_open: an empty table of the requested capacity, every
     * token of the file stored by do_indexing, then do_compaction when asked.
     */
    constructor Open(file: seq<byte>, capacity: nat, wordBufferSize: nat, compact: bool)
      requires 0 < capacity && 1 <= wordBufferSize
      ensures Valid() && this.file == file
      ensures StateOk(State())
      ensures !compact ==> State() == Indexed(file, capacity, wordBufferSize)
      ensures compact ==> State() == IndexState(Compact(Indexed(file, capacity, wordBufferSize).table),
                                                Indexed(file, capacity, wordBufferSize).wordCount)
    {
      this.file := file;
      table := EmptyTable(capacity);
      wordCount := 0;
      init := IndexState(EmptyTable(capacity), 0);
      stored := [];
      new;
      DoIndexing(wordBufferSize);
      assert stored == IndexTokens(file, wordBufferSize);
      IndexedOk(file, capacity, wordBufferSize);
      if compact {
        ghost var s := State();
        DoCompaction();
        CompactKeepsIndex(s, []);
      }
    }

    /**
     * store_word: walk the bucket's chain to the first entry the word is a
     * prefix of and append the position there, or link a new entry at the
     * tail and count it; then double the table when the count exceeds 0.75
     * of the capacity the word was stored with.
     */
    method StoreWord(word: seq<byte>, pos: nat)
      requires Tracks()
      modifies this
      ensures Tracks()
      ensures State() == Store(old(State()), word, pos)
      ensures stored == old(stored) + [Token(word, pos)]
    {
      ghost var s0 := State();
      StoreAllSnoc(init, stored, Token(word, pos));
      stored := stored + [Token(word, pos)];
      var capacity := |table|;
      var b := Bucket(word, capacity);
      var chain := table[b];
      var k := 0;
      while k < |chain| && !IsPrefix(word, chain[k].word)
        invariant 0 <= k <= |chain|
        invariant forall j :: 0 <= j < k ==> !IsPrefix(word, chain[j].word)
      {
        k := k + 1;
      }
      FirstMatchAt(chain, word, k);
      StoreInChainShape(chain, word, pos);
      if k < |chain| {
        table := table[b := chain[k := AddPosition(chain[k], pos)]];
      } else {
        table := table[b := chain + [NewEntry(word, pos)]];
        wordCount := wordCount + 1;
      }
      assert table == StoreInTable(s0.table, word, pos);
      if ShouldResize(wordCount, capacity) {
        Redistribute();
      }
    }

    /**
     * redistribute_hash_entries: a table of twice the capacity, filled by
     * walking the old buckets in order and each chain from its head, every
     * entry linked at the tail of bucket hash % new capacity.
     */
    method Redistribute()
      requires 0 < |table|
      modifies this
      ensures wordCount == old(wordCount) && stored == old(stored)
      ensures table == Rehash(old(table))
    {
      var oldTable := table;
      var n := |oldTable|;
      var newTable := NewBuckets(2 * n);
      ghost var empty := newTable[..];
      var i := 0;
      while i < n
        invariant 0 <= i <= n
        invariant newTable[..] == PlaceAll(empty, Flatten(oldTable[..i]))
        modifies newTable
      {
        PlaceChain(newTable, oldTable[i], empty, Flatten(oldTable[..i]));
        FlattenSnoc(oldTable, i);
        i := i + 1;
      }
      assert oldTable[..n] == oldTable;
      table := newTable[..];
    }

    /** do_compaction: the head of every non-empty bucket gets its vector's
        capacity cut to its length; chained entries are left alone. */
    method DoCompaction()
      modifies this
      ensures table == Compact(old(table)) && wordCount == old(wordCount)
    {
      var i := 0;
      while i < |table|
        invariant 0 <= i <= |table| == |old(table)| && wordCount == old(wordCount)
        invariant forall b :: 0 <= b < i ==> table[b] == CompactHead(old(table)[b])
        invariant forall b :: i <= b < |table| ==> table[b] == old(table)[b]
      {
        if table[i] != [] {
          var head := table[i][0];
          table := table[i := [head.(positions := PosVecValue(head.positions.elems, |head.positions.elems|))] + table[i][1..]];
        }
        i := i + 1;
      }
    }

    /**
     * do_indexing: read the file in chunks of word_buffer_size - 1 bytes,
     * split each chunk (a C string) on " \r\n", and store every normalized
     * token at the chunk's offset plus its offset in the chunk; a token that
     * reaches the last byte of a full chunk ends the chunk unstored.
     */
    method DoIndexing(wordBufferSize: nat)
      requires Tracks() && 1 <= wordBufferSize
      modifies this
      ensures Tracks()
      ensures stored == old(stored) + IndexTokens(file, wordBufferSize)
    {
      ghost var whole := stored + IndexTokens(file, wordBufferSize);
      var off := 0;
      var n := ChunkSize(|file|, 0, wordBufferSize);
      while n != 0
        invariant off <= |file| && n == ChunkSize(|file|, off, wordBufferSize)
        invariant Tracks()
        invariant whole == stored + IndexTokensFrom(file, off, wordBufferSize)
        decreases |file| - off
      {
        IndexRead(off, n, wordBufferSize, whole);
        off := off + n;
        n := ChunkSize(|file|, off, wordBufferSize);
      }
      EndLog(whole, stored, file, off, wordBufferSize);
    }

    /** One fread of do_indexing: the n bytes at off, as a C string, go
        through the strtok loop; their tokens leave what is left to store. */
    method IndexRead(off: nat, n: nat, wordBufferSize: nat, ghost whole: seq<Token>)
      requires Tracks() && 1 <= wordBufferSize && off <= |file|
      requires n == ChunkSize(|file|, off, wordBufferSize) && n != 0
      requires whole == stored + IndexTokensFrom(file, off, wordBufferSize)
      modifies this
      ensures Tracks()
      ensures whole == stored + IndexTokensFrom(file, off + n, wordBufferSize)
    {
      var text := CString(file[off..off + n]);
      ghost var before := stored;
      IndexChunk(text, off, wordBufferSize - 1);
      ChunkLog(whole, before, stored, file, off, n, wordBufferSize, text);
    }

    /** The strtok loop over one chunk read at file offset off. */
    method IndexChunk(text: seq<byte>, off: nat, edge: nat)
      requires Tracks()
      modifies this
      ensures Tracks()
      ensures stored == old(stored) + ScanTokens(text, 0, off, edge)
    {
      ghost var goal := stored + ScanTokens(text, 0, off, edge);
      var i := 0;
      while i < |text|
        invariant i <= |text|
        invariant Tracks()
        invariant goal == stored + ScanTokens(text, i, off, edge)
      {
        if IsDelim(text[i]) {
          i := i + 1;
        } else {
          var e, atEdge := IndexToken(text, i, off, edge, goal);
          if atEdge {
            break;
          }
          i := e;
        }
      }
    }

    /** One token of the strtok loop, starting at i: it ends at the next
        delimiter; a token that reaches the edge ends the chunk unstored,
        any other is normalized and stored at off + i. */
    method IndexToken(text: seq<byte>, i: nat, off: nat, edge: nat, ghost goal: seq<Token>)
      returns (e: nat, atEdge: bool)
      requires Tracks()
      requires i < |text| && !IsDelim(text[i])
      requires goal == stored + ScanTokens(text, i, off, edge)
      modifies this
      ensures Tracks()
      ensures i < e <= |text|
      ensures atEdge ==> goal == stored
      ensures !atEdge ==> goal == stored + ScanTokens(text, e, off, edge)
    {
      e := i;
      while e < |text| && !IsDelim(text[e])
        invariant i <= e <= |text|
        invariant TokenEnd(text, e) == TokenEnd(text, i)
      {
        e := e + 1;
      }
      if e == edge {
        assert ScanTokens(text, i, off, edge) == TakeToken(text, i, off, edge) == [];
        return e, true;
      }
      var word := NormalizeToken(text, i, e);
      ScanTakes(text, i, e, off, edge, word);
      ghost var before := stored;
      StoreWord(word, off + i);
      LogStep(goal, before, [Token(word, off + i)], ScanTokens(text, e, off, edge),
              ScanTokens(text, i, off, edge), stored);
      atEdge := false;
    }

    /** normalize_word applied to the token text[i..e], which strtok has
        terminated with NUL. */
    static method NormalizeToken(text: seq<byte>, i: nat, e: nat) returns (word: seq<byte>)
      requires i <= e <= |text|
      ensures word == Normalize(text[i..e], NulOrPunct)
    {
      var buf := new byte[e - i + 1](k => if 0 <= k < e - i then text[i + k] else 0);
      assert buf[..] == text[i..e] + [0];
      var length := NormalizeWord(buf);
      word := buf[..length];
      NormalizeIgnoresTrailingBreak(text[i..e], 0, NulOrPunct);
    }

    /**
     * One frame of read_words_with_ctx: seek to file_pos_with_context, fread
     * read_size bytes (2*ctx + word_len, less the context missing before
     * the start of the file) after the 4 bytes reserved at `at`, then write
     * the number of bytes read there. The frame is the position's window.
     */
    method ReadFrame(buffer: array<byte>, at: nat, fpos: nat, ctx: nat, wordLen: nat, ghost written: seq<seq<byte>>)
      returns (readBytes: nat)
      requires FramesFit(written) && FitsU32(ctx, wordLen)
      requires at == |Serialize(written)| && at + 2 * ctx + wordLen + 4 <= buffer.Length
      requires buffer[..at] == Serialize(written)
      modifies buffer
      ensures readBytes == |Window(file, fpos, ctx, wordLen)|
      ensures FramesFit(written + [Window(file, fpos, ctx, wordLen)])
      ensures buffer[..at + 4 + readBytes] == Serialize(written + [Window(file, fpos, ctx, wordLen)])
      ensures forall k :: at + 4 + readBytes <= k < buffer.Length ==> buffer[k] == old(buffer[k])
    {
      var defaultReadSize := 2 * ctx + wordLen;
      var start := PosWithContext(fpos, ctx);
      var readSize := if fpos < ctx then defaultReadSize - (ctx - fpos) else defaultReadSize;
      var w := file[Min(start, |file|)..Min(start + readSize, |file|)];
      assert w == Window(file, fpos, ctx, wordLen);
      WriteFrame(buffer, at, w, written);
      readBytes := |w|;
    }

    /**
     * read_words_with_ctx: from the iterator's position on, write one frame
     * (the u32 byte count and the bytes fread delivers from
     * file_pos_with_context) per position while a worst-case frame and a
     * terminator still fit in `size`, then the terminator. When a position
     * does not fit, the iterator is stepped back onto it and returned;
     * otherwise the result is NULL.
     */
    method ReadWordsWithCtx(iter: PosVecIter, buffer: array<byte>, size: nat, ctx: nat, wordLen: nat)
      returns (cont: Option<PosVecIter>)
      requires 4 <= size <= buffer.Length
      requires FitsU32(ctx, wordLen)
      requires iter.index <= |iter.vec|
      modifies buffer, iter
      ensures FilledBuffer(buffer[..], old(buffer[..]), Fill(file, iter.vec, old(iter.index), 0, size, ctx, wordLen))
      ensures cont.Some? <==> Fill(file, iter.vec, old(iter.index), 0, size, ctx, wordLen).next.Some?
      ensures cont.Some? ==> cont.value == iter && iter.index == Fill(file, iter.vec, old(iter.index), 0, size, ctx, wordLen).next.value
      ensures cont.None? ==> iter.index == |iter.vec|
    {
      ghost var r0 := Fill(file, iter.vec, iter.index, 0, size, ctx, wordLen);
      ghost var before := buffer[..];
      ghost var written: seq<seq<byte>> := [];
      var total := 0;
      var defaultReadSize := 2 * ctx + wordLen;
      FillStart(r0);
      while iter.HasNext()
        invariant old(iter.index) <= iter.index <= |iter.vec|
        invariant FramesFit(written) && total == |Serialize(written)| && total + 4 <= size
        invariant r0 == Prepend(written, Fill(file, iter.vec, iter.index, total, size, ctx, wordLen))
        invariant buffer[..total] == Serialize(written)
        invariant forall k :: total <= k < buffer.Length ==> buffer[k] == before[k]
        decreases |iter.vec| - iter.index
      {
        ghost var j := iter.index;
        var fpos := iter.Next();
        if total + defaultReadSize + 8 > size {
          FillStopsAt(r0, written, file, iter.vec, j, total, size, ctx, wordLen);
          FinishFill(buffer, total, written, before, Some(j));
          iter.index := iter.index - 1;
          return Some(iter);
        }
        ghost var w := Window(file, fpos, ctx, wordLen);
        var readBytes := ReadFrame(buffer, total, fpos, ctx, wordLen, written);
        ghost var prev := written;
        ghost var used := total;
        written := written + [w];
        total := total + 4 + readBytes;
        FillTakesAt(r0, prev, w, file, iter.vec, j, used, size, ctx, wordLen, written, iter.index, total);
      }
      FillEndsAt(r0, written, file, iter.vec, iter.index, total, size, ctx, wordLen);
      FinishFill(buffer, total, written, before, None);
      cont := None;
    }

    /**
     * file_word_index_read_with_context_buffered. A continuation goes
     * straight back to the encoder, without normalizing or looking up the
     * word. Otherwise the word is normalized in place and the first entry of
     * its bucket whose word is a prefix of it is read with the caller's
     * word length; an unknown word gets only the terminator at offset 0.
     */
    method ReadWithContextBuffered(buffer: array<byte>, size: nat, word: array<byte>, wordLen: nat,
                                   ctx: nat, existing: Option<PosVecIter>)
      returns (cont: Option<PosVecIter>)
      requires Valid()
      requires 4 <= size <= buffer.Length && FitsU32(ctx, wordLen)
      requires existing.Some? ==> existing.value.index <= |existing.value.vec|
      requires existing.None? ==> 0 in word[..] && word != buffer
      modifies buffer, word, if existing.Some? then {existing.value} else {}
      ensures existing.Some? ==>
        var r := Fill(file, existing.value.vec, old(existing.value.index), 0, size, ctx, wordLen);
        FilledBuffer(buffer[..], old(buffer[..]), r) && (cont.Some? <==> r.next.Some?) &&
        (cont.Some? ==> cont.value == existing.value && cont.value.index == r.next.value)
      ensures existing.None? ==>
        match Lookup(table, Normalize(old(word[..]), NulOrPunct))
        case None => TerminatedOnly(buffer[..], old(buffer[..])) && cont.None?
        case Some(e) =>
          var r := Fill(file, e.positions.elems, 0, 0, size, ctx, wordLen);
          FilledBuffer(buffer[..], old(buffer[..]), r) && (cont.Some? <==> r.next.Some?) &&
          (cont.Some? ==> fresh(cont.value) && cont.value.vec == e.positions.elems && cont.value.index == r.next.value)
    {
      if existing.Some? {
        cont := ReadWordsWithCtx(existing.value, buffer, size, ctx, wordLen);
        return;
      }
      var length := NormalizeWord(word);
      var query := word[..length];
      var chain := table[Bucket(query, |table|)];
      var k := FindEntry(chain, query);
      if k < |chain| {
        var iter := new PosVecIter(chain[k].positions.elems);
        cont := ReadWordsWithCtx(iter, buffer, size, ctx, wordLen);
      } else {
        WriteU32(buffer, 0, 0);
        cont := None;
      }
    }

    /** Every stored word is short enough that 2*ctx + its length + 8 does
        not wrap in uint32_t. */
    ghost predicate WordsFit(ctx: nat)
      reads this
    {
      forall b, k :: 0 <= b < |table| && 0 <= k < |table[b]| ==> FitsU32(ctx, |table[b][k].word|)
    }

    /**
     * file_word_index_read_context_one_by_one. The buffer limit is
     * 2*ctx + the bucket head's word length + slack (8 in windex.c, 4 in
     * wordindex.c); a larger limit than the caller's buffer returns NULL
     * without writing. Otherwise the limit is the size given to the
     * encoder: a continuation is read with the head's word length, a fresh
     * query with the length of the first entry whose word is a prefix of
     * the normalized word; an unknown word returns NULL without writing.
     * The bucket must not be empty: the C code reads the head's length
     * through NULL otherwise.
     */
    method ReadContextOneByOne(buffer: array<byte>, size: nat, word: array<byte>, ctx: nat,
                               existing: Option<PosVecIter>, slack: nat)
      returns (cont: Option<PosVecIter>)
      requires Valid() && WordsFit(ctx) && 4 <= slack
      requires size <= buffer.Length && 0 in word[..] && word != buffer
      requires table[Bucket(Normalize(word[..], NulOrPunct), |table|)] != []
      requires existing.Some? ==> existing.value.index <= |existing.value.vec|
      modifies buffer, word, if existing.Some? then {existing.value} else {}
      ensures var q := Normalize(old(word[..]), NulOrPunct);
        var head := table[Bucket(q, |table|)][0];
        var limit := 2 * ctx + |head.word| + slack;
        if size < limit then cont.None? && buffer[..] == old(buffer[..])
        else if existing.Some? then
          var r := Fill(file, existing.value.vec, old(existing.value.index), 0, limit, ctx, |head.word|);
          FilledBuffer(buffer[..], old(buffer[..]), r) && (cont.Some? <==> r.next.Some?) &&
          (cont.Some? ==> cont.value == existing.value && cont.value.index == r.next.value)
        else match Lookup(table, q)
          case None => cont.None? && buffer[..] == old(buffer[..])
          case Some(e) =>
            var r := Fill(file, e.positions.elems, 0, 0, limit, ctx, |e.word|);
            FilledBuffer(buffer[..], old(buffer[..]), r) && (cont.Some? <==> r.next.Some?) &&
            (cont.Some? ==> fresh(cont.value) && cont.value.vec == e.positions.elems && cont.value.index == r.next.value)
    {
      var length := NormalizeWord(word);
      var query := word[..length];
      var chain := table[Bucket(query, |table|)];
      var headLen := |chain[0].word|;
      var limit := 2 * ctx + headLen + slack;
      if limit > size {
        return None;
      }
      if existing.Some? {
        cont := ReadWordsWithCtx(existing.value, buffer, limit, ctx, headLen);
        return;
      }
      var k := FindEntry(chain, query);
      if k < |chain| {
        var iter := new PosVecIter(chain[k].positions.elems);
        cont := ReadWordsWithCtx(iter, buffer, limit, ctx, |chain[k].word|);
      } else {
        cont := None;
      }
    }
  }

  /** wordindex.c's one-by-one limit, 2*ctx + word_len + 4, is below what
      the encoder's room check needs, so a caller that keeps passing back
      the handle it gets never gets a frame: the handle never moves. */
  lemma OneByOneLimitStalls(file: seq<byte>, vec: seq<nat>, i: nat, ctx: nat, wordLen: nat)
    requires i < |vec| && FitsU32(ctx, wordLen)
    ensures Fill(file, vec, i, 0, 2 * ctx + wordLen + WORDINDEX_SLACK, ctx, wordLen) == FillResult([], Some(i))
    ensures GetWordsFrom(file, vec, i, 2 * ctx + wordLen + WORDINDEX_SLACK, ctx, wordLen) == Hangs
  {
    FillNoProgress(file, vec, i, 2 * ctx + wordLen + WORDINDEX_SLACK, ctx, wordLen);
    GetWordsHangsBelow(file, vec, i, 2 * ctx + wordLen + WORDINDEX_SLACK, ctx, wordLen);
  }

  /** windex.c's limit, 2*ctx + word_len + 8, is single_read_size: each call
      writes exactly one frame, and repeating the call with the handle it
      returns yields every window in stored order. */
  lemma OneByOneLimitYieldsWindows(file: seq<byte>, vec: seq<nat>, i: nat, ctx: nat, wordLen: nat)
    requires i <= |vec| && FitsU32(ctx, wordLen) && InFile(file, vec[i..], ctx, wordLen)
    ensures 2 * ctx + wordLen + WINDEX_SLACK == SingleReadSize(ctx, wordLen)
    ensures |Fill(file, vec, i, 0, 2 * ctx + wordLen + WINDEX_SLACK, ctx, wordLen).frames| == if i < |vec| then 1 else 0
    ensures GetWordsFrom(file, vec, i, 2 * ctx + wordLen + WINDEX_SLACK, ctx, wordLen) == Words(Windows(file, vec[i..], ctx, wordLen))
  {
    var size := 2 * ctx + wordLen + WINDEX_SLACK;
    FillSingle(file, vec, i, ctx, wordLen);
    if i < |vec| {
      FillProgress(file, vec, i, size, ctx, wordLen);
      FillCount(file, vec, i, size, ctx, wordLen);
    }
    GetWordsYieldsWindows(file, vec, i, size, ctx, wordLen);
  }
}
