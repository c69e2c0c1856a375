/**
 * The lazy result iterators of the native front-ends. JNIWordIndex,
 * JNAWordIndex and FFMWordIndex share NativeWordContextIterator: it keeps
 * one direct buffer, hands out the strings of the fill in it one at a time
 * and refills it from the native continuation handle when the fill is
 * spent. The older NativeWordIndex has an iterator of its own that caches
 * the next length and never reads one after a refill.
 *
 * Both are proved against the sequences Frames describes: what the
 * iterator will still yield is a function of its state, which HasNext
 * keeps and Next shortens by the string it returns.
 */
module Iterators {
  import opened Common
  import opened Frames
  import opened CUtils
  import opened NativeIndex
  import opened Frontends

  /** The continuation handle as the index it resumes at (None is NULL). */
  function HandleIndex(h: Option<PosVecIter>): Option<nat>
    reads if h.Some? then {h.value} else {}
  {
    if h.Some? then Some(h.value.index) else None
  }

  /** A buffer that decodes to at least one string starts with its
      length and its bytes, and decodes on after them. */
  lemma DecodeFirst(bytes: seq<byte>, cap: nat)
    requires Decode(bytes, cap).Some? && Decode(bytes, cap).value != []
    ensures var n := ReadLe32(bytes[..4]);
      0 < n <= cap && 4 + n <= |bytes| && Decode(bytes[4 + n..], cap).Some? &&
      Decode(bytes, cap).value == [bytes[4..4 + n]] + Decode(bytes[4 + n..], cap).value
  {
  }

  /** One native call into the whole buffer: the buffer then decodes to the
      strings of the fill from `start`, and the handle returned resumes
      where that fill stopped. */
  method FillBuffer(index: WordIndex, buffer: array<byte>, str: array<byte>, word: seq<byte>, ctx: nat,
                    handle: Option<PosVecIter>, ghost vec: seq<nat>, start: nat)
    returns (cont: Option<PosVecIter>)
    requires index.Valid() && 4 <= buffer.Length && FitsU32(ctx, |word|)
    requires buffer != str && str.Length == 2 * ctx + |word|
    requires vec == QueryPositions(index.table, word)
    requires handle.None? ==> start == 0
    requires handle.Some? ==> handle.value.vec == vec && handle.value.index == start && start <= |vec|
    modifies buffer, if handle.Some? then {handle.value} else {}
    ensures start <= |vec|
    ensures var fill := Fill(index.file, vec, start, 0, buffer.Length, ctx, |word|);
      Decode(buffer[..], str.Length) == Some(UpToEmpty(fill.frames)) && HandleIndex(cont) == fill.next
    ensures cont.Some? ==> cont.value.vec == vec
    ensures cont.Some? ==> (handle.Some? && cont.value == handle.value) || (handle.None? && fresh(cont.value))
  {
    cont := CallNative(index, buffer, word, ctx, handle, vec, start);
    ghost var fill := Fill(index.file, vec, start, 0, buffer.Length, ctx, |word|);
    FillWithin(index.file, vec, start, 0, buffer.Length, ctx, |word|);
    ghost var f := Filled(fill.frames);
    assert buffer[..] == f + buffer[|f|..];
    DecodeFilledAny(fill.frames, buffer[|f|..], str.Length);
  }

  /** getInt, then that many get() calls through a copy array of `cap`
      bytes (which, as CopyOut shows, hands back exactly the bytes read):
      the first string the buffer decodes to from `at`, and the position
      after it. */
  method ReadString(buffer: array<byte>, at: nat, cap: nat) returns (s: seq<byte>, next: nat)
    requires at <= buffer.Length
    requires Decode(buffer[at..], cap).Some? && Decode(buffer[at..], cap).value != []
    ensures next <= buffer.Length && Decode(buffer[next..], cap).Some?
    ensures [s] + Decode(buffer[next..], cap).value == Decode(buffer[at..], cap).value
  {
    ghost var bytes := buffer[..];
    assert bytes[at..] == buffer[at..];
    DecodeFirstAt(bytes, at, cap);
    assert bytes[at..at + 4] == buffer[at..at + 4];
    var offset := ReadLe32(buffer[at..at + 4]);
    s := buffer[at + 4..at + 4 + offset];
    next := at + 4 + offset;
    assert s == bytes[at + 4..at + 4 + offset];
    assert bytes[next..] == buffer[next..];
    assert Decode(bytes[at..], cap).value == [s] + Decode(bytes[next..], cap).value;
  }

  /** DecodeFirst at an offset of the whole buffer. */
  lemma DecodeFirstAt(bytes: seq<byte>, at: nat, cap: nat)
    requires at <= |bytes| && Decode(bytes[at..], cap).Some? && Decode(bytes[at..], cap).value != []
    ensures var n := ReadLe32(bytes[at..at + 4]);
      0 < n <= cap && at + 4 + n <= |bytes| && Decode(bytes[at + 4 + n..], cap).Some? &&
      Decode(bytes[at..], cap).value == [bytes[at + 4..at + 4 + n]] + Decode(bytes[at + 4 + n..], cap).value
  {
    var tail := bytes[at..];
    assert tail[..4] == bytes[at..at + 4];
    DecodeFirst(tail, cap);
    DecodeAt(bytes, cap, at);
  }

  /** Taking the first of what is pending leaves the rest of it, then the
      same refills. */
  lemma ConsThen(s: seq<byte>, rest: seq<seq<byte>>, follow: seq<seq<byte>>, pending: seq<seq<byte>>)
    requires [s] + rest == pending
    ensures [s] + (rest + follow) == pending + follow
  {
  }

  class NativeWordContextIterator {
    const index: WordIndex
    const word: seq<byte>
    const ctx: nat
    /** The copy array, 2*ctx + word length bytes. */
    const str: array<byte>
    /** The direct buffer the native call writes into. */
    const buffer: array<byte>
    /** The ByteBuffer position. */
    var position: nat
    var iteratorHandle: Option<PosVecIter>
    /** The positions of the word's entry, read when the query started. */
    ghost const vec: seq<nat>

    ghost function Handles(): set<object>
      reads this
    {
      if iteratorHandle.Some? then {iteratorHandle.value} else {}
    }

    /** What every native call needs: an open index, a copy array as long
        as the longest window, and a handle that resumes the word's own
        positions. */
    ghost predicate Ready()
      reads this, index, Handles()
    {
      Query() && (iteratorHandle.Some? ==> iteratorHandle.value.vec == vec && iteratorHandle.value.index <= |vec|)
    }

    /** The query itself, which no call of the iterator changes. */
    ghost predicate Query()
      reads index
    {
      index.Valid() && FitsU32(ctx, |word|) && 4 <= buffer.Length &&
      buffer != str && str.Length == 2 * ctx + |word| &&
      vec == QueryPositions(index.table, word)
    }

    /** Between calls the buffer from the current position decodes. */
    ghost predicate Valid()
      reads this, buffer, index, Handles()
    {
      Ready() && position <= buffer.Length && Decode(buffer[position..], str.Length).Some?
    }

    /** The strings left in the buffer. */
    ghost function Pending(): seq<seq<byte>>
      requires Valid()
      reads this, buffer, index, Handles()
    {
      Decode(buffer[position..], str.Length).value
    }

    /** Everything the iterator will still yield: the strings left in the
        buffer, then what the refills from the handle bring. */
    ghost function Remaining(): seq<seq<byte>>
      requires Valid()
      reads this, buffer, index, Handles()
    {
      Pending() + Follow(index.file, vec, HandleIndex(iteratorHandle), buffer.Length, ctx, |word|)
    }

    /**
     * The iterator constructor: a copy array of 2*ctx + word length bytes,
     * a buffer of the binding's capacity, no handle, then the first fill.
     * It yields exactly what the lazy protocol yields from the first call.
     */
    constructor (index: WordIndex, word: seq<byte>, ctx: nat, binding: Binding, queryBufferSize: nat)
      requires index.Valid() && FitsU32(ctx, |word|) && MIN_QUERY_BUFFER_SIZE <= queryBufferSize
      ensures Valid() && this.index == index && this.word == word && this.ctx == ctx
      ensures buffer.Length == BufferCapacity(binding, queryBufferSize, ctx, |word|)
      ensures Remaining() == IterYield(index.file, QueryPositions(index.table, word), buffer.Length, ctx, |word|)
      ensures fresh(buffer) && fresh(str) && fresh(Handles())
    {
      this.index := index;
      this.word := word;
      this.ctx := ctx;
      this.vec := QueryPositions(index.table, word);
      this.str := new byte[2 * ctx + |word|];
      this.buffer := new byte[BufferCapacity(binding, queryBufferSize, ctx, |word|)];
      this.position := 0;
      this.iteratorHandle := None;
      new;
      ReadIntoBuffer();
    }

    /**
     * readIntoBuffer: one native call from the handle (the first call when
     * it is NULL), the handle it returns kept, the position rewound. The
     * buffer then decodes to the strings of that fill.
     */
    method ReadIntoBuffer()
      requires Ready()
      modifies this, buffer, Handles()
      ensures Ready() && position == 0
      ensures var fill := Fill(index.file, vec, if old(iteratorHandle).Some? then old(iteratorHandle.value.index) else 0,
                               0, buffer.Length, ctx, |word|);
        Decode(buffer[..], str.Length) == Some(UpToEmpty(fill.frames)) &&
        HandleIndex(iteratorHandle) == fill.next
      ensures old(iteratorHandle).Some? ==> iteratorHandle.None? || iteratorHandle == old(iteratorHandle)
      ensures old(iteratorHandle).None? ==> fresh(Handles())
    {
      var start := if iteratorHandle.Some? then iteratorHandle.value.index else 0;
      iteratorHandle := FillBuffer(index, buffer, str, word, ctx, iteratorHandle, vec, start);
      position := 0;
    }

    /** bufferHasNext: peek at the next length without moving. */
    method BufferHasNext() returns (b: bool)
      requires Valid()
      ensures b <==> Pending() != []
    {
      ghost var bytes := buffer[position..];
      assert bytes[..4] == buffer[position..position + 4];
      b := ReadLe32(buffer[position..position + 4]) != TERM_BUFFER_MARK;
    }

    /**
     * hasNext: a string in the buffer, or else, with a handle, a refill
     * that starts with a string. The answer is whether anything is left to
     * yield; when it is true nothing yielded is lost or added.
     */
    method HasNext() returns (b: bool)
      requires Valid()
      modifies this, buffer, Handles()
      ensures Valid()
      ensures b <==> old(Remaining()) != []
      ensures b ==> Pending() != [] && Remaining() == old(Remaining())
    {
      b := BufferHasNext();
      if !b && iteratorHandle.Some? {
        ghost var j := iteratorHandle.value.index;
        ghost var size := buffer.Length;
        ReadIntoBuffer();
        assert buffer[position..] == buffer[..];
        b := BufferHasNext();
        ghost var fill := Fill(index.file, vec, j, 0, size, ctx, |word|);
        FillCount(index.file, vec, j, size, ctx, |word|);
        assert Follow(index.file, vec, Some(j), size, ctx, |word|) ==
          if UpToEmpty(fill.frames) == [] then []
          else UpToEmpty(fill.frames) + Follow(index.file, vec, fill.next, size, ctx, |word|);
      }
    }

    /** next: consume one length and that many bytes, returned as the
        string; it is the first of what was left to yield. */
    method Next() returns (s: seq<byte>)
      requires Valid() && Pending() != []
      modifies this
      ensures Valid()
      ensures [s] + Remaining() == old(Remaining())
    {
      ghost var follow := Follow(index.file, vec, HandleIndex(iteratorHandle), buffer.Length, ctx, |word|);
      ghost var pending := Pending();
      var at;
      s, at := ReadString(buffer, position, str.Length);
      position := at;
      assert Remaining() == Pending() + follow;
      ConsThen(s, Pending(), follow, pending);
    }

    /** close: the handle passed to file_word_index_close_iterator, None
        when there is no call (a NULL handle was already released). */
    method Close() returns (released: Option<PosVecIter>)
      ensures released.Some? <==> iteratorHandle.Some?
      ensures released.Some? ==> released.value == iteratorHandle.value
    {
      released := iteratorHandle;
    }
  }

  /** The body of NativeWordIndex's next() up to the refill: with the
      length n of the string at `at` already read, copy its bytes and read
      the following length. The buffer decodes from that length to what
      was left after the string. */
  method ReadCachedString(buffer: array<byte>, at: nat, n: nat, cap: nat)
    returns (s: seq<byte>, length: nat, next: nat)
    requires 4 <= at <= buffer.Length && n != 0
    requires ReadLe32(buffer[at - 4..at]) == n && Decode(buffer[at - 4..], cap).Some?
    ensures 4 <= next <= buffer.Length && ReadLe32(buffer[next - 4..next]) == length
    ensures Decode(buffer[next - 4..], cap).Some?
    ensures [s] + Decode(buffer[next - 4..], cap).value == Decode(buffer[at - 4..], cap).value
    ensures length == 0 <==> Decode(buffer[next - 4..], cap).value == []
  {
    ghost var bytes := buffer[..];
    assert bytes[at - 4..at] == buffer[at - 4..at] && bytes[at - 4..] == buffer[at - 4..];
    DecodeHeadAt(bytes, at - 4, cap);
    DecodeFirstAt(bytes, at - 4, cap);
    s := buffer[at..at + n];
    next := at + n + 4;
    assert s == bytes[at..at + n] && bytes[next - 4..] == buffer[next - 4..];
    DecodeHeadAt(bytes, next - 4, cap);
    length := ReadLe32(buffer[next - 4..next]);
  }

  /** A decodable buffer starts with a length, which is 0 exactly when it
      decodes to nothing. */
  lemma DecodeHead(bytes: seq<byte>, cap: nat)
    requires Decode(bytes, cap).Some?
    ensures 4 <= |bytes| && (ReadLe32(bytes[..4]) == 0 <==> Decode(bytes, cap).value == [])
  {
  }

  /** DecodeHead at an offset of the whole buffer. */
  lemma DecodeHeadAt(bytes: seq<byte>, at: nat, cap: nat)
    requires at <= |bytes| && Decode(bytes[at..], cap).Some?
    ensures at + 4 <= |bytes| && (ReadLe32(bytes[at..at + 4]) == 0 <==> Decode(bytes[at..], cap).value == [])
  {
    var tail := bytes[at..];
    assert tail[..4] == bytes[at..at + 4];
    DecodeHead(tail, cap);
  }

  /** What the NativeWordIndex iterator yields: the strings of its first
      fill, each without its last byte, and only when that fill handed back
      a handle; nothing otherwise. */
  function LegacyYield(file: seq<byte>, vec: seq<nat>, size: nat, ctx: nat, wordLen: nat): (ws: seq<seq<byte>>)
    requires FitsU32(ctx, wordLen)
  {
    var fill := Fill(file, vec, 0, 0, size, ctx, wordLen);
    if fill.next.None? then [] else DropLastAll(UpToEmpty(fill.frames))
  }

  /** Dropping the last byte of every string commutes with taking the
      first string off. */
  lemma DropLastCons(c: seq<byte>, rest: seq<seq<byte>>, pending: seq<seq<byte>>)
    requires [c] + rest == pending
    ensures DropLastAll(pending) == [DropLast(c)] + DropLastAll(rest)
  {
    KeptAppend([c], rest, true);
  }

  /**
   * The iterator of NativeWordIndex. It caches the length of the next
   * string in `offset` and reports a next string only while the native
   * handle is non-NULL. After the last string of a fill it refills the
   * buffer but does not read the new fill's first length, so the offset
   * stays 0.
   */
  class LegacyWordContextIterator {
    const index: WordIndex
    const word: seq<byte>
    const ctx: nat
    const str: array<byte>
    const buffer: array<byte>
    var position: nat
    /** The length read after the current string's bytes were reached (0
        is the terminator). */
    var offset: nat
    var iterHandle: Option<PosVecIter>
    ghost const vec: seq<nat>

    ghost function Handles(): set<object>
      reads `iterHandle
    {
      if iterHandle.Some? then {iterHandle.value} else {}
    }

    ghost predicate Ready()
      reads `iterHandle, index, Handles()
    {
      Query() && (iterHandle.Some? ==> iterHandle.value.vec == vec && iterHandle.value.index <= |vec|)
    }

    /** The query itself, which no call of the iterator changes. */
    ghost predicate Query()
      reads index
    {
      index.Valid() && FitsU32(ctx, |word|) && 4 <= buffer.Length &&
      buffer != str && str.Length == 2 * ctx + |word| &&
      vec == QueryPositions(index.table, word)
    }

    /** A non-zero offset is the length just read, and the buffer decodes
        from that length on. */
    ghost predicate Valid()
      reads `position, `offset, `iterHandle, buffer, index, Handles()
    {
      Ready() && position <= buffer.Length &&
      (offset != 0 ==>
         4 <= position && ReadLe32(buffer[position - 4..position]) == offset &&
         Decode(buffer[position - 4..], str.Length).Some?)
    }

    /** The strings left in the buffer, as the offset sees them. */
    ghost function Pending(): seq<seq<byte>>
      requires Valid()
      reads `position, `offset, `iterHandle, buffer, index, Handles()
    {
      if offset == 0 then [] else Decode(buffer[position - 4..], str.Length).value
    }

    /** What the iterator will still yield. */
    ghost function Remaining(): seq<seq<byte>>
      requires Valid()
      reads `position, `offset, `iterHandle, buffer, index, Handles()
    {
      if iterHandle.None? then [] else DropLastAll(Pending())
    }

    /** The constructor: the first fill, then the first length. */
    constructor (index: WordIndex, word: seq<byte>, ctx: nat, queryBufferSize: nat)
      requires index.Valid() && FitsU32(ctx, |word|) && MIN_QUERY_BUFFER_SIZE <= queryBufferSize
      ensures Valid() && this.index == index && this.word == word && this.ctx == ctx
      ensures buffer.Length == RaisedCapacity(queryBufferSize, ctx, |word|)
      ensures Remaining() == LegacyYield(index.file, QueryPositions(index.table, word), buffer.Length, ctx, |word|)
      ensures fresh(buffer) && fresh(str) && fresh(Handles())
    {
      this.index := index;
      this.word := word;
      this.ctx := ctx;
      this.vec := QueryPositions(index.table, word);
      this.str := new byte[2 * ctx + |word|];
      this.buffer := new byte[RaisedCapacity(queryBufferSize, ctx, |word|)];
      this.position := 0;
      this.offset := TERM_BUFFER_MARK;
      this.iterHandle := None;
      new;
      ReadIntoBuffer();
      assert buffer[..][..4] == buffer[0..4];
      offset := ReadLe32(buffer[0..4]);
      position := 4;
      assert buffer[position - 4..] == buffer[..];
    }

    /** readIntoBuffer: rewind, then one native call from the handle. */
    method ReadIntoBuffer()
      requires Ready()
      modifies this, buffer, Handles()
      ensures Ready() && position == 0 && offset == old(offset)
      ensures var fill := Fill(index.file, vec, if old(iterHandle).Some? then old(iterHandle.value.index) else 0,
                               0, buffer.Length, ctx, |word|);
        Decode(buffer[..], str.Length) == Some(UpToEmpty(fill.frames)) &&
        HandleIndex(iterHandle) == fill.next
      ensures old(iterHandle).None? ==> fresh(Handles())
    {
      position := 0;
      var start := if iterHandle.Some? then iterHandle.value.index else 0;
      iterHandle := FillBuffer(index, buffer, str, word, ctx, iterHandle, vec, start);
    }

    /** hasNext: a non-NULL handle and a non-zero cached length; true
        exactly when something is left to yield. */
    method HasNext() returns (b: bool)
      requires Valid()
      ensures b <==> Remaining() != []
    {
      b := iterHandle.Some? && offset != TERM_BUFFER_MARK;
      if b {
        DecodeFirst(buffer[position - 4..], str.Length);
      }
    }

    /**
     * next: copy `offset` bytes, read the following length, refill when it
     * is 0, and return the copied bytes but the last. It is the first of
     * what was left to yield.
     */
    method Next() returns (s: seq<byte>)
      requires Valid() && iterHandle.Some? && offset != 0
      modifies this, buffer, Handles()
      ensures Valid()
      ensures [s] + Remaining() == old(Remaining())
    {
      ghost var pending := Pending();
      var copied, length, at := ReadCachedString(buffer, position, offset, str.Length);
      ghost var rest := Decode(buffer[at - 4..], str.Length).value;
      DropLastCons(copied, rest, pending);
      s := DropLast(copied);
      MoveTo(at, length, rest);
    }

    /** The end of next: stand after the copied string with its following
        length cached, refilling when that length is 0. What is left to
        yield is then the strings after the copied one. */
    method MoveTo(at: nat, length: nat, ghost rest: seq<seq<byte>>)
      requires Ready() && iterHandle.Some?
      requires 4 <= at <= buffer.Length && ReadLe32(buffer[at - 4..at]) == length
      requires Decode(buffer[at - 4..], str.Length) == Some(rest)
      requires length == 0 <==> rest == []
      modifies this, buffer, Handles()
      ensures Valid() && Remaining() == DropLastAll(rest)
    {
      position, offset := at, length;
      if offset == TERM_BUFFER_MARK {
        ReadIntoBuffer();
      }
    }

    /** close: when hasNext holds, wordIndexCloseIterator is called with the
        index handle, not the iterator handle. */
    method Close() returns (closed: Option<WordIndex>)
      requires Valid()
      ensures closed.Some? <==> Remaining() != []
      ensures closed.Some? ==> closed.value == index
    {
      var more := HasNext();
      closed := if more then Some(index) else None;
    }
  }

  /** The NativeWordIndex iterator yields, without their last bytes, a
      prefix of what the other iterators yield. */
  lemma LegacyYieldIsPrefix(file: seq<byte>, vec: seq<nat>, size: nat, ctx: nat, wordLen: nat)
    requires FitsU32(ctx, wordLen)
    ensures var legacy := LegacyYield(file, vec, size, ctx, wordLen);
      var all := IterYield(file, vec, size, ctx, wordLen);
      |legacy| <= |all| && legacy == DropLastAll(all[..|legacy|])
  {
    var fill := Fill(file, vec, 0, 0, size, ctx, wordLen);
    var got := UpToEmpty(fill.frames);
    var all := IterYield(file, vec, size, ctx, wordLen);
    assert all[..|got|] == got;
  }

  /** As written, a word whose windows all fit in the first buffer is
      never reported by the NativeWordIndex iterator: the first fill
      returns NULL and hasNext is false from the start, while the other
      iterators yield every window. */
  lemma LegacyMissesSingleFill(file: seq<byte>, vec: seq<nat>, size: nat, ctx: nat, wordLen: nat)
    requires FitsU32(ctx, wordLen) && InFile(file, vec, ctx, wordLen)
    requires SingleReadSize(ctx, wordLen) <= size
    requires Fill(file, vec, 0, 0, size, ctx, wordLen).next.None?
    ensures LegacyYield(file, vec, size, ctx, wordLen) == []
    ensures IterYield(file, vec, size, ctx, wordLen) == Windows(file, vec, ctx, wordLen)
    ensures |IterYield(file, vec, size, ctx, wordLen)| == |vec|
  {
    IterYieldsWindows(file, vec, size, ctx, wordLen);
  }

  /** For instance a word stored once at offset 0 of a one-byte file. */
  lemma LegacyMissesOneWord()
    ensures LegacyYield([65], [0], 512, 0, 1) == []
    ensures IterYield([65], [0], 512, 0, 1) == [[65]]
  {
    var fill := Fill([65], [0], 0, 0, 512, 0, 1);
    assert Window([65], 0, 0, 1) == [65];
    assert fill == FillResult([[65]], None);
  }

  /** iterateWords: FileNotFoundException when the indexed file no longer
      exists, otherwise a fresh iterator over the query. */
  method IterateWords(index: WordIndex, fileExists: bool, word: seq<byte>, ctx: nat, binding: Binding, queryBufferSize: nat)
    returns (r: Option<NativeWordContextIterator>)
    requires index.Valid() && FitsU32(ctx, |word|) && MIN_QUERY_BUFFER_SIZE <= queryBufferSize
    ensures r.None? <==> !fileExists
    ensures r.Some? ==>
      fresh(r.value) && r.value.Valid() && r.value.index == index &&
      r.value.Remaining() == IterYield(index.file, QueryPositions(index.table, word), r.value.buffer.Length, ctx, |word|)
  {
    if !fileExists {
      return None;
    }
    var it := new NativeWordContextIterator(index, word, ctx, binding, queryBufferSize);
    r := Some(it);
  }
}
