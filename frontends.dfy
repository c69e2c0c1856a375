/**
 * The Java front-ends of the native index. JNIWordIndex, JNAWordIndex and
 * FFMWordIndex share one model, NativeFrontend: each opens a native index
 * and answers a query by calling file_word_index_read_with_context_buffered
 * into a direct buffer, either until the continuation handle is NULL,
 * decoding the buffer after every call (getWords), or one buffer at a time
 * behind an iterator (iterateWords). They differ only in the capacity of
 * that buffer. The older NativeWordIndex runs the same getWords loop with a
 * decoder that drops the last byte of every string, and has an iterator of
 * its own.
 */
module Frontends {
  import opened Common
  import opened HashTable
  import opened Frames
  import opened CUtils
  import opened NativeIndex

  const TERM_BUFFER_MARK: nat := 0
  const MIN_QUERY_BUFFER_SIZE: nat := 512
  const MIN_INDEXING_BUFFER_SIZE: nat := 4096
  const MIN_WORD_CAPACITY_ESTIMATE: nat := 64
  /** Integer.BYTES */
  const INT_BYTES: nat := 4

  // ---------------------------------------------------------------------
  // Context sizes
  // ---------------------------------------------------------------------

  /** WordIndex.ContextBytes: how many bytes of context surround a word on
      each side. */
  datatype ContextBytes = NoContext | SmallContext | MediumContext | LargeContext
  {
    function Size(): (n: nat)
      ensures n <= 128
    {
      match this
      case NoContext => 0
      case SmallContext => 16
      case MediumContext => 64
      case LargeContext => 128
    }

    /** Declaration order. */
    function Ordinal(): nat {
      match this
      case NoContext => 0
      case SmallContext => 1
      case MediumContext => 2
      case LargeContext => 3
    }
  }

  /** enum context of the native headers, in declaration order. */
  const NATIVE_CONTEXTS: seq<nat> := [0, 16, 64, 128]

  /** The Java sizes are the native enum's values, and a later constant
      means strictly more context. */
  lemma ContextSizes(c: ContextBytes, d: ContextBytes)
    ensures c.Size() == NATIVE_CONTEXTS[c.Ordinal()]
    ensures c.Ordinal() < d.Ordinal() ==> c.Size() < d.Size()
  {
  }

  // ---------------------------------------------------------------------
  // Opening an index
  // ---------------------------------------------------------------------

  /** The bindings that share one front-end model. */
  datatype Binding = Jni | Jna | Ffm

  datatype OpenError = FileNotFound | IllegalArgument

  /** What a front-end's constructor passes to the native open and keeps. */
  datatype Settings = Settings(wordCapacity: nat, indexingBufferSize: nat, queryBufferSize: nat, compact: bool)

  datatype Opening = Opens(settings: Settings) | Refused(error: OpenError)

  /** x, raised to min when below it. */
  function AtLeast(x: int, min: nat): (v: nat)
    ensures min <= v
    ensures v == x || v == min
    ensures min <= x ==> v == x
  {
    if x < min then min else x
  }

  /**
   * The constructors' checks: a path that does not exist is refused
   * (FileNotFoundException, IllegalArgumentException in NativeWordIndex);
   * otherwise the word capacity, the indexing buffer and the query buffer
   * are raised to their minimums and everything else is passed on.
   */
  function OpenSettings(legacy: bool, fileExists: bool, wordCapacityEstimate: int, indexingBufferSize: int,
                        queryBufferSize: int, compact: bool): (r: Opening)
    ensures r.Refused? <==> !fileExists
    ensures r.Refused? ==> r.error == if legacy then IllegalArgument else FileNotFound
    ensures r.Opens? ==>
      MIN_WORD_CAPACITY_ESTIMATE <= r.settings.wordCapacity &&
      MIN_INDEXING_BUFFER_SIZE <= r.settings.indexingBufferSize &&
      MIN_QUERY_BUFFER_SIZE <= r.settings.queryBufferSize &&
      (MIN_WORD_CAPACITY_ESTIMATE <= wordCapacityEstimate ==> r.settings.wordCapacity == wordCapacityEstimate) &&
      (MIN_INDEXING_BUFFER_SIZE <= indexingBufferSize ==> r.settings.indexingBufferSize == indexingBufferSize) &&
      (MIN_QUERY_BUFFER_SIZE <= queryBufferSize ==> r.settings.queryBufferSize == queryBufferSize) &&
      r.settings.compact == compact
  {
    if !fileExists then Refused(if legacy then IllegalArgument else FileNotFound)
    else
      Opens(Settings(AtLeast(wordCapacityEstimate, MIN_WORD_CAPACITY_ESTIMATE),
                     AtLeast(indexingBufferSize, MIN_INDEXING_BUFFER_SIZE),
                     AtLeast(queryBufferSize, MIN_QUERY_BUFFER_SIZE), compact))
  }

  // ---------------------------------------------------------------------
  // Buffer capacity
  // ---------------------------------------------------------------------

  /** getNativeBuffer(queryBufferSize, maxStrLength + Integer.BYTES) of JNI,
      JNA and NativeWordIndex: room for one string and its length. */
  function RaisedCapacity(queryBufferSize: nat, ctx: nat, wordLen: nat): (n: nat)
    ensures queryBufferSize <= n && 2 * ctx + wordLen + INT_BYTES <= n
    ensures n == queryBufferSize || n == 2 * ctx + wordLen + INT_BYTES
  {
    if queryBufferSize < 2 * ctx + wordLen + INT_BYTES then 2 * ctx + wordLen + INT_BYTES else queryBufferSize
  }

  /** The capacity of a query buffer: FFM allocates exactly the configured
      size, JNI and JNA raise it as above. */
  function BufferCapacity(binding: Binding, queryBufferSize: nat, ctx: nat, wordLen: nat): (n: nat)
    ensures binding == Ffm ==> n == queryBufferSize
    ensures binding != Ffm ==> n == RaisedCapacity(queryBufferSize, ctx, wordLen)
  {
    if binding == Ffm then queryBufferSize else RaisedCapacity(queryBufferSize, ctx, wordLen)
  }

  /** The capacity the encoder needs: room for one worst-case frame and the
      terminator. */
  function RoomyCapacity(queryBufferSize: nat, ctx: nat, wordLen: nat): (n: nat)
    ensures queryBufferSize <= n && SingleReadSize(ctx, wordLen) <= n
    ensures n == queryBufferSize || n == SingleReadSize(ctx, wordLen)
  {
    if queryBufferSize < SingleReadSize(ctx, wordLen) then SingleReadSize(ctx, wordLen) else queryBufferSize
  }

  /** As written, a query whose 2*ctx + word length + 8 exceeds the
      configured buffer gets a buffer the encoder cannot write a frame into
      with every binding: a 252-byte word with LARGE_CONTEXT and the default
      512-byte buffer makes getWords loop forever and the iterator yield
      nothing, for any word with stored positions. */
  lemma CapacityTooSmall(binding: Binding, file: seq<byte>, vec: seq<nat>)
    requires vec != []
    ensures var size := BufferCapacity(binding, MIN_QUERY_BUFFER_SIZE, LargeContext.Size(), 252);
      GetWordsFrom(file, vec, 0, size, 128, 252) == Hangs &&
      IterYield(file, vec, size, 128, 252) == []
  {
    var size := BufferCapacity(binding, MIN_QUERY_BUFFER_SIZE, LargeContext.Size(), 252);
    assert size == 512 < SingleReadSize(128, 252);
    GetWordsHangsBelow(file, vec, 0, size, 128, 252);
    IterYieldsNothingBelow(file, vec, size, 128, 252);
  }

  /** With the capacity raised to 2*ctx + word length + 8 instead, getWords
      and the iterator both yield every window of the query's positions. */
  lemma RoomyCapacityYieldsWindows(file: seq<byte>, vec: seq<nat>, queryBufferSize: nat, ctx: nat, wordLen: nat)
    requires FitsU32(ctx, wordLen) && InFile(file, vec, ctx, wordLen)
    ensures var size := RoomyCapacity(queryBufferSize, ctx, wordLen);
      GetWordsFrom(file, vec, 0, size, ctx, wordLen) == Words(Windows(file, vec, ctx, wordLen)) &&
      IterYield(file, vec, size, ctx, wordLen) == Windows(file, vec, ctx, wordLen)
  {
    IterYieldsWindows(file, vec, RoomyCapacity(queryBufferSize, ctx, wordLen), ctx, wordLen);
  }

  // ---------------------------------------------------------------------
  // The native call and the decode loop
  // ---------------------------------------------------------------------

  /** The positions a query for word reads: those of the first entry in the
      normalized word's bucket whose word is a prefix of it; none for an
      unknown word. */
  function QueryPositions(t: Table, word: seq<byte>): seq<nat>
    requires 0 < |t|
  {
    match Lookup(t, Normalize(word, NulOrPunct))
    case None => []
    case Some(e) => e.positions.elems
  }

  /** An unknown word's buffer is that of a fill over no positions. */
  lemma TerminatedOnlyIsEmptyFill(now: seq<byte>, before: seq<byte>, file: seq<byte>, size: nat, ctx: nat, wordLen: nat)
    requires FitsU32(ctx, wordLen)
    requires TerminatedOnly(now, before)
    ensures Fill(file, [], 0, 0, size, ctx, wordLen) == FillResult([], None)
    ensures FilledBuffer(now, before, FillResult([], None))
  {
    assert Filled([]) == Le32(0);
  }

  /**
   * One native query through a binding: the word's bytes as a fresh
   * NUL-terminated C string, the buffer's capacity as its size. The call
   * that starts a query (no handle) reads from the first position of the
   * word's entry, a continuation from its handle's index; either way the
   * buffer holds one fill from there.
   */
  method CallNative(index: WordIndex, buffer: array<byte>, word: seq<byte>, ctx: nat,
                    handle: Option<PosVecIter>, ghost vec: seq<nat>, ghost start: nat)
    returns (cont: Option<PosVecIter>)
    requires index.Valid() && 4 <= buffer.Length && FitsU32(ctx, |word|)
    requires vec == QueryPositions(index.table, word)
    requires handle.None? ==> start == 0
    requires handle.Some? ==> handle.value.vec == vec && handle.value.index == start && start <= |vec|
    modifies buffer, if handle.Some? then {handle.value} else {}
    ensures start <= |vec|
    ensures var r := Fill(index.file, vec, start, 0, buffer.Length, ctx, |word|);
      FilledBuffer(buffer[..], old(buffer[..]), r) && (cont.Some? <==> r.next.Some?) &&
      (cont.Some? ==> cont.value.vec == vec && cont.value.index == r.next.value)
    ensures cont.Some? ==> (handle.Some? && cont.value == handle.value) || (handle.None? && fresh(cont.value))
  {
    var cstr := new byte[|word| + 1](i => if 0 <= i < |word| then word[i] else 0);
    assert cstr[..] == word + [0];
    if handle.None? {
      NormalizeIgnoresTrailingBreak(word, 0, NulOrPunct);
    }
    ghost var before := buffer[..];
    cont := index.ReadWithContextBuffered(buffer, buffer.Length, cstr, |word|, ctx, handle);
    if handle.None? && Lookup(index.table, Normalize(word, NulOrPunct)).None? {
      TerminatedOnlyIsEmptyFill(buffer[..], before, index.file, buffer.Length, ctx, |word|);
    }
  }

  /** new String(str, 0, i - 1): NativeWordIndex drops the last byte of
      every string (strings are never empty: a zero length ends the fill). */
  function DropLast(s: seq<byte>): (r: seq<byte>)
    ensures s != [] ==> r == s[..|s| - 1]
  {
    if s == [] then [] else s[..|s| - 1]
  }

  function DropLastAll(ws: seq<seq<byte>>): (rs: seq<seq<byte>>)
    ensures |rs| == |ws|
    ensures forall k :: 0 <= k < |ws| ==> rs[k] == DropLast(ws[k])
  {
    seq(|ws|, k requires 0 <= k < |ws| => DropLast(ws[k]))
  }

  /** The strings a decode loop keeps: all of them, or with NativeWordIndex
      each without its last byte. */
  function Kept(ws: seq<seq<byte>>, legacy: bool): (rs: seq<seq<byte>>)
    ensures |rs| == |ws|
  {
    if legacy then DropLastAll(ws) else ws
  }

  lemma KeptAppend(a: seq<seq<byte>>, b: seq<seq<byte>>, legacy: bool)
    ensures Kept(a + b, legacy) == Kept(a, legacy) + Kept(b, legacy)
  {
    if legacy {
      assert DropLastAll(a + b) == DropLastAll(a) + DropLastAll(b);
    }
  }

  /** The bytes of one string, read one at a time with get() into the copy
      array, as new String(str, 0, length) sees them. */
  method CopyOut(buffer: array<byte>, from: nat, n: nat, str: array<byte>) returns (s: seq<byte>)
    requires from + n <= buffer.Length && n <= str.Length && str != buffer
    modifies str
    ensures s == buffer[from..from + n]
  {
    var length := 0;
    while length < n
      invariant 0 <= length <= n
      invariant str[..length] == buffer[from..from + length]
    {
      str[length] := buffer[from + length];
      length := length + 1;
    }
    s := str[..n];
  }

  function PrependTo(got: seq<seq<byte>>, r: Option<seq<seq<byte>>>): Option<seq<seq<byte>>> {
    if r.Some? then Some(got + r.value) else None
  }

  /** Where the decode loop stands at `from` with `raw` read so far: the
      decoding of the whole buffer is raw followed by that of the rest. */
  ghost predicate DecodedUpTo(bytes: seq<byte>, cap: nat, from: nat, raw: seq<seq<byte>>) {
    from <= |bytes| && Decode(bytes, cap) == PrependTo(raw, Decode(bytes[from..], cap))
  }

  lemma DecodedAtStart(bytes: seq<byte>, cap: nat)
    ensures DecodedUpTo(bytes, cap, 0, [])
  {
    assert bytes[0..] == bytes;
    var whole := Decode(bytes, cap);
    assert whole.Some? ==> [] + whole.value == whole.value;
  }

  /** Decoding from `from` when a string starts there. */
  lemma DecodeAt(bytes: seq<byte>, cap: nat, from: nat)
    requires from + 4 <= |bytes|
    requires var n := ReadLe32(bytes[from..from + 4]); n != 0 && n <= cap && from + 4 + n <= |bytes|
    ensures var n := ReadLe32(bytes[from..from + 4]);
      Decode(bytes[from..], cap) == PrependTo([bytes[from + 4..from + 4 + n]], Decode(bytes[from + 4 + n..], cap))
  {
    var n := ReadLe32(bytes[from..from + 4]);
    var tail := bytes[from..];
    assert tail[..4] == bytes[from..from + 4];
    assert tail[4..4 + n] == bytes[from + 4..from + 4 + n];
    assert tail[4 + n..] == bytes[from + 4 + n..];
  }

  lemma PrependToPrependTo(a: seq<seq<byte>>, b: seq<seq<byte>>, r: Option<seq<seq<byte>>>)
    ensures PrependTo(a, PrependTo(b, r)) == PrependTo(a + b, r)
  {
    if r.Some? {
      assert a + (b + r.value) == (a + b) + r.value;
    }
  }

  /** One string read at `from` moves the loop past it. */
  lemma DecodedStep(bytes: seq<byte>, cap: nat, from: nat, raw: seq<seq<byte>>, n: nat, s: seq<byte>, next: nat)
    requires DecodedUpTo(bytes, cap, from, raw) && from + 4 <= |bytes|
    requires n == ReadLe32(bytes[from..from + 4]) && n != 0 && n <= cap
    requires next == from + 4 + n && next <= |bytes| && s == bytes[from + 4..next]
    ensures DecodedUpTo(bytes, cap, next, raw + [s])
  {
    DecodeAt(bytes, cap, from);
    PrependToPrependTo(raw, [s], Decode(bytes[next..], cap));
  }

  /** The loop's exits: the terminator ends the whole decoding with what was
      read, running out of bytes or of copy array makes it fail. */
  lemma DecodedEnd(bytes: seq<byte>, cap: nat, from: nat, raw: seq<seq<byte>>)
    requires DecodedUpTo(bytes, cap, from, raw)
    ensures from + 4 > |bytes| ==> Decode(bytes, cap) == None
    ensures from + 4 <= |bytes| ==>
      var n := ReadLe32(bytes[from..from + 4]);
      (n == 0 ==> Decode(bytes, cap) == Some(raw)) &&
      (n != 0 && (cap < n || |bytes| < from + 4 + n) ==> Decode(bytes, cap) == None)
  {
    if from + 4 <= |bytes| {
      assert bytes[from..][..4] == bytes[from..from + 4];
      assert raw + [] == raw;
    }
  }

  /**
   * The decode loop run after every native call of getWords, from the
   * start of the buffer: getInt a length, stop at TERM_BUFFER_MARK, copy
   * that many bytes out and keep the string. None stands for the exception
   * an ill-formed buffer raises.
   */
  method DecodeBuffer(buffer: array<byte>, str: array<byte>, legacy: bool) returns (r: Option<seq<seq<byte>>>)
    requires buffer != str
    modifies str
    ensures r == if Decode(buffer[..], str.Length).Some?
                 then Some(Kept(Decode(buffer[..], str.Length).value, legacy)) else None
  {
    ghost var bytes := buffer[..];
    ghost var raw: seq<seq<byte>> := [];
    var got: seq<seq<byte>> := [];
    var position := 0;
    DecodedAtStart(bytes, str.Length);
    while true
      invariant buffer[..] == bytes
      invariant DecodedUpTo(bytes, str.Length, position, raw)
      invariant got == Kept(raw, legacy)
      decreases buffer.Length - position
    {
      DecodedEnd(bytes, str.Length, position, raw);
      if buffer.Length - position < 4 {
        return None;
      }
      assert buffer[position..position + 4] == bytes[position..position + 4];
      var offset := ReadLe32(buffer[position..position + 4]);
      if offset == TERM_BUFFER_MARK {
        return Some(got);
      }
      if str.Length < offset || buffer.Length - position - 4 < offset {
        return None;
      }
      var s := CopyOut(buffer, position + 4, offset, str);
      DecodedStep(bytes, str.Length, position, raw, offset, s, position + 4 + offset);
      KeptAppend(raw, [s], legacy);
      raw := raw + [s];
      got := got + Kept([s], legacy);
      position := position + 4 + offset;
    }
  }

  // ---------------------------------------------------------------------
  // getWords: call until the handle is NULL
  // ---------------------------------------------------------------------

  /** A run of strings in front of an outcome. */
  function Then(got: seq<seq<byte>>, o: Outcome): Outcome {
    match o
    case Words(more) => Words(got + more)
    case Hangs => Hangs
  }

  /** What a getWords loop answers for an outcome of the protocol. */
  function Answer(o: Outcome, legacy: bool): Outcome {
    match o
    case Words(ws) => Words(Kept(ws, legacy))
    case Hangs => Hangs
  }

  /** One round of getWords: the strings of the fill from `start`, then the
      rounds from the handle it returns. */
  lemma GetWordsRound(file: seq<byte>, vec: seq<nat>, start: nat, size: nat, ctx: nat, wordLen: nat, legacy: bool)
    requires start <= |vec| && FitsU32(ctx, wordLen)
    ensures var fill := Fill(file, vec, start, 0, size, ctx, wordLen);
      var got := Kept(UpToEmpty(fill.frames), legacy);
      Answer(GetWordsFrom(file, vec, start, size, ctx, wordLen), legacy) ==
        match fill.next
        case None => Words(got)
        case Some(j) =>
          if j == start then Hangs
          else Then(got, Answer(GetWordsFrom(file, vec, j, size, ctx, wordLen), legacy))
  {
    var fill := Fill(file, vec, start, 0, size, ctx, wordLen);
    if fill.next.Some? && fill.next.value != start {
      var j := fill.next.value;
      match GetWordsFrom(file, vec, j, size, ctx, wordLen)
      case Words(more) =>
        KeptAppend(UpToEmpty(fill.frames), more, legacy);
      case Hangs =>
    }
  }

  lemma ThenNothing(o: Outcome)
    ensures Then([], o) == o
  {
    if o.Words? {
      assert [] + o.strings == o.strings;
    }
  }

  lemma ThenThen(a: seq<seq<byte>>, b: seq<seq<byte>>, o: Outcome)
    ensures Then(a, Then(b, o)) == Then(a + b, o)
  {
    if o.Words? {
      assert a + (b + o.strings) == (a + b) + o.strings;
    }
  }

  /** The getWords loop invariant: the outcome of the whole call is the
      strings collected so far, then the rounds from `start` on. */
  ghost predicate Collecting(whole: Outcome, results: seq<seq<byte>>, file: seq<byte>, vec: seq<nat>, start: nat,
                             size: nat, ctx: nat, wordLen: nat, legacy: bool)
  {
    start <= |vec| && FitsU32(ctx, wordLen) &&
    whole == Then(results, Answer(GetWordsFrom(file, vec, start, size, ctx, wordLen), legacy))
  }

  /** The getWords loop invariant across one round: the strings of the
      fill join those already collected, and the rounds left are those from
      the handle the fill returns. */
  lemma RoundStep(file: seq<byte>, vec: seq<nat>, start: nat, size: nat, ctx: nat, wordLen: nat, legacy: bool,
                  results: seq<seq<byte>>, strings: seq<seq<byte>>, whole: Outcome)
    requires Collecting(whole, results, file, vec, start, size, ctx, wordLen, legacy)
    requires strings == Kept(UpToEmpty(Fill(file, vec, start, 0, size, ctx, wordLen).frames), legacy)
    ensures var next := Fill(file, vec, start, 0, size, ctx, wordLen).next;
      match next
      case None => whole == Words(results + strings)
      case Some(j) =>
        if j == start then whole == Hangs
        else Collecting(whole, results + strings, file, vec, j, size, ctx, wordLen, legacy)
  {
    var fill := Fill(file, vec, start, 0, size, ctx, wordLen);
    GetWordsRound(file, vec, start, size, ctx, wordLen, legacy);
    match fill.next
    case None =>
      assert results + strings + [] == results + strings;
      ThenThen(results, strings, Words([]));
    case Some(j) =>
      ThenThen(results, strings, Answer(GetWordsFrom(file, vec, j, size, ctx, wordLen), legacy));
  }

  /** One native call and the decode loop after it: the strings kept from
      the fill at `start`. */
  method QueryRound(index: WordIndex, buffer: array<byte>, str: array<byte>, word: seq<byte>, ctx: nat,
                    handle: Option<PosVecIter>, ghost vec: seq<nat>, start: nat, legacy: bool,
                    ghost results: seq<seq<byte>>, ghost whole: Outcome)
    returns (cont: Option<PosVecIter>, strings: seq<seq<byte>>)
    requires index.Valid() && 4 <= buffer.Length && FitsU32(ctx, |word|)
    requires Collecting(whole, results, index.file, vec, start, buffer.Length, ctx, |word|, legacy)
    requires buffer != str && str.Length == 2 * ctx + |word|
    requires vec == QueryPositions(index.table, word)
    requires handle.None? ==> start == 0
    requires handle.Some? ==> handle.value.vec == vec && handle.value.index == start && start <= |vec|
    modifies buffer, str, if handle.Some? then {handle.value} else {}
    ensures start <= |vec|
    ensures var fill := Fill(index.file, vec, start, 0, buffer.Length, ctx, |word|);
      strings == Kept(UpToEmpty(fill.frames), legacy) && (cont.Some? <==> fill.next.Some?) &&
      (cont.Some? ==> cont.value.vec == vec && cont.value.index == fill.next.value)
    ensures cont.Some? ==> (handle.Some? && cont.value == handle.value) || (handle.None? && fresh(cont.value))
    ensures cont.None? ==> whole == Words(results + strings)
    ensures cont.Some? && cont.value.index == start ==> whole == Hangs
    ensures cont.Some? && cont.value.index != start ==>
      Collecting(whole, results + strings, index.file, vec, cont.value.index, buffer.Length, ctx, |word|, legacy)
  {
    cont := CallNative(index, buffer, word, ctx, handle, vec, start);
    ghost var fill := Fill(index.file, vec, start, 0, buffer.Length, ctx, |word|);
    FillWithin(index.file, vec, start, 0, buffer.Length, ctx, |word|);
    ghost var f := Filled(fill.frames);
    assert buffer[..] == f + buffer[|f|..];
    DecodeFilledAny(fill.frames, buffer[|f|..], str.Length);
    var decoded := DecodeBuffer(buffer, str, legacy);
    strings := decoded.value;
    RoundStep(index.file, vec, start, buffer.Length, ctx, |word|, legacy, results, strings, whole);
  }

  /**
   * The getWords loop shared by all front-ends: call the native query
   * into one buffer of `capacity` bytes, decode it, and repeat while the
   * handle is not NULL. Where the source's do/while would repeat one call
   * forever (a call handed back the index it started from, so the next
   * call is identical), the model stops with Hangs.
   */
  method CollectWords(index: WordIndex, word: seq<byte>, ctx: nat, capacity: nat, legacy: bool)
    returns (out: Outcome)
    requires index.Valid() && 4 <= capacity && FitsU32(ctx, |word|)
    ensures out == Answer(GetWordsFrom(index.file, QueryPositions(index.table, word), 0, capacity, ctx, |word|), legacy)
  {
    ghost var vec := QueryPositions(index.table, word);
    ghost var whole := Answer(GetWordsFrom(index.file, vec, 0, capacity, ctx, |word|), legacy);
    var str := new byte[2 * ctx + |word|];
    var buffer := new byte[capacity];
    var handle: Option<PosVecIter> := None;
    var start := 0;
    var results: seq<seq<byte>> := [];
    ThenNothing(whole);
    while true
      invariant handle.None? ==> start == 0
      invariant handle.Some? ==> handle.value.vec == vec && handle.value.index == start && fresh(handle.value)
      invariant Collecting(whole, results, index.file, vec, start, capacity, ctx, |word|, legacy)
      decreases |vec| - start
    {
      var cont, strings := QueryRound(index, buffer, str, word, ctx, handle, vec, start, legacy, results, whole);
      results := results + strings;
      if cont.None? {
        return Words(results);
      }
      if cont.value.index == start {
        return Hangs;
      }
      start := cont.value.index;
      handle := cont;
    }
  }
}
