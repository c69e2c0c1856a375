/**
 * The query protocol between the native index and its Java callers, as
 * pure functions: the context window read for one stored position, the
 * frames one encoder call writes into a bounded buffer, the sequence of
 * calls a caller makes until the continuation is NULL, and the Java decode
 * loop that turns a filled buffer back into strings.
 *
 * A buffer holds `[u32 LE length][bytes]` frames followed by a zero length,
 * the terminator (BUFF_TERM_MARK in the C code, TERM_BUFFER_MARK in Java).
 */
module Frames {
  import opened Common

  // ---------------------------------------------------------------------
  // Window arithmetic
  // ---------------------------------------------------------------------

  /** Context lengths and word lengths for which (ctx << 1) + word_len + 8,
      computed in uint32_t, does not wrap. */
  predicate FitsU32(ctx: nat, wordLen: nat) {
    2 * ctx + wordLen + 8 < U32_LIMIT
  }

  /** file_pos_with_context / POS_WITH_CTX: where the read for a word at pos
      starts. It never passes the word and starts at most ctx bytes before
      it, and only the start of the file can make it closer. */
  function PosWithContext(pos: nat, ctx: nat): (start: nat)
    ensures start <= pos && pos <= start + ctx
    ensures start + ctx == pos || start == 0
  {
    if pos <= ctx then 0 else pos - ctx
  }

  /** read_size in read_words_with_ctx: 2*ctx + word_len, shortened by the
      context missing before the start of the file. Wherever the read
      starts, it ends ctx bytes after the word. */
  function ReadSize(pos: nat, ctx: nat, wordLen: nat): (n: nat)
    ensures n <= 2 * ctx + wordLen
    ensures PosWithContext(pos, ctx) + n == pos + ctx + wordLen
  {
    if pos < ctx then 2 * ctx + wordLen - (ctx - pos) else 2 * ctx + wordLen
  }

  /** single_read_size: the room one worst-case frame plus a terminator needs. */
  function SingleReadSize(ctx: nat, wordLen: nat): (n: nat)
    ensures n == 2 * ctx + wordLen + 8
  {
    2 * ctx + wordLen + 4 + 4
  }

  function Min(a: nat, b: nat): nat {
    if a <= b then a else b
  }

  /** The bytes fseek + fread deliver for a word at pos: the read starts at
      PosWithContext and is cut short by the end of the file. */
  function Window(file: seq<byte>, pos: nat, ctx: nat, wordLen: nat): (w: seq<byte>)
    ensures |w| <= 2 * ctx + wordLen
    ensures w == file[Min(PosWithContext(pos, ctx), |file|)..Min(pos + ctx + wordLen, |file|)]
    ensures pos < |file| && 0 < ctx + wordLen ==> 0 < |w|
  {
    var start := PosWithContext(pos, ctx);
    file[Min(start, |file|)..Min(start + ReadSize(pos, ctx, wordLen), |file|)]
  }

  /** One window per position, in order. */
  function Windows(file: seq<byte>, ps: seq<nat>, ctx: nat, wordLen: nat): (ws: seq<seq<byte>>)
    ensures |ws| == |ps|
  {
    if ps == [] then [] else [Window(file, ps[0], ctx, wordLen)] + Windows(file, ps[1..], ctx, wordLen)
  }

  lemma {:induction false} WindowsAt(file: seq<byte>, ps: seq<nat>, ctx: nat, wordLen: nat)
    ensures forall k :: 0 <= k < |ps| ==> Windows(file, ps, ctx, wordLen)[k] == Window(file, ps[k], ctx, wordLen)
  {
    if ps != [] {
      WindowsAt(file, ps[1..], ctx, wordLen);
    }
  }

  lemma {:induction false} WindowsAppend(file: seq<byte>, ps: seq<nat>, qs: seq<nat>, ctx: nat, wordLen: nat)
    ensures Windows(file, ps + qs, ctx, wordLen) == Windows(file, ps, ctx, wordLen) + Windows(file, qs, ctx, wordLen)
  {
    if ps == [] {
      assert ps + qs == qs;
    } else {
      assert (ps + qs)[1..] == ps[1..] + qs;
      WindowsAppend(file, ps[1..], qs, ctx, wordLen);
    }
  }

  // ---------------------------------------------------------------------
  // Frames
  // ---------------------------------------------------------------------

  predicate FramesFit(frames: seq<seq<byte>>) {
    forall k :: 0 <= k < |frames| ==> |frames[k]| < U32_LIMIT
  }

  /** The bytes of a run of frames, without the terminator. */
  function Serialize(frames: seq<seq<byte>>): (bytes: seq<byte>)
    requires FramesFit(frames)
  {
    if frames == [] then [] else Le32(|frames[0]|) + frames[0] + Serialize(frames[1..])
  }

  /** Writing one more frame extends the bytes written so far. */
  lemma SerializeAppend(frames: seq<seq<byte>>, f: seq<byte>)
    requires FramesFit(frames) && |f| < U32_LIMIT
    ensures FramesFit(frames + [f])
    ensures Serialize(frames + [f]) == Serialize(frames) + Le32(|f|) + f
  {
    FramesFitAppend(frames, f);
    SerializeSnoc(frames, f);
  }

  /** One more frame that fits keeps the run fitting; a step of
      SerializeAppend. */
  lemma FramesFitAppend(frames: seq<seq<byte>>, f: seq<byte>)
    requires FramesFit(frames) && |f| < U32_LIMIT
    ensures FramesFit(frames + [f])
  {
    var g := frames + [f];
    forall k | 0 <= k < |g| ensures |g[k]| < U32_LIMIT {
      if k < |frames| {
        assert g[k] == frames[k];
      }
    }
  }

  lemma {:induction false} SerializeSnoc(frames: seq<seq<byte>>, f: seq<byte>)
    requires FramesFit(frames) && FramesFit(frames + [f]) && |f| < U32_LIMIT
    ensures Serialize(frames + [f]) == Serialize(frames) + Le32(|f|) + f
  {
    var g := frames + [f];
    if frames == [] {
      assert g == [f] && g[1..] == [];
    } else {
      assert g[0] == frames[0] && g[1..] == frames[1..] + [f];
      assert FramesFit(frames[1..]) && FramesFit(frames[1..] + [f]);
      SerializeSnoc(frames[1..], f);
    }
  }

  /** What one encoder call writes: its frames and then the terminator. */
  function Filled(frames: seq<seq<byte>>): (bytes: seq<byte>)
    requires FramesFit(frames)
  {
    Serialize(frames) + Le32(0)
  }

  // ---------------------------------------------------------------------
  // One encoder call: read_words_with_ctx as a function
  // ---------------------------------------------------------------------

  /** The frames written by one call and the position index it hands back
      (None stands for the NULL that means "all positions written"). */
  datatype FillResult = FillResult(frames: seq<seq<byte>>, next: Option<nat>)

  /** Where a fill stopped: the index returned, or the end of the vector. */
  function FillEnd(r: FillResult, vecLength: nat): nat {
    if r.next.Some? then r.next.value else vecLength
  }

  /**
   * The loop of read_words_with_ctx from position index i with `used` bytes
   * already written. A frame is written only while used + 2*ctx + word_len
   * + 8 <= size; the first position that does not fit is handed back
   * (the iterator is stepped back onto it), exhausting the vector yields
   * NULL. The frames are the windows of the positions consumed, in order,
   * and when the terminator itself fits at `used`, frames and terminator
   * never pass the end of the buffer.
   */
  function Fill(file: seq<byte>, vec: seq<nat>, i: nat, used: nat, size: nat, ctx: nat, wordLen: nat)
    : (r: FillResult)
    requires i <= |vec|
    requires FitsU32(ctx, wordLen)
    ensures FramesFit(r.frames)
    ensures r.next.Some? ==> i <= r.next.value < |vec|
    decreases |vec| - i
  {
    if i == |vec| then FillResult([], None)
    else if used + SingleReadSize(ctx, wordLen) > size then FillResult([], Some(i))
    else
      var w := Window(file, vec[i], ctx, wordLen);
      var rest := Fill(file, vec, i + 1, used + |w| + 4, size, ctx, wordLen);
      assert forall k :: 1 <= k < 1 + |rest.frames| ==> ([w] + rest.frames)[k] == rest.frames[k - 1];
      FillResult([w] + rest.frames, rest.next)
  }

  /** The frames of a fill are the windows of the positions it consumed, one
      per position and in order, up to the index it hands back. */
  lemma {:induction false} FillWindows(file: seq<byte>, vec: seq<nat>, i: nat, used: nat, size: nat, ctx: nat, wordLen: nat)
    requires i <= |vec|
    requires FitsU32(ctx, wordLen)
    ensures var r := Fill(file, vec, i, used, size, ctx, wordLen);
      |r.frames| == FillEnd(r, |vec|) - i &&
      r.frames == Windows(file, vec[i..FillEnd(r, |vec|)], ctx, wordLen)
    decreases |vec| - i
  {
    var r := Fill(file, vec, i, used, size, ctx, wordLen);
    if i == |vec| || used + SingleReadSize(ctx, wordLen) > size {
      assert vec[i..i] == [];
    } else {
      var w := Window(file, vec[i], ctx, wordLen);
      var rest := Fill(file, vec, i + 1, used + |w| + 4, size, ctx, wordLen);
      FillWindows(file, vec, i + 1, used + |w| + 4, size, ctx, wordLen);
      var ps := vec[i..FillEnd(rest, |vec|)];
      assert ps[0] == vec[i] && ps[1..] == vec[i + 1..FillEnd(rest, |vec|)];
    }
  }

  /** The room check keeps a fill inside the buffer: when the terminator fits
      at `used`, the frames and the terminator end by `size`, and a fill that
      writes anything had room for a worst-case frame. */
  lemma {:induction false} FillFits(file: seq<byte>, vec: seq<nat>, i: nat, used: nat, size: nat, ctx: nat, wordLen: nat)
    requires i <= |vec|
    requires FitsU32(ctx, wordLen)
    ensures var r := Fill(file, vec, i, used, size, ctx, wordLen);
      (used + 4 <= size ==> used + |Serialize(r.frames)| + 4 <= size) &&
      (r.frames != [] ==> used + SingleReadSize(ctx, wordLen) <= size)
    decreases |vec| - i
  {
    if i < |vec| && used + SingleReadSize(ctx, wordLen) <= size {
      var w := Window(file, vec[i], ctx, wordLen);
      var rest := Fill(file, vec, i + 1, used + |w| + 4, size, ctx, wordLen);
      FillFits(file, vec, i + 1, used + |w| + 4, size, ctx, wordLen);
      assert ([w] + rest.frames)[1..] == rest.frames;
    }
  }

  /** With a buffer below 2*ctx + word_len + 8 a call over remaining
      positions writes only the terminator and hands back the same index. */
  lemma FillNoProgress(file: seq<byte>, vec: seq<nat>, i: nat, size: nat, ctx: nat, wordLen: nat)
    requires i < |vec|
    requires FitsU32(ctx, wordLen)
    requires size < SingleReadSize(ctx, wordLen)
    ensures Fill(file, vec, i, 0, size, ctx, wordLen) == FillResult([], Some(i))
  {
  }

  /** With a buffer of at least 2*ctx + word_len + 8 every call over
      remaining positions writes at least one frame. */
  lemma FillProgress(file: seq<byte>, vec: seq<nat>, i: nat, size: nat, ctx: nat, wordLen: nat)
    requires i < |vec|
    requires FitsU32(ctx, wordLen)
    requires SingleReadSize(ctx, wordLen) <= size
    ensures FillEnd(Fill(file, vec, i, 0, size, ctx, wordLen), |vec|) > i
  {
  }

  /** A call whose buffer is exactly single_read_size writes at most one
      frame: after one frame the room check fails. */
  lemma FillSingle(file: seq<byte>, vec: seq<nat>, i: nat, ctx: nat, wordLen: nat)
    requires i <= |vec|
    requires FitsU32(ctx, wordLen)
    ensures |Fill(file, vec, i, 0, SingleReadSize(ctx, wordLen), ctx, wordLen).frames| <= 1
  {
    if i < |vec| && 0 < SingleReadSize(ctx, wordLen) {
      var w := Window(file, vec[i], ctx, wordLen);
      var rest := Fill(file, vec, i + 1, |w| + 4, SingleReadSize(ctx, wordLen), ctx, wordLen);
      assert rest.frames == [];
    }
  }

  // ---------------------------------------------------------------------
  // Repeated calls: getWords and the lazy iterator
  // ---------------------------------------------------------------------

  /** Positions whose windows cannot be empty: each lies inside the file and
      the window is at least one byte wide. */
  ghost predicate InFile(file: seq<byte>, ps: seq<nat>, ctx: nat, wordLen: nat) {
    0 < ctx + wordLen && forall k :: 0 <= k < |ps| ==> ps[k] < |file|
  }

  /** A slice of positions inside the file stays inside it; a step of
      SplitInFile. */
  lemma InFileSlice(file: seq<byte>, ps: seq<nat>, a: nat, b: nat, ctx: nat, wordLen: nat)
    requires a <= b <= |ps| && InFile(file, ps, ctx, wordLen)
    ensures InFile(file, ps[a..b], ctx, wordLen)
  {
    forall k | 0 <= k < b - a ensures ps[a..b][k] < |file| {
      assert ps[a..b][k] == ps[a + k];
    }
  }

  lemma {:induction false} InFileWindows(file: seq<byte>, ps: seq<nat>, ctx: nat, wordLen: nat)
    requires InFile(file, ps, ctx, wordLen) && FitsU32(ctx, wordLen)
    ensures NonEmptyFrames(Windows(file, ps, ctx, wordLen))
  {
    WindowsAt(file, ps, ctx, wordLen);
  }

  /** The strings a getWords loop collects, or Hangs when a call hands back
      the index it was given: the next call is then identical, and the
      do/while repeats it forever. */
  datatype Outcome = Words(strings: seq<seq<byte>>) | Hangs

  /** getWords from the call that starts at index i on: the strings decoded
      from every fill, until a call returns NULL. */
  function GetWordsFrom(file: seq<byte>, vec: seq<nat>, i: nat, size: nat, ctx: nat, wordLen: nat): (r: Outcome)
    requires i <= |vec|
    requires FitsU32(ctx, wordLen)
    decreases |vec| - i
  {
    var fill := Fill(file, vec, i, 0, size, ctx, wordLen);
    var got := UpToEmpty(fill.frames);
    match fill.next
    case None => Words(got)
    case Some(j) =>
      if j == i then Hangs
      else
        match GetWordsFrom(file, vec, j, size, ctx, wordLen)
        case Words(more) => Words(got + more)
        case Hangs => Hangs
  }

  /** A fill writes one frame per index it consumes. */
  lemma FillCount(file: seq<byte>, vec: seq<nat>, i: nat, size: nat, ctx: nat, wordLen: nat)
    requires i <= |vec|
    requires FitsU32(ctx, wordLen)
    ensures var r := Fill(file, vec, i, 0, size, ctx, wordLen);
      |r.frames| == FillEnd(r, |vec|) - i
  {
    FillWindows(file, vec, i, 0, size, ctx, wordLen);
  }

  /**
   * What the lazy iterator yields once its buffer is spent and the native
   * handle is h: nothing when h is NULL; otherwise one refill from h, and
   * when that refill's buffer starts with a string, its strings and what
   * follows its own handle. A refill without a first string ends the
   * iteration (hasNext answers false).
   */
  function Follow(file: seq<byte>, vec: seq<nat>, h: Option<nat>, size: nat, ctx: nat, wordLen: nat)
    : (ws: seq<seq<byte>>)
    requires h.Some? ==> h.value <= |vec|
    requires FitsU32(ctx, wordLen)
    decreases if h.Some? then |vec| - h.value + 1 else 0
  {
    match h
    case None => []
    case Some(j) =>
      var fill := Fill(file, vec, j, 0, size, ctx, wordLen);
      var got := UpToEmpty(fill.frames);
      if got == [] then []
      else
        FillCount(file, vec, j, size, ctx, wordLen);
        got + Follow(file, vec, fill.next, size, ctx, wordLen)
  }

  /** Everything the iterator yields: the strings of the fill its
      constructor makes, then what follows that fill's handle. */
  function IterYield(file: seq<byte>, vec: seq<nat>, size: nat, ctx: nat, wordLen: nat): (ws: seq<seq<byte>>)
    requires FitsU32(ctx, wordLen)
  {
    var fill := Fill(file, vec, 0, 0, size, ctx, wordLen);
    UpToEmpty(fill.frames) + Follow(file, vec, fill.next, size, ctx, wordLen)
  }

  /** One fill with room for a worst-case frame over positions inside the
      file: no frame is empty, at least one is written when any position
      is left, and the windows from i on are its frames followed by the
      windows from where it stopped. */
  lemma FillInFile(file: seq<byte>, vec: seq<nat>, i: nat, size: nat, ctx: nat, wordLen: nat)
    requires i <= |vec|
    requires FitsU32(ctx, wordLen) && InFile(file, vec[i..], ctx, wordLen)
    requires SingleReadSize(ctx, wordLen) <= size
    ensures var fill := Fill(file, vec, i, 0, size, ctx, wordLen);
      var e := FillEnd(fill, |vec|);
      UpToEmpty(fill.frames) == fill.frames &&
      (i < |vec| ==> i < e) &&
      InFile(file, vec[e..], ctx, wordLen) &&
      Windows(file, vec[i..], ctx, wordLen) == fill.frames + Windows(file, vec[e..], ctx, wordLen)
  {
    var fill := Fill(file, vec, i, 0, size, ctx, wordLen);
    FillWindows(file, vec, i, 0, size, ctx, wordLen);
    var e := FillEnd(fill, |vec|);
    if i < |vec| {
      FillProgress(file, vec, i, size, ctx, wordLen);
    }
    SplitInFile(file, vec, i, e, ctx, wordLen);
    InFileWindows(file, vec[i..e], ctx, wordLen);
    UpToEmptyAll(fill.frames);
  }

  /** Cutting the positions from i at e: both parts lie in the file and
      their windows make up the windows from i. */
  lemma SplitInFile(file: seq<byte>, vec: seq<nat>, i: nat, e: nat, ctx: nat, wordLen: nat)
    requires i <= e <= |vec| && InFile(file, vec[i..], ctx, wordLen)
    ensures InFile(file, vec[i..e], ctx, wordLen) && InFile(file, vec[e..], ctx, wordLen)
    ensures Windows(file, vec[i..], ctx, wordLen) == Windows(file, vec[i..e], ctx, wordLen) + Windows(file, vec[e..], ctx, wordLen)
  {
    assert vec[i..] == vec[i..e] + vec[e..];
    WindowsAppend(file, vec[i..e], vec[e..], ctx, wordLen);
    InFileSlice(file, vec[i..], 0, e - i, ctx, wordLen);
    assert vec[i..][0..e - i] == vec[i..e];
    InFileSlice(file, vec[i..], e - i, |vec| - i, ctx, wordLen);
    assert vec[i..][e - i..|vec| - i] == vec[e..];
  }

  /** Headline property of the protocol: for any buffer of at least
      2*ctx + word_len + 8 bytes, getWords yields one string per stored
      position from i on, each the position's window, in stored order. */
  lemma {:induction false} GetWordsYieldsWindows(file: seq<byte>, vec: seq<nat>, i: nat, size: nat, ctx: nat, wordLen: nat)
    requires i <= |vec|
    requires FitsU32(ctx, wordLen) && InFile(file, vec[i..], ctx, wordLen)
    requires SingleReadSize(ctx, wordLen) <= size
    ensures GetWordsFrom(file, vec, i, size, ctx, wordLen) == Words(Windows(file, vec[i..], ctx, wordLen))
    decreases |vec| - i
  {
    var fill := Fill(file, vec, i, 0, size, ctx, wordLen);
    FillInFile(file, vec, i, size, ctx, wordLen);
    match fill.next
    case None =>
      assert vec[|vec|..] == [];
    case Some(j) =>
      GetWordsYieldsWindows(file, vec, j, size, ctx, wordLen);
  }

  /** Below that size, getWords with positions left never returns. */
  lemma GetWordsHangsBelow(file: seq<byte>, vec: seq<nat>, i: nat, size: nat, ctx: nat, wordLen: nat)
    requires i < |vec|
    requires FitsU32(ctx, wordLen)
    requires size < SingleReadSize(ctx, wordLen)
    ensures GetWordsFrom(file, vec, i, size, ctx, wordLen) == Hangs
  {
    FillNoProgress(file, vec, i, size, ctx, wordLen);
  }

  /** A word without positions (an unknown word) yields nothing either way. */
  lemma NoPositionsNoWords(file: seq<byte>, size: nat, ctx: nat, wordLen: nat)
    requires FitsU32(ctx, wordLen)
    ensures GetWordsFrom(file, [], 0, size, ctx, wordLen) == Words([])
    ensures IterYield(file, [], size, ctx, wordLen) == []
  {
  }

  /** With room for a worst-case frame, what follows handle j is the
      windows from j on. */
  lemma {:induction false} FollowWindows(file: seq<byte>, vec: seq<nat>, j: nat, size: nat, ctx: nat, wordLen: nat)
    requires j < |vec|
    requires FitsU32(ctx, wordLen) && InFile(file, vec[j..], ctx, wordLen)
    requires SingleReadSize(ctx, wordLen) <= size
    ensures Follow(file, vec, Some(j), size, ctx, wordLen) == Windows(file, vec[j..], ctx, wordLen)
    decreases |vec| - j
  {
    var fill := Fill(file, vec, j, 0, size, ctx, wordLen);
    FillInFile(file, vec, j, size, ctx, wordLen);
    FillCount(file, vec, j, size, ctx, wordLen);
    assert fill.frames != [];
    match fill.next
    case None =>
      assert vec[|vec|..] == [];
    case Some(k) =>
      FollowWindows(file, vec, k, size, ctx, wordLen);
  }

  /** The iterator yields the same strings as getWords when the buffer has
      room for a worst-case frame: every window, in stored order. */
  lemma IterYieldsWindows(file: seq<byte>, vec: seq<nat>, size: nat, ctx: nat, wordLen: nat)
    requires FitsU32(ctx, wordLen) && InFile(file, vec, ctx, wordLen)
    requires SingleReadSize(ctx, wordLen) <= size
    ensures IterYield(file, vec, size, ctx, wordLen) == Windows(file, vec, ctx, wordLen)
    ensures GetWordsFrom(file, vec, 0, size, ctx, wordLen) == Words(IterYield(file, vec, size, ctx, wordLen))
  {
    assert vec[0..] == vec;
    GetWordsYieldsWindows(file, vec, 0, size, ctx, wordLen);
    var fill := Fill(file, vec, 0, 0, size, ctx, wordLen);
    FillInFile(file, vec, 0, size, ctx, wordLen);
    match fill.next
    case None =>
      assert vec[|vec|..] == [];
    case Some(k) =>
      FollowWindows(file, vec, k, size, ctx, wordLen);
  }

  /** Below that size the iterator yields nothing, where getWords hangs. */
  lemma IterYieldsNothingBelow(file: seq<byte>, vec: seq<nat>, size: nat, ctx: nat, wordLen: nat)
    requires FitsU32(ctx, wordLen)
    requires size < SingleReadSize(ctx, wordLen)
    ensures IterYield(file, vec, size, ctx, wordLen) == []
  {
    if vec != [] {
      FillNoProgress(file, vec, 0, size, ctx, wordLen);
    }
  }

  // ---------------------------------------------------------------------
  // The Java decode loop
  // ---------------------------------------------------------------------

  /**
   * Decoding one filled buffer: read a length with getInt; zero ends the
   * fill, anything else is followed by exactly that many bytes, which
   * become one string. The bytes are copied through an array of `cap`
   * bytes. None stands for the exceptions the loop can raise: reading past
   * the end of the buffer (BufferUnderflowException) or a length beyond the
   * copy array (ArrayIndexOutOfBoundsException). Lengths are read
   * unsigned, as the encoder writes them.
   */
  function Decode(bytes: seq<byte>, cap: nat): (r: Option<seq<seq<byte>>>)
    decreases |bytes|
  {
    if |bytes| < 4 then None
    else
      var n := ReadLe32(bytes[..4]);
      if n == 0 then Some([])
      else if cap < n || |bytes| < 4 + n then None
      else
        match Decode(bytes[4 + n..], cap)
        case None => None
        case Some(rest) => Some([bytes[4..4 + n]] + rest)
  }

  /** Frames no longer than the copy array. */
  predicate FramesWithin(frames: seq<seq<byte>>, cap: nat) {
    forall k :: 0 <= k < |frames| ==> |frames[k]| <= cap
  }

  /** Every frame of a fill is at most 2*ctx + word_len bytes long. */
  lemma FillWithin(file: seq<byte>, vec: seq<nat>, i: nat, used: nat, size: nat, ctx: nat, wordLen: nat)
    requires i <= |vec|
    requires FitsU32(ctx, wordLen)
    ensures FramesWithin(Fill(file, vec, i, used, size, ctx, wordLen).frames, 2 * ctx + wordLen)
  {
    var r := Fill(file, vec, i, used, size, ctx, wordLen);
    FillWindows(file, vec, i, used, size, ctx, wordLen);
    WindowsAt(file, vec[i..FillEnd(r, |vec|)], ctx, wordLen);
  }

  predicate NonEmptyFrames(frames: seq<seq<byte>>) {
    forall k :: 0 <= k < |frames| ==> 0 < |frames[k]| < U32_LIMIT
  }

  /** A zero length ends decoding, whatever follows it. */
  lemma DecodeTerminator(more: seq<byte>, cap: nat)
    ensures Decode(Le32(0) + more, cap) == Some([])
  {
    Le32RoundTrip(0);
    assert (Le32(0) + more)[..4] == Le32(0);
  }

  /** A non-empty frame in front of more bytes decodes to its bytes, in
      front of what the rest decodes to. */
  lemma DecodeFrame(f: seq<byte>, more: seq<byte>, cap: nat)
    requires 0 < |f| < U32_LIMIT && |f| <= cap
    ensures Decode(Le32(|f|) + f + more, cap) == if Decode(more, cap).Some? then Some([f] + Decode(more, cap).value) else None
  {
    var bytes := Le32(|f|) + f + more;
    Le32RoundTrip(|f|);
    assert bytes[..4] == Le32(|f|);
    assert bytes[4..4 + |f|] == f;
    assert bytes[4 + |f|..] == more;
  }

  /** The strings a decode loop gets out of one fill: the frames before
      the first empty one, whose zero length reads as the terminator. */
  function UpToEmpty(frames: seq<seq<byte>>): (got: seq<seq<byte>>)
    ensures |got| <= |frames|
  {
    if frames == [] || frames[0] == [] then [] else [frames[0]] + UpToEmpty(frames[1..])
  }

  /** UpToEmpty is the longest prefix without an empty frame. */
  lemma {:induction false} UpToEmptyIsPrefix(frames: seq<seq<byte>>)
    ensures var got := UpToEmpty(frames);
      got == frames[..|got|] && (|got| < |frames| ==> frames[|got|] == []) &&
      forall k :: 0 <= k < |got| ==> got[k] != []
  {
    if frames != [] && frames[0] != [] {
      UpToEmptyIsPrefix(frames[1..]);
      var rest := UpToEmpty(frames[1..]);
      assert forall k :: 1 <= k < 1 + |rest| ==> UpToEmpty(frames)[k] == rest[k - 1];
    }
  }

  /** Without empty frames nothing is lost. */
  lemma {:induction false} UpToEmptyAll(frames: seq<seq<byte>>)
    requires NonEmptyFrames(frames)
    ensures UpToEmpty(frames) == frames
  {
    if frames != [] {
      assert frames[0] == frames[..1][0];
      UpToEmptyAll(frames[1..]);
    }
  }

  /** Decoding what the encoder wrote gives back its frames up to the first
      empty one, whatever lies in the buffer after the terminator. */
  lemma {:induction false} DecodeFilledAny(frames: seq<seq<byte>>, tail: seq<byte>, cap: nat)
    requires FramesFit(frames) && FramesWithin(frames, cap)
    ensures Decode(Filled(frames) + tail, cap) == Some(UpToEmpty(frames))
  {
    if frames == [] {
      DecodeTerminator(tail, cap);
    } else {
      var f := frames[0];
      var more := Filled(frames[1..]) + tail;
      FilledCons(frames, tail);
      if f == [] {
        DecodeTerminator(more, cap);
      } else {
        assert FramesWithin(frames[1..], cap);
        DecodeFilledAny(frames[1..], tail, cap);
        DecodeFrame(f, more, cap);
      }
    }
  }

  /** The bytes of a fill start with its first frame. */
  lemma FilledCons(frames: seq<seq<byte>>, tail: seq<byte>)
    requires FramesFit(frames) && frames != []
    ensures FramesFit(frames[1..])
    ensures Filled(frames) + tail == Le32(|frames[0]|) + frames[0] + (Filled(frames[1..]) + tail)
  {
    assert FramesFit(frames[1..]);
  }

  /** Decoding what the encoder wrote gives back exactly its frames when no
      frame is empty. */
  lemma DecodeFilled(frames: seq<seq<byte>>, tail: seq<byte>, cap: nat)
    requires NonEmptyFrames(frames) && FramesWithin(frames, cap)
    ensures Decode(Filled(frames) + tail, cap) == Some(frames)
  {
    DecodeFilledAny(frames, tail, cap);
    UpToEmptyAll(frames);
  }
}
