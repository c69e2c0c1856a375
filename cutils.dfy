/**
 * The native helpers shared by the index and the encoder: the little-endian
 * u32 writer, the sdbm string hash, the growable position vector and its
 * iterator, and the in-place word normalizer.
 */
module CUtils {
  import opened Common

  // ---------------------------------------------------------------------
  // write_u32
  // ---------------------------------------------------------------------

  /** write_u32: store value at bytes[at..at+4], least significant byte first. */
  method WriteU32(bytes: array<byte>, at: nat, value: nat)
    requires value < U32_LIMIT
    requires at + 4 <= bytes.Length
    modifies bytes
    ensures bytes[at..at + 4] == Le32(value)
    ensures bytes[..at] == old(bytes[..at])
    ensures bytes[at + 4..] == old(bytes[at + 4..])
  {
    bytes[at] := (value % 256) as byte;
    bytes[at + 1] := ((value / 256) % 256) as byte;
    bytes[at + 2] := ((value / 65536) % 256) as byte;
    bytes[at + 3] := (value / 16777216) as byte;
  }

  // ---------------------------------------------------------------------
  // hash: the sdbm fold over a C string, in uint32 arithmetic
  // ---------------------------------------------------------------------

  /** One step h := c + (h << 6) + (h << 16) - h, every operation taken
      modulo 2^32 as in uint32_t. */
  function SdbmStep(h: nat, c: byte): (r: nat)
    requires h < U32_LIMIT
    ensures r < U32_LIMIT
  {
    (c as int + (h * 64) % U32_LIMIT + (h * 65536) % U32_LIMIT - h) % U32_LIMIT
  }

  /** The sdbm hash of a word, as the left fold of SdbmStep from 0. */
  function Sdbm(s: seq<byte>): (h: nat)
    ensures h < U32_LIMIT
  {
    if s == [] then 0 else SdbmStep(Sdbm(s[..|s| - 1]), s[|s| - 1])
  }

  /** The loop of hash(): consume bytes up to the first NUL. */
  function HashFrom(h: nat, s: seq<byte>): (r: nat)
    requires h < U32_LIMIT
    ensures r < U32_LIMIT
    decreases |s|
  {
    if s == [] || s[0] == 0 then h else HashFrom(SdbmStep(h, s[0]), s[1..])
  }

  /** hash(word): 0 for NULL, otherwise the fold over the C string. */
  function Hash(word: Option<seq<byte>>): (h: nat)
    ensures h < U32_LIMIT
  {
    match word
    case None => 0
    case Some(s) => HashFrom(0, s)
  }

  /** The C string held by a byte buffer: everything before the first NUL. */
  function CString(s: seq<byte>): (r: seq<byte>)
    ensures |r| <= |s| && r == s[..|r|]
    ensures |r| < |s| ==> s[|r|] == 0
  {
    s[..BreakIndex(s, AtNul)]
  }

  /** A C string holds no NUL byte. */
  lemma CStringHasNoNul(s: seq<byte>)
    ensures 0 !in CString(s)
  {
    BreakIndexIsFirst(s, AtNul);
  }

  lemma {:induction false} HashFromIsFold(acc: seq<byte>, s: seq<byte>)
    ensures HashFrom(Sdbm(acc), s) == Sdbm(acc + CString(s))
    decreases |s|
  {
    if s == [] || s[0] == 0 {
      assert acc + CString(s) == acc;
    } else {
      assert (acc + [s[0]])[..|acc|] == acc;
      HashFromIsFold(acc + [s[0]], s[1..]);
      assert CString(s) == [s[0]] + CString(s[1..]);
      assert acc + [s[0]] + CString(s[1..]) == acc + CString(s);
    }
  }

  /** hash() of a C string is the sdbm fold of the bytes before its NUL;
      bytes after the terminator never matter. */
  lemma HashIsSdbm(s: seq<byte>)
    ensures Hash(Some(s)) == Sdbm(CString(s))
    ensures Hash(None) == 0
  {
    HashFromIsFold([], s);
    assert [] + CString(s) == CString(s);
  }

  /** The shifts and subtraction of one step amount to the classic sdbm
      multiplier: h' = c + 65599 * h (mod 2^32). */
  lemma SdbmStepMultiplier(h: nat, c: byte)
    requires h < U32_LIMIT
    ensures SdbmStep(h, c) == (c as int + 65599 * h) % U32_LIMIT
  {
    var a := (h * 64) % U32_LIMIT;
    var b := (h * 65536) % U32_LIMIT;
    assert h * 64 == (h * 64) / U32_LIMIT * U32_LIMIT + a;
    assert h * 65536 == (h * 65536) / U32_LIMIT * U32_LIMIT + b;
    var k := (h * 64) / U32_LIMIT + (h * 65536) / U32_LIMIT;
    assert c as int + 65599 * h == (c as int + a + b - h) + k * U32_LIMIT;
    ModShift(c as int + a + b - h, k);
  }

  /** Adding whole multiples of 2^32 leaves the residue unchanged; a step
      of SdbmStepMultiplier. */
  lemma ModShift(x: int, k: int)
    ensures (x + k * U32_LIMIT) % U32_LIMIT == x % U32_LIMIT
  {
  }

  // ---------------------------------------------------------------------
  // pos_vec: a growable vector of file positions
  // ---------------------------------------------------------------------

  /** VEC_DEF_CAP */
  const VEC_DEF_CAP: nat := 8

  /** The value of a position vector: its elements and its capacity. */
  datatype PosVecValue = PosVecValue(elems: seq<nat>, capacity: nat)
  {
    predicate Valid() {
      0 < capacity && |elems| <= capacity
    }
  }

  /** pos_vec_init when the allocation succeeds. */
  function VecInit(initial: nat): (v: PosVecValue)
    ensures v.Valid() && v.elems == [initial] && v.capacity == VEC_DEF_CAP
  {
    PosVecValue([initial], VEC_DEF_CAP)
  }

  /** pos_vec_add when the (re)allocation succeeds: the position goes at
      the end, and the capacity doubles exactly when the vector was full. */
  function VecAdd(v: PosVecValue, position: nat): (r: PosVecValue)
  {
    PosVecValue(v.elems + [position], if |v.elems| == v.capacity then 2 * v.capacity else v.capacity)
  }

  /** Appending keeps the vector within its capacity, keeps every earlier
      element, and grows the capacity only when it was exhausted. */
  lemma VecAddKeepsValid(v: PosVecValue, position: nat)
    requires v.Valid()
    ensures VecAdd(v, position).Valid()
    ensures VecAdd(v, position).elems[..|v.elems|] == v.elems
    ensures VecAdd(v, position).elems[|v.elems|] == position
    ensures VecAdd(v, position).capacity > v.capacity <==> |v.elems| == v.capacity
  {
  }

  /**
   * struct pos_vec. The array stands for the malloc'd block; when a growth
   * fails the capacity field has already been doubled while the block keeps
   * its old size, which is why Valid() then no longer holds.
   */
  class PosVec {
    var capacity: nat
    var length: nat
    var arr: array<nat>

    ghost predicate Valid()
      reads this
    {
      arr.Length == capacity && 0 < capacity && length <= capacity
    }

    ghost function Value(): PosVecValue
      reads this, arr
      requires length <= arr.Length
    {
      PosVecValue(arr[..length], capacity)
    }

    /** pos_vec_init: length 1, capacity VEC_DEF_CAP and array[0] = initial,
        or length 0 (and no usable block) when malloc fails. */
    constructor Init(initial: nat, allocOk: bool)
      ensures capacity == VEC_DEF_CAP
      ensures allocOk ==> Valid() && Value() == VecInit(initial)
      ensures !allocOk ==> length == 0
      ensures fresh(arr)
    {
      capacity := VEC_DEF_CAP;
      length := 0;
      if allocOk {
        var block := new nat[VEC_DEF_CAP];
        block[0] := initial;
        arr := block;
        length := 1;
      } else {
        arr := new nat[0];
      }
    }

    /** pos_vec_add. A full vector first doubles its capacity field and then
        reallocates; when the reallocation fails it reports false and the
        elements are untouched. */
    method Add(position: nat, allocOk: bool) returns (ok: bool)
      requires Valid()
      modifies this, arr
      ensures ok <==> (old(length) < old(capacity) || allocOk)
      ensures ok ==> Valid() && Value() == VecAdd(old(Value()), position)
      ensures !ok ==> capacity == 2 * old(capacity) && length == old(length)
                      && arr == old(arr) && arr[..length] == old(arr[..length])
      ensures fresh(arr) || arr == old(arr)
    {
      if length == capacity {
        capacity := capacity * 2;
        if !allocOk {
          return false;
        }
        var grown := new nat[capacity];
        var i := 0;
        while i < length
          invariant 0 <= i <= length
          invariant grown[..i] == arr[..i]
          modifies grown
        {
          grown[i] := arr[i];
          i := i + 1;
        }
        arr := grown;
      }
      arr[length] := position;
      length := length + 1;
      return true;
    }
  }

  /** struct pos_vec_iter: the vector it walks and the index of the next
      position. The vector is not changed once indexing is over, so the
      iterator holds its elements. */
  class PosVecIter {
    const vec: seq<nat>
    var index: nat

    constructor (vec: seq<nat>)
      ensures this.vec == vec && index == 0
    {
      this.vec := vec;
      index := 0;
    }

    /** pos_vec_iter_has_next */
    predicate HasNext()
      reads this
    {
      index < |vec|
    }

    /** pos_vec_iter_next: the position at index, then index + 1. */
    method Next() returns (p: nat)
      requires HasNext()
      modifies this
      ensures p == vec[old(index)] && index == old(index) + 1
    {
      p := vec[index];
      index := index + 1;
    }
  }

  // ---------------------------------------------------------------------
  // normalize_word
  // ---------------------------------------------------------------------

  /**
   * normalize_word: overwrite the first ispunct character of the C string
   * with NUL, lowercase what precedes it and return its length, which is
   * the strlen of the result. Bytes past the new terminator are untouched.
   */
  method NormalizeWord(word: array<byte>) returns (length: nat)
    requires 0 in word[..]
    modifies word
    ensures length < word.Length && word[length] == 0
    ensures word[..length] == Normalize(old(word[..]), NulOrPunct)
    ensures 0 !in word[..length]
    ensures word[length + 1..] == old(word[length + 1..])
  {
    ghost var src := word[..];
    ghost var cut := BreakIndex(src, NulOrPunct);
    BreakIndexIsFirst(src, NulOrPunct);
    length := 0;
    while word[length] != 0
      invariant 0 <= length <= cut < word.Length
      invariant word[..] == src
      decreases cut - length
    {
      if IsCPunct(word[length]) {
        word[length] := 0;
        break;
      }
      length := length + 1;
    }
    assert length == cut;
    assert word[..length] == src[..cut];
    assert word[length + 1..] == src[length + 1..];
    LowercaseInPlace(word, length);
    assert word[length + 1..] == word[length..][1..];
    NormalizeSpec(src, NulOrPunct);
  }

  /** ispunct, the terminator and tolower do not interact, so normalizing
      a normalized word returns it unchanged (and with the same length). */
  lemma NormalizeWordIdempotent(s: seq<byte>)
    ensures Normalize(Normalize(s, NulOrPunct), NulOrPunct) == Normalize(s, NulOrPunct)
  {
    assert CaseBlind(NulOrPunct);
    NormalizeIdempotent(s, NulOrPunct);
  }
}
