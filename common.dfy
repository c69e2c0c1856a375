/**
 * Shared vocabulary of the word index: bytes, optional values, the character
 * classes both the C and the Java code rely on, the normalization rule
 * ("cut at the first break character, then lowercase") and the
 * little-endian u32 used by the frame protocol.
 *
 * Text is modelled as bytes. The character classes are the ASCII meaning of
 * Java's Character.isWhitespace / isLetterOrDigit / toLowerCase and of C's
 * ispunct / tolower in the "C" locale; bytes above 127 belong to no class
 * and are left unchanged by lowercasing.
 */
module Common {

  newtype byte = x: int | 0 <= x < 256

  datatype Option<T> = None | Some(value: T)

  const U32_LIMIT: nat := 0x1_0000_0000

  // ---------------------------------------------------------------------
  // Character classes
  // ---------------------------------------------------------------------

  /** Java's Character.isWhitespace on a Latin-1 code unit below 128:
      TAB, LF, VT, FF, CR, the four information separators and SPACE. */
  predicate IsJavaWhitespace(c: byte) {
    (9 <= c <= 13) || (28 <= c <= 32)
  }

  /** C's ispunct in the "C" locale: printable, not alphanumeric, not space. */
  predicate IsCPunct(c: byte) {
    (33 <= c <= 47) || (58 <= c <= 64) || (91 <= c <= 96) || (123 <= c <= 126)
  }

  /** Java's Character.isLetterOrDigit restricted to ASCII. */
  predicate IsLetterOrDigit(c: byte) {
    ('0' as byte <= c <= '9' as byte) || ('A' as byte <= c <= 'Z' as byte) || ('a' as byte <= c <= 'z' as byte)
  }

  predicate IsUpper(c: byte) {
    'A' as byte <= c <= 'Z' as byte
  }

  /** tolower / Character.toLowerCase on ASCII. */
  function ToLower(c: byte): (r: byte)
    ensures !IsUpper(r)
    ensures IsUpper(c) ==> r == c + 32
    ensures !IsUpper(c) ==> r == c
  {
    if IsUpper(c) then c + 32 else c
  }

  function LowerAll(s: seq<byte>): (r: seq<byte>)
    ensures |r| == |s|
  {
    if s == [] then [] else [ToLower(s[0])] + LowerAll(s[1..])
  }

  /** LowerAll lowercases every byte in place. */
  lemma {:induction false} LowerAllAt(s: seq<byte>)
    ensures forall i :: 0 <= i < |s| ==> LowerAll(s)[i] == ToLower(s[i])
  {
    if s != [] {
      LowerAllAt(s[1..]);
      assert forall i :: 1 <= i < |s| ==> LowerAll(s)[i] == LowerAll(s[1..])[i - 1];
    }
  }

  /** The lowercasing loop both normalizers run over a C string: every byte
      before the terminator at `length` goes through tolower. */
  method LowercaseInPlace(word: array<byte>, length: nat)
    requires length < word.Length && word[length] == 0 && 0 !in word[..length]
    modifies word
    ensures word[..length] == LowerAll(old(word[..length]))
    ensures word[length..] == old(word[length..])
  {
    ghost var src := word[..];
    LowerAllAt(src[..length]);
    var d := 0;
    while word[d] != 0
      invariant 0 <= d <= length
      invariant forall j :: 0 <= j < d ==> word[j] == ToLower(src[j])
      invariant forall j :: d <= j < word.Length ==> word[j] == src[j]
      invariant forall j :: d <= j < length ==> word[j] != 0
      decreases length - d
    {
      word[d] := ToLower(word[d]);
      d := d + 1;
    }
  }

  predicate IsLowered(s: seq<byte>) {
    forall i :: 0 <= i < |s| ==> !IsUpper(s[i])
  }

  // ---------------------------------------------------------------------
  // Normalization: cut at the first break character, lowercase the rest
  // ---------------------------------------------------------------------

  /** Where a normalizer stops: C's ispunct or the terminator, any byte of
      a given set (a delimiter row, an analyzer's break characters), or any
      byte that is not a letter or digit (the older Java normalize). */
  datatype BreakRule = NulOrPunct | AnyOf(chars: seq<byte>) | NotLetterOrDigit

  /** The rule of strlen and strncpy: stop at the terminator only. */
  const AtNul: BreakRule := AnyOf([0])

  predicate IsBreak(rule: BreakRule, c: byte) {
    match rule
    case NulOrPunct => c == 0 || IsCPunct(c)
    case AnyOf(chars) => c in chars
    case NotLetterOrDigit => !IsLetterOrDigit(c)
  }

  /** Index of the first byte of s for which brk holds, or |s| if none. */
  function BreakIndex(s: seq<byte>, brk: BreakRule): (i: nat)
    ensures i <= |s|
    ensures i < |s| ==> IsBreak(brk, s[i])
  {
    if s == [] then 0
    else if IsBreak(brk, s[0]) then 0
    else 1 + BreakIndex(s[1..], brk)
  }

  /** No byte before the break index is a break character, so the index is
      the first one. */
  lemma {:induction false} BreakIndexIsFirst(s: seq<byte>, brk: BreakRule)
    ensures forall j :: 0 <= j < BreakIndex(s, brk) ==> !IsBreak(brk, s[j])
  {
    if s != [] && !IsBreak(brk, s[0]) {
      BreakIndexIsFirst(s[1..], brk);
      forall j | 1 <= j < BreakIndex(s, brk) ensures !IsBreak(brk, s[j]) {
        assert s[j] == s[1..][j - 1];
      }
    }
  }

  /** A break predicate that does not care about letter case. */
  ghost predicate CaseBlind(brk: BreakRule) {
    forall c: byte :: IsBreak(brk, ToLower(c)) == IsBreak(brk, c)
  }

  /** The shared normalization rule: the prefix before the first break
      character (the whole word if there is none), lowercased. */
  function Normalize(s: seq<byte>, brk: BreakRule): (r: seq<byte>)
    ensures |r| <= |s|
    ensures |r| < |s| ==> IsBreak(brk, s[|r|])
  {
    LowerAll(s[..BreakIndex(s, brk)])
  }

  /** The normalized word is the lowercased run of non-break bytes at the
      start of s, and it holds no uppercase letter. */
  lemma NormalizeSpec(s: seq<byte>, brk: BreakRule)
    ensures IsLowered(Normalize(s, brk))
    ensures forall i :: 0 <= i < |Normalize(s, brk)| ==> !IsBreak(brk, s[i]) && Normalize(s, brk)[i] == ToLower(s[i])
  {
    BreakIndexIsFirst(s, brk);
    LowerAllAt(s[..BreakIndex(s, brk)]);
  }

  lemma NormalizeHasNoBreak(s: seq<byte>, brk: BreakRule)
    requires CaseBlind(brk)
    ensures forall i :: 0 <= i < |Normalize(s, brk)| ==> !IsBreak(brk, Normalize(s, brk)[i])
  {
    var r := Normalize(s, brk);
    NormalizeSpec(s, brk);
    forall i | 0 <= i < |r| ensures !IsBreak(brk, r[i]) {
      assert IsBreak(brk, ToLower(s[i])) == IsBreak(brk, s[i]);
    }
  }

  /** Normalizing twice is normalizing once, for any case-blind break rule. */
  lemma NormalizeIdempotent(s: seq<byte>, brk: BreakRule)
    requires CaseBlind(brk)
    ensures Normalize(Normalize(s, brk), brk) == Normalize(s, brk)
  {
    var r := Normalize(s, brk);
    NormalizeHasNoBreak(s, brk);
    NormalizeSpec(s, brk);
    BreakIndexIsFirst(r, brk);
    assert BreakIndex(r, brk) == |r|;
    assert r[..|r|] == r;
    LowerAllAt(r);
    forall i | 0 <= i < |r| ensures ToLower(r[i]) == r[i] {
    }
  }

  /** A trailing break character (such as a C string's terminator) does not
      change the normalization. */
  lemma NormalizeIgnoresTrailingBreak(s: seq<byte>, x: byte, brk: BreakRule)
    requires IsBreak(brk, x)
    ensures Normalize(s + [x], brk) == Normalize(s, brk)
  {
    var k := BreakIndex(s, brk);
    var k' := BreakIndex(s + [x], brk);
    BreakIndexIsFirst(s, brk);
    BreakIndexIsFirst(s + [x], brk);
    assert forall j :: 0 <= j < |s| ==> (s + [x])[j] == s[j];
    assert IsBreak(brk, (s + [x])[k]);
    assert forall j :: 0 <= j < k ==> !IsBreak(brk, (s + [x])[j]);
    assert (s + [x])[..k] == s[..k];
  }

  // ---------------------------------------------------------------------
  // Little-endian u32
  // ---------------------------------------------------------------------

  /** The four bytes write_u32 stores, least significant first. */
  function Le32(v: nat): (b: seq<byte>)
    requires v < U32_LIMIT
    ensures |b| == 4
  {
    [(v % 256) as byte, ((v / 256) % 256) as byte,
     ((v / 65536) % 256) as byte, (v / 16777216) as byte]
  }

  /** The u32 that `write_u32` writes, read back in little-endian (native
      x86) order. Java's ByteBuffer.getInt gives the same value below 2^31
      and a negative one from 2^31 on, which the model does not follow. */
  function ReadLe32(b: seq<byte>): (v: nat)
    requires |b| >= 4
    ensures v < U32_LIMIT
  {
    b[0] as nat + 256 * (b[1] as nat) + 65536 * (b[2] as nat) + 16777216 * (b[3] as nat)
  }

  lemma Le32RoundTrip(v: nat)
    requires v < U32_LIMIT
    ensures ReadLe32(Le32(v)) == v
  {
    var b := Le32(v);
    var q1 := v / 256;
    var q2 := q1 / 256;
    assert v == v % 256 + 256 * q1;
    assert q1 == q1 % 256 + 256 * q2;
    assert q2 == q2 % 256 + 256 * (q2 / 256);
    assert v / 65536 == q2;
    assert v / 16777216 == q2 / 256;
  }

  /** Only the zero value encodes to four zero bytes: a frame length can
      never be confused with the terminator unless it is itself zero. */
  lemma Le32ZeroIff(v: nat)
    requires v < U32_LIMIT
    ensures ReadLe32(Le32(v)) == 0 <==> v == 0
  {
    Le32RoundTrip(v);
  }
}
