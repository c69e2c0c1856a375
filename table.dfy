/**
 * The native position index as values: a separately chained hash table of
 * entries (word, sdbm hash, position vector), the chain walk of
 * store_word with its strncmp comparison, the rehash that doubles the
 * table, compaction of the bucket heads, and the lookup of a query word.
 *
 * A chain is a sequence of entries in link order; the table is a sequence
 * of chains indexed by hash % capacity.
 */
module HashTable {
  import opened Common
  import opened CUtils

  datatype Entry = Entry(word: seq<byte>, hash: nat, positions: PosVecValue)

  type Table = seq<seq<Entry>>

  /** p is a prefix of s. strncmp(a, b, n) == 0 on C strings compares at
      most n bytes, so it only tests prefixes. */
  predicate IsPrefix(p: seq<byte>, s: seq<byte>) {
    |p| <= |s| && s[..|p|] == p
  }

  /** An entry as alloc_entry_chain builds it and pos_vec_add keeps it. */
  predicate EntryOk(e: Entry) {
    e.hash == Sdbm(e.word) && e.positions.Valid() && 0 < |e.positions.elems|
  }

  /**
   * A chain as store_word builds it: every entry well formed, and no entry
   * whose word is a prefix of an earlier entry's word (store_word would have
   * appended to the earlier one instead). In particular no word occurs twice.
   */
  predicate ChainOk(c: seq<Entry>) {
    (forall k :: 0 <= k < |c| ==> EntryOk(c[k])) &&
    (forall i, j :: 0 <= i < j < |c| ==> !IsPrefix(c[j].word, c[i].word))
  }

  /** Every chain well formed and every entry in the bucket of its hash. */
  predicate TableOk(t: Table) {
    0 < |t| &&
    (forall b :: 0 <= b < |t| ==> ChainOk(t[b])) &&
    (forall b, k :: 0 <= b < |t| && 0 <= k < |t[b]| ==> t[b][k].hash % |t| == b)
  }

  function EmptyTable(n: nat): (t: Table)
    ensures |t| == n
  {
    seq(n, _ => [])
  }

  /** All entries, bucket by bucket, each chain in link order. */
  function Flatten(t: Table): seq<Entry> {
    if t == [] then [] else Flatten(t[..|t| - 1]) + t[|t| - 1]
  }

  /** The positions recorded for word w among the entries es. */
  function PosOf(es: seq<Entry>, w: seq<byte>): seq<nat> {
    if es == [] then []
    else (if es[0].word == w then es[0].positions.elems else []) + PosOf(es[1..], w)
  }

  /** The positions the table records for word w. */
  function Positions(t: Table, w: seq<byte>): seq<nat> {
    PosOf(Flatten(t), w)
  }

  // ---------------------------------------------------------------------
  // store_word
  // ---------------------------------------------------------------------

  /** The entry store_word's do/while loop stops at: the first one for which
      strncmp(entry->word, word, len) == 0, i.e. whose word starts with the
      new word. */
  function FirstMatch(c: seq<Entry>, word: seq<byte>): (r: Option<nat>)
    ensures r.Some? ==> r.value < |c| && IsPrefix(word, c[r.value].word)
  {
    if c == [] then None
    else if IsPrefix(word, c[0].word) then Some(0)
    else match FirstMatch(c[1..], word)
      case None => None
      case Some(i) => Some(i + 1)
  }

  /** No entry before the match (no entry at all, when there is none) starts
      with the word. */
  lemma {:induction false} FirstMatchIsFirst(c: seq<Entry>, word: seq<byte>)
    ensures FirstMatch(c, word).Some? ==> forall j :: 0 <= j < FirstMatch(c, word).value ==> !IsPrefix(word, c[j].word)
    ensures FirstMatch(c, word).None? ==> forall j :: 0 <= j < |c| ==> !IsPrefix(word, c[j].word)
  {
    if c != [] && !IsPrefix(word, c[0].word) {
      FirstMatchIsFirst(c[1..], word);
      assert forall j :: 1 <= j < |c| ==> c[j] == c[1..][j - 1];
    }
  }

  /** The chain walk of store_word's loop finds the first match: stopping at
      k with no match before it means FirstMatch is k (or none at the end). */
  lemma {:induction false} FirstMatchAt(c: seq<Entry>, word: seq<byte>, k: nat)
    requires k <= |c|
    requires forall j :: 0 <= j < k ==> !IsPrefix(word, c[j].word)
    requires k < |c| ==> IsPrefix(word, c[k].word)
    ensures FirstMatch(c, word) == if k < |c| then Some(k) else None
  {
    if c != [] && k > 0 {
      FirstMatchAt(c[1..], word, k - 1);
    }
  }

  /** The word whose position list receives a stored position. */
  function StoreTarget(c: seq<Entry>, word: seq<byte>): seq<byte> {
    match FirstMatch(c, word)
    case Some(i) => c[i].word
    case None => word
  }

  /** alloc_entry_chain */
  function NewEntry(word: seq<byte>, pos: nat): (e: Entry)
    ensures e.word == word && e.positions.elems == [pos]
  {
    Entry(word, Sdbm(word), VecInit(pos))
  }

  lemma NewEntryOk(word: seq<byte>, pos: nat)
    ensures EntryOk(NewEntry(word, pos))
  {
  }

  /** pos_vec_add on an entry's vector. */
  function AddPosition(e: Entry, pos: nat): Entry {
    e.(positions := VecAdd(e.positions, pos))
  }

  /** The chain walk of store_word: an empty bucket gets a new head; otherwise
      the first matching entry gets the position appended, and a chain without
      a match gets a new entry at its tail. */
  function StoreInChain(c: seq<Entry>, word: seq<byte>, pos: nat): (r: seq<Entry>)
  {
    if c == [] then [NewEntry(word, pos)]
    else if IsPrefix(word, c[0].word) then [AddPosition(c[0], pos)] + c[1..]
    else [c[0]] + StoreInChain(c[1..], word, pos)
  }

  /** The chain walk appends the position to the first matching entry, or
      links a new entry at the tail when no entry matches. */
  lemma {:induction false} StoreInChainShape(c: seq<Entry>, word: seq<byte>, pos: nat)
    ensures FirstMatch(c, word).Some? ==>
              StoreInChain(c, word, pos) == c[FirstMatch(c, word).value := AddPosition(c[FirstMatch(c, word).value], pos)]
    ensures FirstMatch(c, word).None? ==> StoreInChain(c, word, pos) == c + [NewEntry(word, pos)]
  {
    if c != [] && !IsPrefix(word, c[0].word) {
      StoreInChainShape(c[1..], word, pos);
      assert c == [c[0]] + c[1..];
    }
  }

  function Bucket(word: seq<byte>, n: nat): nat
    requires 0 < n
  {
    Sdbm(word) % n
  }

  function StoreInTable(t: Table, word: seq<byte>, pos: nat): (r: Table)
    requires 0 < |t|
    ensures |r| == |t|
  {
    t[Bucket(word, |t|) := StoreInChain(t[Bucket(word, |t|)], word, pos)]
  }

  // ---------------------------------------------------------------------
  // redistribute_hash_entries
  // ---------------------------------------------------------------------

  /** Link e at the tail of the chain of bucket e.hash % capacity. */
  function Place(t: Table, e: Entry): (r: Table)
    requires 0 < |t|
    ensures |r| == |t|
  {
    t[e.hash % |t| := t[e.hash % |t|] + [e]]
  }

  function PlaceAll(t: Table, es: seq<Entry>): (r: Table)
    requires 0 < |t|
    ensures |r| == |t|
  {
    if es == [] then t else Place(PlaceAll(t, es[..|es| - 1]), es[|es| - 1])
  }

  /** The rehash: a table twice as large, filled by walking the old buckets
      in order and each chain from its head, linking every entry at the tail
      of its new bucket. */
  function Rehash(t: Table): (r: Table)
    requires 0 < |t|
    ensures |r| == 2 * |t|
  {
    PlaceAll(EmptyTable(2 * |t|), Flatten(t))
  }

  /** The entries of es that fall in bucket b of an n-bucket table, in order. */
  function InBucket(es: seq<Entry>, n: nat, b: nat): (r: seq<Entry>)
    requires 0 < n
  {
    if es == [] then []
    else InBucket(es[..|es| - 1], n, b) + (if es[|es| - 1].hash % n == b then [es[|es| - 1]] else [])
  }

  /** The bucket's entries are entries of es that hash to b. */
  lemma {:induction false} InBucketMembers(es: seq<Entry>, n: nat, b: nat)
    requires 0 < n
    ensures forall k :: 0 <= k < |InBucket(es, n, b)| ==> InBucket(es, n, b)[k] in es && InBucket(es, n, b)[k].hash % n == b
  {
    if es != [] {
      InBucketMembers(es[..|es| - 1], n, b);
      assert forall e :: e in es[..|es| - 1] ==> e in es;
    }
  }

  // ---------------------------------------------------------------------
  // The index state and one store_word call
  // ---------------------------------------------------------------------

  datatype IndexState = IndexState(table: Table, wordCount: nat)

  /** The invariant of the index between calls: a well-formed table, the
      word count equal to the number of entries, and a load factor of at
      most 0.75. */
  predicate StateOk(s: IndexState) {
    TableOk(s.table) && s.wordCount == |Flatten(s.table)| && 4 * s.wordCount <= 3 * |s.table|
  }

  /** should_resize(count, cap) > 0.75, on integers. */
  predicate ShouldResize(count: nat, capacity: nat) {
    4 * count > 3 * capacity
  }

  /** store_word: the chain update, the word count, and a rehash once the
      load factor exceeds 0.75 against the capacity before the store. */
  function Store(s: IndexState, word: seq<byte>, pos: nat): IndexState
    requires 0 < |s.table|
  {
    var chain := s.table[Bucket(word, |s.table|)];
    var t := StoreInTable(s.table, word, pos);
    var count := s.wordCount + (if FirstMatch(chain, word).None? then 1 else 0);
    if ShouldResize(count, |s.table|) then IndexState(Rehash(t), count) else IndexState(t, count)
  }

  // ---------------------------------------------------------------------
  // Compaction
  // ---------------------------------------------------------------------

  /** do_compaction on one bucket: only the head's vector is shrunk. */
  function CompactHead(c: seq<Entry>): (r: seq<Entry>)
    ensures |r| == |c|
    ensures forall k :: 1 <= k < |c| ==> r[k] == c[k]
    ensures 0 < |c| ==> r[0] == c[0].(positions := PosVecValue(c[0].positions.elems, |c[0].positions.elems|))
  {
    if c == [] then [] else [c[0].(positions := PosVecValue(c[0].positions.elems, |c[0].positions.elems|))] + c[1..]
  }

  function Compact(t: Table): (r: Table)
    ensures |r| == |t| && forall b :: 0 <= b < |t| ==> r[b] == CompactHead(t[b])
  {
    seq(|t|, b requires 0 <= b < |t| => CompactHead(t[b]))
  }

  // ---------------------------------------------------------------------
  // Lookup of a query word
  // ---------------------------------------------------------------------

  /** The chain walk of the buffered query: the first entry for which
      strncmp(chain->word, word, chain->word_len) == 0, i.e. whose word is a
      prefix of the (normalized) query. */
  function LookupInChain(c: seq<Entry>, query: seq<byte>): (r: Option<Entry>)
    ensures r.Some? ==> r.value in c && IsPrefix(r.value.word, query)
    ensures r.None? ==> forall k :: 0 <= k < |c| ==> !IsPrefix(c[k].word, query)
  {
    if c == [] then None
    else if IsPrefix(c[0].word, query) then Some(c[0])
    else LookupInChain(c[1..], query)
  }

  function Lookup(t: Table, query: seq<byte>): Option<Entry>
    requires 0 < |t|
  {
    LookupInChain(t[Bucket(query, |t|)], query)
  }

  /** The lookup with whole-word equality. */
  function LookupExactInChain(c: seq<Entry>, query: seq<byte>): (r: Option<Entry>)
    ensures r.Some? ==> r.value in c && r.value.word == query
    ensures r.None? ==> forall k :: 0 <= k < |c| ==> c[k].word != query
  {
    if c == [] then None
    else if c[0].word == query then Some(c[0])
    else LookupExactInChain(c[1..], query)
  }

  function LookupExact(t: Table, query: seq<byte>): Option<Entry>
    requires 0 < |t|
  {
    LookupExactInChain(t[Bucket(query, |t|)], query)
  }

  // =====================================================================
  // Lemmas
  // =====================================================================

  lemma {:induction false} PosOfConcat(a: seq<Entry>, b: seq<Entry>, w: seq<byte>)
    ensures PosOf(a + b, w) == PosOf(a, w) + PosOf(b, w)
  {
    if a == [] {
      assert a + b == b;
    } else {
      assert (a + b)[1..] == a[1..] + b;
      PosOfConcat(a[1..], b, w);
    }
  }

  lemma {:induction false} PosOfAbsent(es: seq<Entry>, w: seq<byte>)
    requires forall k :: 0 <= k < |es| ==> es[k].word != w
    ensures PosOf(es, w) == []
  {
    if es != [] {
      PosOfAbsent(es[1..], w);
    }
  }

  /** In a well-formed table all positions of w live in w's bucket. */
  lemma {:induction false} PositionsInBucketUpTo(t: Table, k: nat, w: seq<byte>)
    requires TableOk(t)
    requires k <= |t|
    ensures PosOf(Flatten(t[..k]), w) == if Bucket(w, |t|) < k then PosOf(t[Bucket(w, |t|)], w) else []
  {
    if k > 0 {
      assert t[..k][..k - 1] == t[..k - 1];
      PositionsInBucketUpTo(t, k - 1, w);
      PosOfConcat(Flatten(t[..k - 1]), t[k - 1], w);
      if Bucket(w, |t|) != k - 1 {
        var c := t[k - 1];
        forall j | 0 <= j < |c| ensures c[j].word != w {
          assert EntryOk(c[j]);
        }
        PosOfAbsent(c, w);
      }
    }
  }

  lemma PositionsInBucket(t: Table, w: seq<byte>)
    requires TableOk(t)
    ensures Positions(t, w) == PosOf(t[Bucket(w, |t|)], w)
  {
    assert t[..|t|] == t;
    PositionsInBucketUpTo(t, |t|, w);
  }

  lemma {:induction false} FlattenUpdate(t: Table, b: nat, c: seq<Entry>)
    requires b < |t|
    ensures |Flatten(t[b := c])| + |t[b]| == |Flatten(t)| + |c|
    ensures multiset(Flatten(t[b := c])) + multiset(t[b]) == multiset(Flatten(t)) + multiset(c)
  {
    var u := t[b := c];
    var init := t[..|t| - 1];
    assert Flatten(t) == Flatten(init) + t[|t| - 1];
    assert Flatten(u) == Flatten(u[..|u| - 1]) + u[|u| - 1];
    if b == |t| - 1 {
      assert u[..|u| - 1] == init;
    } else {
      assert u[..|u| - 1] == init[b := c];
      assert init[b] == t[b];
      FlattenUpdate(init, b, c);
      var last := multiset(t[|t| - 1]);
      calc {
        multiset(Flatten(u)) + multiset(t[b]);
        multiset(Flatten(init[b := c])) + last + multiset(init[b]);
        multiset(Flatten(init[b := c])) + multiset(init[b]) + last;
        multiset(Flatten(init)) + multiset(c) + last;
        multiset(Flatten(t)) + multiset(c);
      }
    }
  }

  lemma {:induction false} FlattenEntriesOk(t: Table)
    requires forall b :: 0 <= b < |t| ==> ChainOk(t[b])
    ensures forall k :: 0 <= k < |Flatten(t)| ==> EntryOk(Flatten(t)[k])
  {
    if t != [] {
      FlattenEntriesOk(t[..|t| - 1]);
      assert ChainOk(t[|t| - 1]);
    }
  }

  // ---------------------------------------------------------------------
  // store_word lemmas
  // ---------------------------------------------------------------------

  /** A chain store keeps the chain well formed. */
  lemma StoreInChainOk(c: seq<Entry>, word: seq<byte>, pos: nat)
    requires ChainOk(c)
    ensures ChainOk(StoreInChain(c, word, pos))
  {
    var r := StoreInChain(c, word, pos);
    StoreInChainShape(c, word, pos);
    FirstMatchIsFirst(c, word);
    NewEntryOk(word, pos);
    match FirstMatch(c, word)
    case Some(i) =>
      VecAddKeepsValid(c[i].positions, pos);
      assert forall k :: 0 <= k < |r| ==> r[k].word == c[k].word;
    case None =>
      assert forall k :: 0 <= k < |c| ==> r[k] == c[k];
  }

  /** The chain store appends pos to exactly one word's positions: the
      word of the first matching entry, or the new word. */
  lemma {:induction false} StoreInChainPositions(c: seq<Entry>, word: seq<byte>, pos: nat, w: seq<byte>)
    requires ChainOk(c)
    ensures PosOf(StoreInChain(c, word, pos), w)
         == PosOf(c, w) + (if w == StoreTarget(c, word) then [pos] else [])
  {
    if c == [] {
      assert StoreInChain(c, word, pos) == [NewEntry(word, pos)];
    } else if IsPrefix(word, c[0].word) {
      HeadMatchPositions(c, word, pos, w);
    } else {
      ChainOkTail(c);
      StoreInChainPositions(c[1..], word, pos, w);
      TailStorePositions(c, word, pos, w);
      assert PosOf(c, w) == (if c[0].word == w then c[0].positions.elems else []) + PosOf(c[1..], w);
    }
  }

  lemma ChainOkTail(c: seq<Entry>)
    requires ChainOk(c) && c != []
    ensures ChainOk(c[1..])
  {
    var tail := c[1..];
    forall i, j | 0 <= i < j < |tail| ensures !IsPrefix(tail[j].word, tail[i].word) {
      assert tail[i] == c[i + 1] && tail[j] == c[j + 1];
    }
  }

  /** When the head does not match, the store happens in the rest of the
      chain and the head's positions stay in front. */
  lemma TailStorePositions(c: seq<Entry>, word: seq<byte>, pos: nat, w: seq<byte>)
    requires c != [] && !IsPrefix(word, c[0].word)
    ensures StoreTarget(c, word) == StoreTarget(c[1..], word)
    ensures PosOf(StoreInChain(c, word, pos), w)
         == (if c[0].word == w then c[0].positions.elems else []) + PosOf(StoreInChain(c[1..], word, pos), w)
  {
    var r := StoreInChain(c, word, pos);
    assert r == [c[0]] + StoreInChain(c[1..], word, pos);
    assert r[1..] == StoreInChain(c[1..], word, pos);
  }

  /** The store appends to the head when the head's word starts with the
      stored word; no later entry of a well-formed chain has that word. */
  lemma HeadMatchPositions(c: seq<Entry>, word: seq<byte>, pos: nat, w: seq<byte>)
    requires ChainOk(c) && c != [] && IsPrefix(word, c[0].word)
    ensures PosOf(StoreInChain(c, word, pos), w)
         == PosOf(c, w) + (if w == c[0].word then [pos] else [])
  {
    var r := StoreInChain(c, word, pos);
    assert r == [AddPosition(c[0], pos)] + c[1..];
    assert r[1..] == c[1..];
    var tail := c[1..];
    if w == c[0].word {
      forall k | 0 <= k < |tail| ensures tail[k].word != w {
        assert !IsPrefix(c[k + 1].word, c[0].word);
      }
      PosOfAbsent(tail, w);
    }
  }

  /** The number of entries grows by one exactly when no entry matched. */
  lemma StoreInTableCount(t: Table, word: seq<byte>, pos: nat)
    requires 0 < |t|
    ensures |Flatten(StoreInTable(t, word, pos))|
         == |Flatten(t)| + (if FirstMatch(t[Bucket(word, |t|)], word).None? then 1 else 0)
  {
    StoreInChainShape(t[Bucket(word, |t|)], word, pos);
    FlattenUpdate(t, Bucket(word, |t|), StoreInChain(t[Bucket(word, |t|)], word, pos));
  }

  lemma StoreInTableOk(t: Table, word: seq<byte>, pos: nat)
    requires TableOk(t)
    ensures TableOk(StoreInTable(t, word, pos))
  {
    var b: nat := Bucket(word, |t|);
    var r: Table := StoreInTable(t, word, pos);
    StoreInChainOk(t[b], word, pos);
    StoreInChainShape(t[b], word, pos);
    forall k: nat | k < |r[b]| ensures r[b][k].hash % |r| == b {
      match FirstMatch(t[b], word)
      case Some(i) =>
      case None =>
    }
  }

  /** store_word, seen through the positions it records: exactly one word's
      position list grows, by pos at its end, and every other list is
      unchanged. */
  lemma StoreInTablePositions(t: Table, word: seq<byte>, pos: nat, w: seq<byte>)
    requires TableOk(t)
    ensures Positions(StoreInTable(t, word, pos), w)
         == Positions(t, w) + (if w == StoreTarget(t[Bucket(word, |t|)], word) then [pos] else [])
  {
    var b := Bucket(word, |t|);
    var r := StoreInTable(t, word, pos);
    StoreInTableOk(t, word, pos);
    PositionsInBucket(t, w);
    PositionsInBucket(r, w);
    StoreInChainPositions(t[b], word, pos, w);
    match FirstMatch(t[b], word)
    case Some(i) =>
      assert EntryOk(t[b][i]) && t[b][i].hash % |t| == b;
      assert Bucket(StoreTarget(t[b], word), |t|) == b;
    case None =>
      assert Bucket(StoreTarget(t[b], word), |t|) == b;
  }

  // ---------------------------------------------------------------------
  // Rehash lemmas
  // ---------------------------------------------------------------------

  lemma {:induction false} PlaceAllBuckets(n: nat, es: seq<Entry>)
    requires 0 < n
    ensures forall b :: 0 <= b < n ==> PlaceAll(EmptyTable(n), es)[b] == InBucket(es, n, b)
  {
    if es != [] {
      PlaceAllBuckets(n, es[..|es| - 1]);
    }
  }

  /** Each new chain lists exactly the entries whose hash falls in it, in
      the order the old table is walked. */
  lemma RehashBuckets(t: Table)
    requires 0 < |t|
    ensures forall b :: 0 <= b < 2 * |t| ==> Rehash(t)[b] == InBucket(Flatten(t), 2 * |t|, b)
  {
    PlaceAllBuckets(2 * |t|, Flatten(t));
  }

  lemma {:induction false} PlaceAllCount(t: Table, es: seq<Entry>)
    requires 0 < |t|
    ensures |Flatten(PlaceAll(t, es))| == |Flatten(t)| + |es|
    ensures multiset(Flatten(PlaceAll(t, es))) == multiset(Flatten(t)) + multiset(es)
  {
    if es != [] {
      var init := es[..|es| - 1];
      var e := es[|es| - 1];
      PlaceAllCount(t, init);
      PlaceCount(PlaceAll(t, init), e);
      assert es == init + [e];
    }
  }

  /** Linking one entry adds exactly that entry. */
  lemma PlaceCount(u: Table, e: Entry)
    requires 0 < |u|
    ensures |Flatten(Place(u, e))| == |Flatten(u)| + 1
    ensures multiset(Flatten(Place(u, e))) == multiset(Flatten(u)) + multiset{e}
  {
    var h := e.hash % |u|;
    FlattenUpdate(u, h, u[h] + [e]);
    assert multiset(u[h] + [e]) == multiset(u[h]) + multiset{e};
    MultisetCancel(multiset(Flatten(Place(u, e))), multiset(Flatten(u)) + multiset{e}, multiset(u[h]));
  }

  lemma MultisetCancel<T>(a: multiset<T>, b: multiset<T>, x: multiset<T>)
    requires a + x == b + x
    ensures a == b
  {
    forall y ensures a[y] == b[y] {
      assert (a + x)[y] == (b + x)[y];
    }
  }

  lemma {:induction false} FlattenEmpty(n: nat)
    ensures Flatten(EmptyTable(n)) == []
  {
    if n > 0 {
      assert EmptyTable(n)[..n - 1] == EmptyTable(n - 1);
      FlattenEmpty(n - 1);
    }
  }

  /** The rehash loses and duplicates no entry. */
  lemma RehashKeepsEntries(t: Table)
    requires 0 < |t|
    ensures multiset(Flatten(Rehash(t))) == multiset(Flatten(t))
    ensures |Flatten(Rehash(t))| == |Flatten(t)|
  {
    PlaceAllCount(EmptyTable(2 * |t|), Flatten(t));
    FlattenEmpty(2 * |t|);
  }

  lemma ModDouble(h: nat, n: nat)
    requires 0 < n
    ensures (h % (2 * n)) % n == h % n
  {
    var q := h / (2 * n);
    var r := h % (2 * n);
    assert h == q * (2 * n) + r;
    if r < n {
      ModUnique(h, n, 2 * q, r);
      ModUnique(r, n, 0, r);
    } else {
      ModUnique(h, n, 2 * q + 1, r - n);
      ModUnique(r, n, 1, r - n);
    }
  }

  /** Euclidean division has one remainder. */
  lemma ModUnique(h: int, n: int, q: int, r: int)
    requires 0 < n && 0 <= r < n && h == q * n + r
    ensures h % n == r
  {
    var q' := h / n;
    var r' := h % n;
    assert h == q' * n + r';
    assert (q - q') * n == r' - r;
    if q > q' {
      MulAtLeast(q - q', n);
    } else if q < q' {
      MulAtLeast(q' - q, n);
    }
  }

  lemma MulAtLeast(a: int, n: int)
    requires 1 <= a && 0 < n
    ensures a * n >= n
  {
  }

  lemma {:induction false} InBucketConcat(a: seq<Entry>, b: seq<Entry>, n: nat, k: nat)
    requires 0 < n
    ensures InBucket(a + b, n, k) == InBucket(a, n, k) + InBucket(b, n, k)
    decreases |b|
  {
    if b != [] {
      assert (a + b)[..|a + b| - 1] == a + b[..|b| - 1];
      InBucketConcat(a, b[..|b| - 1], n, k);
    } else {
      assert a + b == a;
    }
  }

  lemma {:induction false} InBucketNone(es: seq<Entry>, n: nat, k: nat)
    requires 0 < n
    requires forall j :: 0 <= j < |es| ==> es[j].hash % n != k
    ensures InBucket(es, n, k) == []
  {
    if es != [] {
      InBucketNone(es[..|es| - 1], n, k);
    }
  }

  /** In a well-formed table, the entries that fall in new bucket b all come
      from old bucket b % capacity. */
  lemma {:induction false} InBucketFlattenUpTo(t: Table, k: nat, b: nat)
    requires TableOk(t)
    requires k <= |t|
    ensures InBucket(Flatten(t[..k]), 2 * |t|, b) == if b % |t| < k then InBucket(t[b % |t|], 2 * |t|, b) else []
  {
    if k > 0 {
      assert t[..k][..k - 1] == t[..k - 1];
      InBucketFlattenUpTo(t, k - 1, b);
      InBucketConcat(Flatten(t[..k - 1]), t[k - 1], 2 * |t|, b);
      if b % |t| != k - 1 {
        InBucketOtherChain(t[k - 1], |t|, k - 1, b);
      }
    }
  }

  /** A chain of old bucket home contributes nothing to a new bucket that
      does not come from home. */
  lemma InBucketOtherChain(c: seq<Entry>, n: nat, home: nat, b: nat)
    requires 0 < n
    requires forall j :: 0 <= j < |c| ==> c[j].hash % n == home
    requires b % n != home
    ensures InBucket(c, 2 * n, b) == []
  {
    forall j | 0 <= j < |c| ensures c[j].hash % (2 * n) != b {
      ModDouble(c[j].hash, n);
    }
    InBucketNone(c, 2 * n, b);
  }

  /** Selecting the entries of one bucket keeps a chain well formed. */
  lemma {:induction false} InBucketChainOk(c: seq<Entry>, n: nat, b: nat)
    requires 0 < n
    requires ChainOk(c)
    ensures ChainOk(InBucket(c, n, b))
  {
    if c != [] {
      var init := c[..|c| - 1];
      var e := c[|c| - 1];
      assert ChainOk(init);
      InBucketChainOk(init, n, b);
      var s := InBucket(init, n, b);
      InBucketMembers(init, n, b);
      forall x | x in s ensures !IsPrefix(e.word, x.word) {
        var i :| 0 <= i < |init| && init[i] == x;
      }
    }
  }

  lemma RehashOk(t: Table)
    requires TableOk(t)
    ensures TableOk(Rehash(t))
  {
    var r := Rehash(t);
    RehashBuckets(t);
    forall b | 0 <= b < |r| ensures ChainOk(r[b]) {
      assert t[..|t|] == t;
      InBucketFlattenUpTo(t, |t|, b);
      ModDouble(b, |t|);
      assert b % |t| < |t|;
      InBucketChainOk(t[b % |t|], 2 * |t|, b);
    }
    forall b | 0 <= b < |r| ensures forall k :: 0 <= k < |r[b]| ==> r[b][k].hash % |r| == b {
      InBucketMembers(Flatten(t), 2 * |t|, b);
    }
  }

  lemma {:induction false} PosOfInBucket(es: seq<Entry>, n: nat, w: seq<byte>)
    requires 0 < n
    requires forall k :: 0 <= k < |es| ==> EntryOk(es[k])
    ensures PosOf(InBucket(es, n, Bucket(w, n)), w) == PosOf(es, w)
  {
    if es != [] {
      var init := es[..|es| - 1];
      var e := es[|es| - 1];
      PosOfInBucket(init, n, w);
      PosOfConcat(init, [e], w);
      assert es == init + [e];
      if e.hash % n != Bucket(w, n) {
        assert e.word != w;
        PosOfConcat(InBucket(init, n, Bucket(w, n)), [], w);
        assert InBucket(init, n, Bucket(w, n)) + [] == InBucket(init, n, Bucket(w, n));
      } else {
        PosOfConcat(InBucket(init, n, Bucket(w, n)), [e], w);
      }
    }
  }

  /** The rehash keeps every word's position list exactly as it was. */
  lemma RehashKeepsPositions(t: Table, w: seq<byte>)
    requires TableOk(t)
    ensures Positions(Rehash(t), w) == Positions(t, w)
  {
    RehashOk(t);
    RehashBuckets(t);
    PositionsInBucket(Rehash(t), w);
    assert t[..|t|] == t;
    FlattenEntriesOk(t);
    PosOfInBucket(Flatten(t), 2 * |t|, w);
  }

  // ---------------------------------------------------------------------
  // The whole store
  // ---------------------------------------------------------------------

  /**
   * One store_word call keeps the index invariant (load factor at most 0.75
   * afterwards), counts a word exactly when a new entry was linked, doubles
   * the capacity exactly when the load factor was exceeded, and appends pos
   * to the position list of exactly one word.
   */
  lemma StoreKeepsInvariant(s: IndexState, word: seq<byte>, pos: nat)
    requires StateOk(s)
    ensures StateOk(Store(s, word, pos))
    ensures Store(s, word, pos).wordCount
         == s.wordCount + (if FirstMatch(s.table[Bucket(word, |s.table|)], word).None? then 1 else 0)
    ensures |Store(s, word, pos).table|
         == if ShouldResize(Store(s, word, pos).wordCount, |s.table|) then 2 * |s.table| else |s.table|
  {
    var t := StoreInTable(s.table, word, pos);
    StoreInTableOk(s.table, word, pos);
    StoreInTableCount(s.table, word, pos);
    if ShouldResize(Store(s, word, pos).wordCount, |s.table|) {
      RehashOk(t);
      RehashKeepsEntries(t);
    }
  }

  lemma StorePositions(s: IndexState, word: seq<byte>, pos: nat, w: seq<byte>)
    requires StateOk(s)
    ensures Positions(Store(s, word, pos).table, w)
         == Positions(s.table, w) + (if w == StoreTarget(s.table[Bucket(word, |s.table|)], word) then [pos] else [])
  {
    var t := StoreInTable(s.table, word, pos);
    StoreInTablePositions(s.table, word, pos, w);
    if ShouldResize(Store(s, word, pos).wordCount, |s.table|) {
      StoreInTableOk(s.table, word, pos);
      RehashKeepsPositions(t, w);
    }
  }

  /** An index opened with a positive capacity starts valid and empty. */
  lemma EmptyStateOk(n: nat)
    requires 0 < n
    ensures StateOk(IndexState(EmptyTable(n), 0))
  {
    FlattenEmpty(n);
  }

  // ---------------------------------------------------------------------
  // Compaction lemmas
  // ---------------------------------------------------------------------

  lemma {:induction false} CompactFlattenLength(t: Table)
    ensures |Flatten(Compact(t))| == |Flatten(t)|
  {
    if t != [] {
      assert Compact(t)[..|t| - 1] == Compact(t[..|t| - 1]);
      CompactFlattenLength(t[..|t| - 1]);
    }
  }

  /** Compaction changes only capacities: the invariant, the entry count and
      every word's position list are kept. */
  lemma CompactKeepsIndex(s: IndexState, w: seq<byte>)
    requires StateOk(s)
    ensures StateOk(IndexState(Compact(s.table), s.wordCount))
    ensures Positions(Compact(s.table), w) == Positions(s.table, w)
  {
    var r := Compact(s.table);
    forall b | 0 <= b < |r| ensures ChainOk(r[b]) {
      CompactHeadOk(s.table[b]);
    }
    forall b, k | 0 <= b < |r| && 0 <= k < |r[b]| ensures r[b][k].hash % |r| == b {
      assert r[b][k].hash == s.table[b][k].hash;
    }
    CompactFlattenLength(s.table);
    PositionsInBucket(s.table, w);
    PositionsInBucket(r, w);
    CompactHeadPositions(s.table[Bucket(w, |r|)], w);
  }

  lemma CompactHeadOk(c: seq<Entry>)
    requires ChainOk(c)
    ensures ChainOk(CompactHead(c))
    ensures forall k :: 0 <= k < |c| ==> CompactHead(c)[k].word == c[k].word && CompactHead(c)[k].hash == c[k].hash
  {
    if 0 < |c| {
      assert EntryOk(c[0]);
    }
  }

  lemma CompactHeadPositions(c: seq<Entry>, w: seq<byte>)
    ensures PosOf(CompactHead(c), w) == PosOf(c, w)
  {
    if 0 < |c| {
      assert CompactHead(c)[1..] == c[1..];
    }
  }

  // ---------------------------------------------------------------------
  // Lookup lemmas
  // ---------------------------------------------------------------------

  lemma {:induction false} LookupExactInChainPositions(c: seq<Entry>, query: seq<byte>)
    requires ChainOk(c)
    ensures PosOf(c, query) == match LookupExactInChain(c, query)
                                case Some(e) => e.positions.elems
                                case None => []
  {
    if c != [] {
      if c[0].word == query {
        forall k | 0 <= k < |c[1..]| ensures c[1..][k].word != query {
          assert !IsPrefix(c[k + 1].word, c[0].word);
        }
        PosOfAbsent(c[1..], query);
      } else {
        assert ChainOk(c[1..]);
        LookupExactInChainPositions(c[1..], query);
      }
    }
  }

  /** The whole-word lookup returns exactly the positions recorded for the
      query, or nothing when none are. */
  lemma LookupExactFindsPositions(t: Table, query: seq<byte>)
    requires TableOk(t)
    ensures Positions(t, query) == match LookupExact(t, query)
                                   case Some(e) => e.positions.elems
                                   case None => []
  {
    PositionsInBucket(t, query);
    LookupExactInChainPositions(t[Bucket(query, |t|)], query);
  }

  /** The prefix comparison of the query walk: once a token that starts
      with punctuation has been stored as the empty word, the empty entry
      answers for every query word of its bucket. With 64 buckets, the
      word "aa" falls in bucket 0 together with the empty word, and its
      query returns the empty word's position instead of its own. */
  lemma EmptyWordShadowsQuery()
    ensures var s2 := Store(Store(IndexState(EmptyTable(64), 0), [], 0), [97, 97], 5);
            Lookup(s2.table, [97, 97]) == Some(NewEntry([], 0)) &&
            Positions(s2.table, [97, 97]) == [5]
  {
    var s0 := IndexState(EmptyTable(64), 0);
    var s1 := Store(s0, [], 0);
    var s2 := Store(s1, [97, 97], 5);
    StoreEmptyWord();
    StoreAaAfterEmpty();
    EmptyStateOk(64);
    StoreKeepsInvariant(s0, [], 0);
    StoreKeepsInvariant(s1, [97, 97], 5);
    PositionsInBucket(s2.table, [97, 97]);
    var c := s2.table[0];
    assert c[1..] == [NewEntry([97, 97], 5)];
    assert PosOf(c[1..], [97, 97]) == [5] + PosOf([], [97, 97]);
    assert IsPrefix([], [97, 97]);
  }

  lemma SdbmAa()
    ensures Sdbm([]) == 0 && Sdbm([97, 97]) == 6363200
  {
    var aa: seq<byte> := [97, 97];
    assert aa[..1] == [97];
    assert [97 as byte][..0] == [];
    assert Sdbm([97]) == SdbmStep(0, 97) == 97;
    assert SdbmStep(97, 97) == 6363200;
  }

  lemma StoreEmptyWord()
    ensures Store(IndexState(EmptyTable(64), 0), [], 0)
         == IndexState(EmptyTable(64)[0 := [NewEntry([], 0)]], 1)
  {
    SdbmAa();
    assert Bucket([], 64) == 0;
    assert FirstMatch([], []) == None;
  }

  lemma StoreAaAfterEmpty()
    ensures Store(IndexState(EmptyTable(64)[0 := [NewEntry([], 0)]], 1), [97, 97], 5).table[0]
         == [NewEntry([], 0), NewEntry([97, 97], 5)]
  {
    SdbmAa();
    var t := EmptyTable(64)[0 := [NewEntry([], 0)]];
    assert Bucket([97, 97], 64) == 0;
    assert !IsPrefix([97, 97], []);
    assert FirstMatch(t[0], [97, 97]) == None;
    assert !ShouldResize(2, 64);
  }

  // ---------------------------------------------------------------------
  // The comparisons and the copy of alloc_entry_chain, byte by byte
  // ---------------------------------------------------------------------

  /** strncmp(a, b, n) == 0 on two C strings whose contents (without NUL)
      are a and b: at most n bytes are compared, and the terminating NUL of
      the shorter string differs from the other string's next byte. */
  predicate StrnEq(a: seq<byte>, b: seq<byte>, n: nat)
    decreases n
  {
    n == 0 || (a == [] && b == []) ||
    (a != [] && b != [] && a[0] == b[0] && StrnEq(a[1..], b[1..], n - 1))
  }

  /** Both strncmp tests of the model are prefix tests: store_word's
      strncmp(entry, word, len) asks whether the entry starts with the word,
      the query's strncmp(entry, word, word_len) whether the query starts
      with the entry. */
  lemma {:induction false} StrnEqIsPrefix(a: seq<byte>, b: seq<byte>)
    ensures StrnEq(a, b, |b|) <==> IsPrefix(b, a)
    ensures StrnEq(a, b, |a|) <==> IsPrefix(a, b)
    decreases |a| + |b|
  {
    if a != [] && b != [] {
      StrnEqIsPrefix(a[1..], b[1..]);
      assert IsPrefix(b, a) <==> a[0] == b[0] && IsPrefix(b[1..], a[1..]) by {
        if |b| <= |a| {
          assert a[..|b|] == [a[0]] + a[1..][..|b| - 1];
          assert b == [b[0]] + b[1..];
        }
      }
      assert IsPrefix(a, b) <==> a[0] == b[0] && IsPrefix(a[1..], b[1..]) by {
        if |a| <= |b| {
          assert b[..|a|] == [b[0]] + b[1..][..|a| - 1];
          assert a == [a[0]] + a[1..];
        }
      }
    }
  }

  /** memccpy(dst, word, 1, len) as alloc_entry_chain calls it: the stop
      byte is sizeof(char), which is 1, so the copy ends right after the
      first byte 1 of the word; the rest of the calloc'd buffer stays NUL. */
  function MemccpyOne(word: seq<byte>): (r: seq<byte>)
    ensures IsPrefix(r, word)
    ensures 1 !in word ==> r == word
    ensures 1 in word ==> 0 < |r| && r[|r| - 1] == 1 && 1 !in r[..|r| - 1]
  {
    if word == [] then []
    else if word[0] == 1 then [1]
    else
      var r := [word[0]] + MemccpyOne(word[1..]);
      assert r[1..] == MemccpyOne(word[1..]);
      assert 1 in word ==> 1 in word[1..];
      assert 1 in word[1..] ==> r[..|r| - 1] == [word[0]] + MemccpyOne(word[1..])[..|r| - 2];
      r
  }

  /** As written, a word holding the byte 1 before its last byte is cut
      short in its entry while word_len keeps the full length, so neither
      comparison of the word with its own entry succeeds (StrnEqIsPrefix):
      the query never finds the word, and each later occurrence links
      another entry for it. */
  lemma OneByteCutsEntry(word: seq<byte>)
    requires 0 < |word| && 1 in word[..|word| - 1]
    ensures |MemccpyOne(word)| < |word|
    ensures !StrnEq(MemccpyOne(word), word, |word|)
  {
    var r := MemccpyOne(word);
    var i :| 0 <= i < |word| - 1 && word[i] == 1;
    assert forall j :: 0 <= j < |r| - 1 ==> r[..|r| - 1][j] == r[j];
    if |r| == |word| {
      assert false;
    }
    StrnEqIsPrefix(r, word);
  }

  /** The file bytes 61 01 62 ("a", 1, "b"): the entry holds "a", 1 only. */
  lemma OneByteWordIsLost()
    ensures MemccpyOne([97, 1, 98]) == [97, 1]
    ensures !StrnEq(MemccpyOne([97, 1, 98]), [97, 1, 98], 3)
  {
    var w: seq<byte> := [97, 1, 98];
    assert w[1..] == [1, 98];
    assert w[..2][1] == 1;
    OneByteCutsEntry(w);
  }

  /** With the whole word copied (memcpy), as the model's NewEntry does,
      the word matches its own entry under both comparisons, and storing it
      again finds an entry instead of linking a new one. */
  lemma {:induction false} StoredWordMatchesAgain(c: seq<Entry>, word: seq<byte>, pos: nat, pos2: nat)
    ensures StrnEq(NewEntry(word, pos).word, word, |word|)
    ensures FirstMatch(StoreInChain(c, word, pos), word).Some?
    ensures |StoreInChain(StoreInChain(c, word, pos), word, pos2)| == |StoreInChain(c, word, pos)|
  {
    StrnEqIsPrefix(word, word);
    var c1 := StoreInChain(c, word, pos);
    StoreInChainShape(c, word, pos);
    FirstMatchIsFirst(c1, word);
    StoreInChainShape(c1, word, pos2);
    match FirstMatch(c, word)
    case Some(i) =>
      assert c1[i].word == c[i].word;
      assert IsPrefix(word, c1[i].word);
    case None =>
      assert c1[|c|] == NewEntry(word, pos);
      assert IsPrefix(word, c1[|c|].word);
  }
}
