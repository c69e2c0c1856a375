# Word index with context: a Dafny model

The system indexes a text file. It maps every normalized word to the byte offsets where the word occurs. It then answers queries of the form "every occurrence of this word, with N bytes of context on each side". The same algorithm exists three times:

- **Native index (C).** A separately chained hash table is keyed by the sdbm hash of the normalized word. Each entry holds a growable position vector. The table doubles and rehashes once its load factor passes 0.75. Indexing tokenizes fixed-size reads of the file on `" \r\n"`. Queries run a bounded-buffer encoder that writes frames of `[u32 little-endian length][bytes]` into the caller's buffer, ends them with a 0 terminator, and returns a continuation handle while positions remain.
- **Java front-ends of the native index.** JNIWordIndex, JNAWordIndex and FFMWordIndex allocate a direct buffer, call the encoder until the handle is NULL, and decode the frames (`getWords`). They also hand the frames out lazily through an iterator that refills the same buffer. NativeWordIndex is an older variant with a decoder and an iterator of its own.
- **Pure-Java index.** Files are read line by line. Each line is split into whitespace-separated tokens, and each token is normalized by cutting at the first break character and lowercasing. The index maps each word to a WordEntry holding its positions. A query reads each context window back from the file.

## How the model is organised

| module (file) | what it models |
|---|---|
| `Common` (common.dfy) | bytes, lowercasing, the shared normalize, little-endian u32 |
| `Analyzers` (analyzers.dfy) | `analyzers.c`, EnglishAnalyzer, WhitespaceTextAnalyzer |
| `CUtils` (cutils.dfy) | `utils.c`: `write_u32`, `hash`, `pos_vec`, its iterator, `normalize_word` |
| `HashTable` (table.dfy) | the table as values: chains, store, rehash, compaction, lookup |
| `Indexing` (indexing.dfy) | `do_indexing`'s chunked `strtok` scan |
| `LineTokenizer`, `LineTokenizerExamples` (linetokenizer.dfy) | the three LineWordTokenizers |
| `BufferedTokenizer` (bufferedtokenizer.dfy) | BufferedWordTokenizer and its carry-over |
| `Frames` (frames.dfy) | the frame protocol as functions: windows, fills, decoding, the repeated-call protocol |
| `NativeIndex` (windex.dfy) | the native index as a class whose `table` field is a sequence of chains (`seq<seq<Entry>>`), the rehash building its new buckets in an `array<seq<Entry>>`, and the encoder writing into an `array<byte>` |
| `Frontends` (frontends.dfy) | constructor checks, buffer capacity, the decode loop and the `getWords` loop |
| `Iterators` (iterators.dfy) | the shared NativeWordContextIterator and the NativeWordIndex iterator |
| `JavaLines` (javalines.dfy) | `RandomAccessFile.readLine` and what line-based indexing stores |
| `JavaIndex` (javaindex.dfy) | both JavaWordIndex classes, WordEntry, and the file reads of a query |

The state-changing code is modelled as classes:

- the hash table (`NativeIndex.WordIndex`);
- `pos_vec` and its iterator;
- BufferedWordTokenizer;
- the result iterators;
- WordEntry;
- the Java index.

Each method is proved against a function of the old state. The functions carry the lemmas.

### Shared models

- **`windex.c` and `wordindex.c`** share one model of store, rehash, compaction, indexing and the encoder, and the rows cite `windex.c`. Where `wordindex.c` differs, the difference is a parameter:
  - its one-by-one limit is the `slack` parameter of `NativeIndex.WordIndex.ReadContextOneByOne`;
  - its `pos_vec_add` never reports failure, which is `CUtils.PosVec.Add` with `allocOk` true.
- **The three LineWordTokenizers** differ only in the break rule given to normalize. The shared `LineTokenizer` model takes the rule as a `BreakRule` parameter: the analyzer's break characters in org.nse, and any byte that is not a letter or digit in org.ns.
- **The JNI, JNA and FFM front-ends** differ on the query path only in buffer capacity. `Frontends.BufferCapacity` takes the binding as a parameter.

### Inputs and sentinels

I/O is modelled by parameters:

- the indexed file is a `seq<byte>`;
- "the path exists" and "the file can be opened" are booleans;
- an allocation that can fail takes an `allocOk` flag.

Where a source loop would repeat one native call forever, the model stops and returns an explicit `Hangs` outcome.

### Behaviours of the source, modelled as written

- **Native word comparison is a prefix test** (`strncmp` with the stored length). A query matches the first entry whose word is a prefix of it, so a stored empty word shadows every query in its bucket (`HashTable.EmptyWordShadowsQuery`). `HashTable.LookupExactFindsPositions` is the exact-match reference.
- **`do_indexing` resets `trunc_offset` after every read.** A word split across two reads is lost (`Indexing.SplitWordIsLost`).
- **A token made only of break characters is still stored**, with an empty word (`LineTokenizerExamples.DotLine`). BufferedWordTokenizer splits only on its own whitespace set, so a trailing tab stays in the stored word (`BufferedTokenizer.TrailingTabKept`).
- **Line-based indexing counts one byte per line terminator.** Positions after a `"\r\n"` are one byte early (`JavaLines.CrLfShiftsPositions`).
- **NativeWordIndex drops the last byte of every decoded string** (`Frontends.DropLast`).
- **The pure-Java iterators keep whole reads, while org.nse `getWords` clamps them to the window.** The two differ near the start of the file (`JavaIndex.FullReadVersusWindow`).

## Model

| member | source | states |
|---|---|---|
| Common.ToLower | native/src/utils.c:60 | `tolower` turns A-Z into a-z by adding 32, leaves every other byte as it is, and never yields an upper-case letter |
| Common.LowerAllAt | native/src/utils.c:60 | lowercasing a whole word lowercases each byte where it stands |
| Common.LowercaseInPlace | native/src/utils.c:60 | the lowercasing loop over a NUL-terminated buffer lowercases every byte before the terminator and leaves the terminator and everything after it untouched |
| Common.BreakIndex | src/main/java/org/nse/thesis/wordindex/pojo/JavaWordIndex.java:67-72 | the scan for a break character stops inside the word, and when it stops early it stops on a break character |
| Common.BreakIndexIsFirst | src/main/java/org/nse/thesis/wordindex/pojo/JavaWordIndex.java:67-72 | no byte before the stop position is a break character, so the cut is at the first one |
| Common.Normalize | src/main/java/org/nse/thesis/wordindex/pojo/JavaWordIndex.java:65-78 | the normalized word is never longer than the input, and when shorter the input holds a break character right where it ends |
| Common.NormalizeSpec | src/main/java/org/nse/thesis/wordindex/pojo/JavaWordIndex.java:65-78 | the normalized word is all lower case and is, byte for byte, the lowercase of the input's run of non-break bytes |
| Common.NormalizeHasNoBreak | src/main/java/org/nse/thesis/wordindex/pojo/JavaWordIndex.java:65-78 | under a break rule that ignores case, a normalized word contains no break character |
| Common.NormalizeIdempotent | src/main/java/org/nse/thesis/wordindex/pojo/JavaWordIndex.java:65-78 | under a break rule that ignores case, normalizing a normalized word changes nothing |
| Common.NormalizeIgnoresTrailingBreak | native/src/analyzers.c:29-30 | a break byte appended to the input (such as the NUL that ends a C string) does not change the normalized word |
| Common.Le32 | native/src/utils.c:5-10 | `write_u32` produces exactly four bytes |
| Common.ReadLe32 | src/main/java/org/ns/thesis/wordindex/jni/JNIWordIndex.java:190-201 | a frame length read as the unsigned little-endian integer the encoder writes, a value below 2^32; below 2^31 it is what Java's signed `getInt` returns (see Left out) |
| Common.Le32RoundTrip | native/src/utils.c:5-10 | reading back the four bytes `write_u32` stored gives the stored value |
| Common.Le32ZeroIff | native/src/utils.c:5-10 | a stored length reads back as zero exactly when it was zero, so only the terminator mark reads as 0 |
| Analyzers.ShouldBreakAt | native/src/analyzers.c:15-24 | the walk over the delimiter row answers true exactly when the byte is in the analyzer's row |
| Analyzers.TextRowIsTextBreak | native/src/analyzers.c:11-13 | the TEXT row holds exactly space, `?`, `!`, `:`, `;`, `,`, `.`, LF and CR |
| Analyzers.EnglishAsNative | src/main/java/org/nse/thesis/wordindex/analyzers/EnglishAnalyzer.java:9-11 | the English analyzer names native row 0, the TEXT row |
| Analyzers.EnglishMatchesNative | src/main/java/org/nse/thesis/wordindex/analyzers/EnglishAnalyzer.java:14-17 | the Java English analyzer breaks on a byte exactly when the native row it names holds that byte; tabs, letters and digits never break |
| Analyzers.WhitespaceTextIsEnglish | src/main/java/org/nse/thesis/wordindex/pojo/WhitespaceTextAnalyzer.java:6-8 | the pure-Java analyzer breaks on exactly the same bytes as the English analyzer, and not on a tab |
| Analyzers.TextBreakCaseBlind | src/main/java/org/nse/thesis/wordindex/analyzers/EnglishAnalyzer.java:14-17 | lowercasing a byte never changes whether either Java analyzer or the native TEXT row breaks on it |
| Analyzers.EnglishRuleIsBreakAt | src/main/java/org/nse/thesis/wordindex/pojo/JavaWordIndex.java:68 | the cut rule `normalize` applies with the English analyzer is exactly `breakAt` |
| Analyzers.JavaNormalizeIdempotent | src/main/java/org/ns/thesis/wordindex/JavaWordIndex.java:204-217 | both Java normalizations, cut at an English break or at the first non-letter-or-digit, give the same word when applied twice |
| Analyzers.GodCommaIsGod | src/main/java/org/nse/thesis/wordindex/pojo/JavaWordIndex.java:65-78 | "God," and "god" normalize to the same key "god" |
| Analyzers.CopyBounded | native/src/analyzers.c:29-30 | `strncpy` plus the explicit terminator copy the source up to its first NUL, zero-fill through index `original_len`, and leave the rest of the destination unchanged |
| Analyzers.AnalyzerNormalize | native/src/analyzers.c:26-43 | `analyzer_normalize` returns a length no larger than `original_len`, leaves the normalized word followed by a NUL in the buffer, and changes nothing past `original_len` |
| Analyzers.CutAtDelimiter | native/src/analyzers.c:31-40 | the cutting loop counts up to the first delimiter or NUL and writes a NUL there |
| Analyzers.AnalyzerNormalizeIdempotent | native/src/analyzers.c:26-43 | normalizing a word the TEXT analyzer already normalized changes nothing |
| CUtils.WriteU32 | native/src/utils.c:5-10 | `write_u32` stores the value's four little-endian bytes at the given offset and leaves every other byte of the buffer unchanged |
| CUtils.SdbmStep | native/src/utils.c:70 | one step of the hash loop stays within 32 bits, wrapping as `uint32_t` does |
| CUtils.Sdbm | native/src/utils.c:64-73 | the sdbm hash of a word is a 32-bit value |
| CUtils.HashFrom | native/src/utils.c:69-70 | the hashing loop, consuming bytes up to the first NUL, stays within 32 bits |
| CUtils.Hash | native/src/utils.c:64-73 | `hash` returns a 32-bit value for every input, including NULL |
| CUtils.HashFromIsFold | native/src/utils.c:69-72 | running the loop from the hash of a prefix gives the hash of that prefix followed by the C string |
| CUtils.HashIsSdbm | native/src/utils.c:64-73 | `hash` of a C string is the sdbm fold of the bytes before its NUL, and `hash(NULL)` is 0 |
| CUtils.SdbmStepMultiplier | native/src/utils.c:70 | the shifts and subtraction of one step equal `c + 65599 * h` modulo 2^32 |
| CUtils.VecInit | native/src/utils.c:27-38 | a new vector holds only the initial position and has capacity `VEC_DEF_CAP` |
| CUtils.VecAddKeepsValid | native/src/utils.c:12-25 | appending keeps the length within the capacity, keeps every earlier element, puts the new position last, and grows the capacity exactly when the vector was full |
| CUtils.PosVec.Init | native/src/utils.c:27-38 | `pos_vec_init` sets capacity `VEC_DEF_CAP` and, when `malloc` succeeds, holds the initial position; when it fails the length stays 0 |
| CUtils.PosVec.Add | native/src/utils.c:12-25 | `pos_vec_add` succeeds exactly when there is room or the reallocation succeeds, and then appends; on failure the capacity field has still doubled while the elements stay as they were |
| CUtils.PosVecIter.constructor | native/src/windex.c:94-96 | a new iterator walks the entry's positions from index 0 |
| CUtils.PosVecIter.Next | native/src/utils.c:44-46 | `pos_vec_iter_next` returns the position at the current index and advances the index by one |
| CUtils.NormalizeWord | native/src/utils.c:48-62 | `normalize_word` leaves the normalized word (cut at the first punctuation and lowercased) followed by a NUL, returns its length, and changes nothing past it |
| CUtils.NormalizeWordIdempotent | native/src/utils.c:48-62 | normalizing an already normalized word changes nothing |
| HashTable.FirstMatch | native/src/windex.c:179-191 | the entry the chain walk stops at is in the chain and its word starts with the stored word |
| HashTable.FirstMatchIsFirst | native/src/windex.c:179-191 | no entry before the stopping point starts with the stored word, and when the walk runs off the end no entry does |
| HashTable.FirstMatchAt | native/src/windex.c:179-191 | a walk that stops at k with no match before k has found exactly the first match, or none when k is the chain's end |
| HashTable.NewEntry | native/src/windex.c:249-259 | `alloc_entry_chain`, with the whole word copied as evidently intended (see Findings), builds an entry holding exactly the word, whose only position is the given one |
| HashTable.NewEntryOk | native/src/windex.c:249-259 | a new entry carries the sdbm hash of its word and a valid one-element position vector |
| HashTable.StrnEqIsPrefix | native/src/windex.c:181 | `strncmp(entry, word, len) == 0` in `store_word` holds exactly when the entry's word starts with the stored word, and the query's `strncmp(entry, word, word_len) == 0` exactly when the query starts with the entry's word: both comparisons are the prefix tests the rest of the model uses |
| HashTable.MemccpyOne | native/src/windex.c:256-257 | the copy `memccpy` makes with stop byte `sizeof(char)`, which is 1, is a prefix of the word: the whole word when it holds no byte 1, otherwise the bytes up to and including its first byte 1 |
| HashTable.OneByteCutsEntry | native/src/windex.c:253-257 | as written, every word holding a byte 1 before its last byte gets an entry shorter than its `word_len`, and the word never matches that entry, so lookups miss it and each later occurrence links another entry |
| HashTable.OneByteWordIsLost | native/src/windex.c:257 | the file bytes 61 01 62 give an entry holding only 61 01, which the word 61 01 62 does not match |
| HashTable.StoredWordMatchesAgain | native/src/windex.c:174-191 | with the whole word copied, a word matches its own new entry, and storing it a second time appends to an existing entry instead of linking a new one |
| HashTable.StoreInChainShape | native/src/windex.c:174-191 | the chain walk appends the position to the first entry whose word starts with the stored word, or links a new entry at the tail when none does |
| HashTable.Rehash | native/src/windex.c:266-297 | `redistribute_hash_entries` doubles the number of buckets |
| HashTable.InBucketMembers | native/src/windex.c:281-282 | each entry selected for a new bucket is one of the old entries and its hash falls in that bucket |
| HashTable.CompactHead | native/src/windex.c:360-369 | compaction shrinks the capacity of the head entry of a bucket to its length and touches no other entry |
| HashTable.Compact | native/src/windex.c:360-369 | `do_compaction` treats every bucket the same way and keeps the number of buckets |
| HashTable.LookupInChain | native/src/windex.c:127-135 | the query walk answers with a chain entry whose word is a prefix of the query, or with nothing exactly when no entry's word is |
| HashTable.LookupExactInChain | native/src/windex.c:127-135 | the reference lookup by whole-word equality answers with an entry holding exactly the query word, or nothing exactly when no entry does |
| HashTable.PositionsInBucket | native/src/windex.c:173 | in a well-formed table, all positions of a word are in the bucket its hash selects |
| HashTable.StoreInChainOk | native/src/windex.c:179-191 | a chain store keeps every entry well formed and keeps the rule that no later entry's word is a prefix of an earlier one |
| HashTable.StoreInChainPositions | native/src/windex.c:179-191 | a chain store appends the position to exactly one word's list, the first matching entry's word or the new word, and leaves every other list as it was |
| HashTable.StoreInTableCount | native/src/windex.c:174-191 | the number of entries grows by one exactly when no entry matched |
| HashTable.StoreInTableOk | native/src/windex.c:170-192 | storing keeps every chain well formed and every entry in the bucket of its hash |
| HashTable.StoreInTablePositions | native/src/windex.c:170-192 | through the table, storing appends the position to exactly one word's list and no other list changes |
| HashTable.PlaceAllBuckets | native/src/windex.c:274-295 | relinking into an empty table puts in each bucket exactly the entries that hash to it, in the order they were walked |
| HashTable.RehashBuckets | native/src/windex.c:266-297 | each new chain lists exactly the old entries whose hash falls in it, in old-table order |
| HashTable.PlaceAllCount | native/src/windex.c:274-295 | relinking adds exactly the relinked entries |
| HashTable.PlaceCount | native/src/windex.c:281-292 | linking one entry adds exactly that entry |
| HashTable.RehashKeepsEntries | native/src/windex.c:266-297 | the rehash loses and duplicates no entry |
| HashTable.InBucketChainOk | native/src/windex.c:274-295 | taking the entries of one new bucket from a well-formed chain keeps it well formed |
| HashTable.RehashOk | native/src/windex.c:266-297 | the rehashed table is well formed and every entry sits in the bucket of its hash modulo the new capacity |
| HashTable.RehashKeepsPositions | native/src/windex.c:266-297 | the rehash keeps every word's position list exactly as it was |
| HashTable.StoreKeepsInvariant | native/src/windex.c:167-196 | one `store_word` keeps the table well formed with at most 0.75 words per bucket, counts a word exactly when a new entry was linked, and doubles the capacity exactly when the load factor was exceeded |
| HashTable.StorePositions | native/src/windex.c:167-196 | one `store_word`, rehash included, appends the position to exactly one word's list and leaves every other list unchanged |
| HashTable.EmptyStateOk | native/src/windex.c:47-60 | an index opened with a positive capacity starts well formed and empty |
| HashTable.CompactKeepsIndex | native/src/windex.c:360-369 | compaction keeps the index invariant, the word count and every word's position list |
| HashTable.CompactHeadOk | native/src/windex.c:360-369 | compacting a chain keeps it well formed and keeps every entry's word and hash |
| HashTable.CompactHeadPositions | native/src/windex.c:360-369 | compacting a chain keeps every word's positions |
| HashTable.LookupExactFindsPositions | native/src/windex.c:127-135 | the whole-word lookup returns exactly the positions recorded for the query, or nothing when none are recorded |
| HashTable.EmptyWordShadowsQuery | native/src/windex.c:128 | a token made only of punctuation is stored as the empty word; in a 64-bucket table the query for "aa" then returns the empty word's position, although "aa" is recorded at 5 |
| Indexing.TokenEnd | native/src/windex.c:214-216 | a token found by `strtok` ends inside the chunk, on a delimiter or at the chunk's end |
| Indexing.TokenEndIsFirst | native/src/windex.c:214-216 | a token holds no delimiter, so it ends at the first delimiter after its start |
| Indexing.ChunkSize | native/src/windex.c:209-211 | each read takes at most `word_buffer_size - 1` bytes and stays inside the file, and reads nothing exactly at end of file or when the buffer has room only for the terminator |
| Indexing.StoreKeepsCapacity | native/src/windex.c:193-195 | storing a word never shrinks the table |
| Indexing.StoreAllKeepsInvariant | native/src/windex.c:230 | storing the tokens one after another keeps the index invariant |
| Indexing.IndexedOk | native/src/windex.c:47-65 | the index `file_word_index_open` builds satisfies the invariant: well-formed chains, each entry in its hash's bucket, the word count matching the entries, and a load factor of at most 0.75 |
| Indexing.ScanTokensSound | native/src/windex.c:214-234 | every token stored from one chunk lies after the scan position, on a byte that is neither a delimiter nor NUL, and positions strictly increase |
| Indexing.IndexTokensFromSplit | native/src/windex.c:209-237 | the tokens stored from an offset on are those of the current chunk followed by those of the next reads |
| Indexing.ChunkTokensSound | native/src/windex.c:212-234 | the tokens of one chunk lie inside that chunk, on file bytes that are neither delimiters nor NUL, in increasing order |
| Indexing.IndexTokensFromSound | native/src/windex.c:208-237 | every token stored from an offset on sits at or after it, on a non-delimiter byte of the file, and positions strictly increase |
| Indexing.IndexTokensSound | native/src/windex.c:204-238 | the tokens of a whole file are stored in file order, each on a byte that is neither a delimiter nor NUL; each sits at the first byte of a run of its read (the read's start or right after a delimiter) and holds that run normalized; and every run of every read has a token, except a run that ends at the last byte of a full read |
| Indexing.ScanTokensExact | native/src/windex.c:214-233 | the `strtok` loop over one read stores exactly one token per run of the read, at the run's first byte and holding the run normalized, leaving out only a run that ends at the last byte of a full read |
| Indexing.NoRunInside | native/src/windex.c:214-225 | no run starts inside a token, and once a token ends at the last byte of a full read no later run of that read is left to store |
| Indexing.ChunkText | native/src/windex.c:209-214 | the text `strtok` scans for one read, cut at its first NUL, is at most `word_buffer_size - 1` bytes |
| Indexing.ChunkOf | native/src/windex.c:209-236 | the read holding a file offset starts at a multiple of `word_buffer_size - 1` at most that offset and less than `word_buffer_size - 1` before it, since every read but the last takes that many bytes |
| Indexing.NextRead | native/src/windex.c:236 | the next read starts at a multiple of `word_buffer_size - 1`, or at the end of the file |
| Indexing.IndexTokensFromExact | native/src/windex.c:208-237 | from any read on, every stored token is a token of the read that holds its position, and every run of those reads has a stored token except a run that ends at the last byte of a full read |
| Indexing.SplitWordIsLost | native/src/windex.c:221-235 | a word that crosses a read boundary is lost: with a 5-byte buffer, "ab cd" stores "ab" at 0 and only "d" at 4, because the carried-over prefix is overwritten |
| LineTokenizer.WsEnd | src/main/java/org/nse/thesis/wordindex/pojo/LineWordTokenizer.java:45-50 | the run from a word start ends inside the line, on a whitespace character or at the line's end |
| LineTokenizer.WsEndIsFirst | src/main/java/org/nse/thesis/wordindex/pojo/LineWordTokenizer.java:45-50 | no character of the run is whitespace, so it ends at the first whitespace after the word start |
| LineTokenizer.StoreToken | src/main/java/org/nse/thesis/wordindex/pojo/LineWordTokenizer.java:62-68 | `storeToken` adds at most one token |
| LineTokenizer.TokenizeLine | src/main/java/org/nse/thesis/wordindex/pojo/LineWordTokenizer.java:44-52 | the `tokenizeLine` loop yields exactly the tokens of the line's runs |
| LineTokenizer.StoreStep | src/main/java/org/nse/thesis/wordindex/pojo/LineWordTokenizer.java:62-68 | at the whitespace or end that closes the run from the word start, the tokens from that start are the run's token followed by the tokens after the whitespace |
| LineTokenizer.SkipStep | src/main/java/org/nse/thesis/wordindex/pojo/LineWordTokenizer.java:48 | a character that is not whitespace does not end the run |
| LineTokenizer.BlankRunIsEmpty | src/main/java/org/nse/thesis/wordindex/pojo/LineWordTokenizer.java:64 | a run holds no whitespace, so it is blank exactly when it is empty |
| LineTokenizer.TokensFromSound | src/main/java/org/nse/thesis/wordindex/pojo/LineWordTokenizer.java:44-68 | every token from a word start on sits at the start of a whitespace-free run at or after it, holds that run normalized, and positions strictly increase |
| LineTokenizer.TokensFromSplit | src/main/java/org/nse/thesis/wordindex/pojo/LineWordTokenizer.java:45-50 | the tokens from a word start are the current run's token followed by the tokens after its closing whitespace |
| LineTokenizer.LastRunSound | src/main/java/org/nse/thesis/wordindex/pojo/LineWordTokenizer.java:46-47 | the run that reaches the end of the line yields a token at a run start, or none |
| LineTokenizer.TokensFromComplete | src/main/java/org/nse/thesis/wordindex/pojo/LineWordTokenizer.java:44-68 | every run start at or after the word start has a token |
| LineTokenizer.RunStartHasToken | src/main/java/org/nse/thesis/wordindex/pojo/LineWordTokenizer.java:62-66 | a non-empty run yields a token at its own start |
| LineTokenizer.LaterRunHasToken | src/main/java/org/nse/thesis/wordindex/pojo/LineWordTokenizer.java:67 | a token after the first run's whitespace is also a token from the word start |
| LineTokenizer.LineTokensAreRuns | src/main/java/org/nse/thesis/wordindex/pojo/LineWordTokenizer.java:44-68 | the tokens of a line are its runs, one per run start, in order, each at the offset of its first character |
| LineTokenizerExamples.BlankLine | src/main/java/org/nse/thesis/wordindex/pojo/LineWordTokenizer.java:64 | a line of spaces and tabs yields no token |
| LineTokenizerExamples.DotLine | src/main/java/org/nse/thesis/wordindex/pojo/LineWordTokenizer.java:64-65 | a run that normalizes to nothing still yields an empty token at its start |
| BufferedTokenizer.BufferedWordTokenizer.constructor | src/main/java/org/nse/thesis/wordindex/pojo/BufferedWordTokenizer.java:27-50 | the constructor leaves the tokens and truncation count of the scan of the bytes read, with the carried-over tail copied to the front of the buffer and the rest of the buffer unchanged |
| BufferedTokenizer.BufferedWordTokenizer.SplitBeforeLast | src/main/java/org/nse/thesis/wordindex/pojo/BufferedWordTokenizer.java:30-48 | the iterations before the last byte store every run closed by whitespace and leave a word start whose run reaches the last byte, with the scan unchanged |
| BufferedTokenizer.BufferedWordTokenizer.EndAtLast | src/main/java/org/nse/thesis/wordindex/pojo/BufferedWordTokenizer.java:31-44 | the last iteration stores the final run whole (buffer not full), carries it to the front (full, last byte not whitespace) or stores it up to the whitespace (full, last byte whitespace) |
| BufferedTokenizer.BufferedWordTokenizer.StoreRun | src/main/java/org/nse/thesis/wordindex/pojo/BufferedWordTokenizer.java:19-25 | `storeToken` appends the run's token to the token list, or nothing for a blank run |
| BufferedTokenizer.BufferedWordTokenizer.GetTruncatedBytes | src/main/java/org/nse/thesis/wordindex/pojo/BufferedWordTokenizer.java:58-64 | the number of carried-over bytes is positive exactly when `didTruncate` holds |
| BufferedTokenizer.ArrayCopyToFront | src/main/java/org/nse/thesis/wordindex/pojo/BufferedWordTokenizer.java:40 | `System.arraycopy` within one buffer moves the run to the front and leaves the bytes after it unchanged |
| BufferedTokenizer.StoreTokenPrefix | src/main/java/org/nse/thesis/wordindex/pojo/BufferedWordTokenizer.java:20 | the token of a run depends only on the bytes of the run |
| BufferedTokenizer.WhitespaceStep | src/main/java/org/nse/thesis/wordindex/pojo/BufferedWordTokenizer.java:45-47 | at a whitespace byte before the last, the scan stores the run and continues after the whitespace |
| BufferedTokenizer.LastStep | src/main/java/org/nse/thesis/wordindex/pojo/BufferedWordTokenizer.java:31-44 | at the last byte the scan ends in exactly one of its three cases |
| BufferedTokenizer.TrailingBreakSameToken | src/main/java/org/nse/thesis/wordindex/pojo/BufferedWordTokenizer.java:43 | dropping a final whitespace byte that is also a break character gives the same token |
| BufferedTokenizer.InnerRunCarries | src/main/java/org/nse/thesis/wordindex/pojo/BufferedWordTokenizer.java:45-47 | a run closed before the last byte is stored ahead of the carried-over scan that follows it |
| BufferedTokenizer.InnerRunMatches | src/main/java/org/nse/thesis/wordindex/pojo/BufferedWordTokenizer.java:45-47 | a run closed before the last byte is stored by both tokenizers, ahead of the matching scan that follows it |
| BufferedTokenizer.LastRunCarries | src/main/java/org/nse/thesis/wordindex/pojo/BufferedWordTokenizer.java:38-40 | a full buffer whose last run reaches its end carries that run over instead of storing it |
| BufferedTokenizer.LastRunWholeMatches | src/main/java/org/nse/thesis/wordindex/pojo/BufferedWordTokenizer.java:36-37 | in a partial buffer the last whitespace-free run is stored as the line tokenizer stores it |
| BufferedTokenizer.LastRunCutMatches | src/main/java/org/nse/thesis/wordindex/pojo/BufferedWordTokenizer.java:41-43 | a last run closed by a final whitespace byte that is a break character is stored as the line tokenizer stores it |
| BufferedTokenizer.ScanFromCarries | src/main/java/org/nse/thesis/wordindex/pojo/BufferedWordTokenizer.java:30-49 | a full buffer ending inside a word stores the line tokenizer's tokens except the last, and carries exactly that last run over |
| BufferedTokenizer.ScanFromMatches | src/main/java/org/nse/thesis/wordindex/pojo/BufferedWordTokenizer.java:30-49 | on a buffer that ends like a line the scan stores exactly the line tokenizer's tokens and carries nothing |
| BufferedTokenizer.ScannedIsLine | src/main/java/org/nse/thesis/wordindex/pojo/BufferedWordTokenizer.java:27-50 | on a whole read the buffered tokenizer agrees with the line tokenizer: empty input gives nothing, a full buffer ending inside a word carries the line's last token over, and every other ending the line tokenizer would give stores the line's tokens exactly |
| BufferedTokenizer.TrailingTabKept | src/main/java/org/nse/thesis/wordindex/pojo/BufferedWordTokenizer.java:36-37 | a partial buffer keeps its last byte in the last run even when it is whitespace, so "a" followed by a tab is stored with the tab, where the line tokenizer stores "a" |
| Frames.PosWithContext | native/src/windex.c:390-392 | the read for a word starts at most ctx bytes before it, exactly ctx before unless that would fall before the file's start, where it starts at 0 |
| Frames.ReadSize | native/src/windex.c:328-336 | the read is at most 2*ctx + word_len bytes and always ends ctx bytes after the word's end |
| Frames.SingleReadSize | native/src/windex.c:401-403 | one worst-case frame plus a terminator needs 2*ctx + word_len + 8 bytes |
| Frames.Window | native/src/windex.c:340-342 | the bytes `fseek` and `fread` deliver for a word are the file between the start of its context and the end of its trailing context, clipped to the file, at most 2*ctx + word_len bytes, and never empty for a word inside the file |
| Frames.Windows | native/src/windex.c:316-347 | one window per position |
| Frames.WindowsAt | native/src/windex.c:316-347 | the k-th window is the window of the k-th position |
| Frames.WindowsAppend | native/src/windex.c:316-347 | the windows of two runs of positions are the windows of the first followed by those of the second |
| Frames.SerializeAppend | native/src/windex.c:341-346 | writing one more frame appends its four-byte length and its bytes to what was written |
| Frames.Fill | native/src/windex.c:310-353 | one encoder call writes frames that each fit a 32-bit length, and when it stops early it hands back an index from its start onwards that still has a position |
| Frames.FillWindows | native/src/windex.c:316-347 | the frames of one call are the windows of the positions it consumed, one per position and in order, up to the index it hands back |
| Frames.FillFits | native/src/windex.c:318-326 | the room check keeps frames and terminator inside the buffer whenever the terminator fits where the call starts |
| Frames.FillNoProgress | native/src/windex.c:320-325 | with a buffer below 2*ctx + word_len + 8, a call over remaining positions writes no frame and hands back the index it was given |
| Frames.FillProgress | native/src/windex.c:316-347 | with a buffer of at least 2*ctx + word_len + 8, every call over remaining positions consumes at least one |
| Frames.FillSingle | native/src/windex.c:82-99 | a call whose buffer is exactly `single_read_size` writes at most one frame |
| Frames.InFileWindows | native/src/windex.c:340-342 | positions inside the file have non-empty windows |
| Frames.FillCount | native/src/windex.c:316-347 | a call writes exactly one frame per index it consumes |
| Frames.FillInFile | native/src/windex.c:310-353 | a call with room for a worst-case frame over positions inside the file writes exactly their windows up to the index it hands back |
| Frames.SplitInFile | native/src/windex.c:316-347 | cutting the remaining positions at the handed-back index splits their windows the same way |
| Frames.GetWordsYieldsWindows | src/main/java/org/ns/thesis/wordindex/jni/JNIWordIndex.java:185-203 | with a buffer of at least 2*ctx + word_len + 8 bytes, `getWords` collects one string per stored position, each that position's window, in stored order |
| Frames.GetWordsHangsBelow | src/main/java/org/ns/thesis/wordindex/jni/JNIWordIndex.java:185-203 | with a smaller buffer and positions left, every call hands back the same index, so the do/while never ends |
| Frames.NoPositionsNoWords | native/src/windex.c:137-139 | a word without positions yields nothing, through `getWords` and through the iterator |
| Frames.FollowWindows | src/main/java/org/ns/thesis/wordindex/jni/JNIWordIndex.java:280-291 | with room for a worst-case frame, the refills after a handed-back index yield exactly the windows from that index on |
| Frames.IterYieldsWindows | src/main/java/org/ns/thesis/wordindex/jni/JNIWordIndex.java:242-324 | with room for a worst-case frame, the lazy iterator yields exactly the windows of all positions, the same strings `getWords` collects |
| Frames.IterYieldsNothingBelow | src/main/java/org/ns/thesis/wordindex/jni/JNIWordIndex.java:280-291 | with a smaller buffer the iterator yields nothing, where `getWords` hangs |
| Frames.FillWithin | native/src/windex.c:328-336 | every frame is at most 2*ctx + word_len bytes, the size of the Java copy array |
| Frames.DecodeTerminator | src/main/java/org/ns/thesis/wordindex/jni/JNIWordIndex.java:191-194 | a zero length ends decoding, whatever follows it |
| Frames.DecodeFrame | src/main/java/org/ns/thesis/wordindex/jni/JNIWordIndex.java:191-200 | a non-empty frame decodes to its bytes, in front of whatever the rest decodes to |
| Frames.UpToEmpty | src/main/java/org/ns/thesis/wordindex/jni/JNIWordIndex.java:191-194 | a decode loop gets at most as many strings as frames were written |
| Frames.UpToEmptyIsPrefix | src/main/java/org/ns/thesis/wordindex/jni/JNIWordIndex.java:191-194 | the strings decoded are the longest run of written frames without an empty one, since an empty frame's zero length reads as the terminator |
| Frames.UpToEmptyAll | src/main/java/org/ns/thesis/wordindex/jni/JNIWordIndex.java:191-194 | when no frame is empty nothing is lost |
| Frames.DecodeFilledAny | src/main/java/org/ns/thesis/wordindex/jni/JNIWordIndex.java:190-201 | decoding what the encoder wrote gives back its frames up to the first empty one, whatever lies in the buffer after the terminator |
| Frames.FilledCons | native/src/windex.c:341-346 | the bytes of a call start with its first frame's length and bytes |
| Frames.DecodeFilled | src/main/java/org/ns/thesis/wordindex/jni/JNIWordIndex.java:190-201 | decoding what the encoder wrote gives back exactly its frames when none is empty: the round trip of the buffer protocol |
| NativeIndex.WriteFrame | native/src/windex.c:341-346 | reading a window after the 4 reserved bytes and then writing its length there extends the bytes written by exactly one frame and changes nothing after it |
| NativeIndex.WriteTerminator | native/src/windex.c:349-350 | the terminator after the frames completes the call's output and changes nothing after it |
| NativeIndex.FinishFill | native/src/windex.c:349-352 | after the terminator the buffer holds the frames and terminator of the call, every later byte as before |
| NativeIndex.FillTakes | native/src/windex.c:316-346 | a call whose next frame fits writes that position's window first |
| NativeIndex.FillStopsAt | native/src/windex.c:320-325 | a loop that stops at a position without room has written the call's frames and hands back that position |
| NativeIndex.FillEndsAt | native/src/windex.c:316-352 | a loop that runs out of positions has written the call's frames and returns NULL |
| NativeIndex.FillTakesAt | native/src/windex.c:316-347 | after writing one more frame the loop still describes the same call |
| NativeIndex.FilledFromLoop | native/src/windex.c:349-350 | the buffer the write loop leaves is the call's frames and terminator, every later byte as before |
| NativeIndex.ScanTakes | native/src/windex.c:214-233 | one `strtok` token that does not reach the chunk's edge is stored at its offset, normalized, before the chunk's later tokens |
| NativeIndex.ChunkLog | native/src/windex.c:209-237 | after one read, the tokens still to store are those of the later reads |
| NativeIndex.EndLog | native/src/windex.c:209-211 | at end of file nothing is left to store |
| NativeIndex.StoreAllSnoc | native/src/windex.c:230 | storing one more token stores it after all earlier ones |
| NativeIndex.PlaceChain | native/src/windex.c:275-294 | the inner loop of the rehash links every entry of one old chain, from its head, at the tail of its new bucket |
| NativeIndex.NewBuckets | native/src/windex.c:271 | `calloc` of a bucket array gives that many empty buckets |
| NativeIndex.FindEntry | native/src/windex.c:127-135 | the query's chain walk stops at the first entry whose word is a prefix of the query, or at the end exactly when there is none |
| NativeIndex.WordIndex.Open | native/src/windex.c:47-70 | `file_word_index_open` builds the index of every token of the file, compacted when asked, and the index invariant holds |
| NativeIndex.WordIndex.StoreWord | native/src/windex.c:167-196 | `store_word` leaves the state `Store` describes and logs the token |
| NativeIndex.WordIndex.Redistribute | native/src/windex.c:266-297 | `redistribute_hash_entries` replaces the table by its rehash and keeps the word count |
| NativeIndex.WordIndex.DoCompaction | native/src/windex.c:360-369 | `do_compaction` replaces the table by its compaction and keeps the word count |
| NativeIndex.WordIndex.DoIndexing | native/src/windex.c:204-238 | `do_indexing` stores exactly the tokens of the file, in file order |
| NativeIndex.WordIndex.IndexRead | native/src/windex.c:209-236 | one read stores the tokens of its chunk, leaving those of the later reads to do |
| NativeIndex.WordIndex.IndexChunk | native/src/windex.c:212-234 | the `strtok` loop over one chunk stores exactly the chunk's tokens |
| NativeIndex.WordIndex.IndexToken | native/src/windex.c:215-233 | one `strtok` token is stored normalized at its file offset, unless it reaches the chunk's edge, which ends the chunk |
| NativeIndex.WordIndex.NormalizeToken | native/src/windex.c:229 | `normalize_word` on the NUL-terminated token gives the token cut at its first punctuation and lowercased |
| NativeIndex.WordIndex.ReadFrame | native/src/windex.c:328-346 | one frame of the encoder reads exactly the position's window after the reserved 4 bytes and writes its length there |
| NativeIndex.WordIndex.ReadWordsWithCtx | native/src/windex.c:310-353 | `read_words_with_ctx` leaves the call's frames and terminator in the buffer and returns the iterator stepped back onto the first position without room, or NULL when every position was written |
| NativeIndex.WordIndex.ReadWithContextBuffered | native/src/windex.c:108-140 | a continuation goes straight to the encoder; otherwise the word is normalized, the first entry whose word is a prefix of it is read from its first position, and an unknown word gets only the terminator |
| NativeIndex.WordIndex.ReadContextOneByOne | native/src/windex.c:72-106 | a limit of 2*ctx + the bucket head's word length + slack larger than the buffer returns NULL without writing; otherwise the limit is the encoder's buffer size: a continuation fills from the handle's index and hands back that same handle at the stop index, a fresh query hands back a new iterator over the matched entry's positions at the stop index, and an unknown word returns NULL without writing |
| NativeIndex.OneByOneLimitStalls | native/src/wordindex.c:215-233 | with wordindex.c's limit, 2*ctx + word_len + 4, a call writes no frame and hands back the position it was given, so repeating it never ends |
| NativeIndex.OneByOneLimitYieldsWindows | native/src/windex.c:82-99 | with windex.c's limit, 2*ctx + word_len + 8, each call writes exactly one frame and repeating the call yields every window in stored order |
| Frontends.ContextBytes.Size | src/main/java/org/nse/thesis/wordindex/WordIndex.java:66-96 | every context constant surrounds a word with at most 128 bytes on each side |
| Frontends.ContextSizes | native/include/windex.h:24-29 | each Java context size equals the value of the native enum constant in the same position, and a later constant means strictly more context |
| Frontends.AtLeast | src/main/java/org/nse/thesis/wordindex/ffm/FFMWordIndex.java:61-69 | a configured size is never below its minimum and is kept as given when it already reaches it |
| Frontends.OpenSettings | src/main/java/org/ns/thesis/wordindex/jni/JNIWordIndex.java:63-84 | a missing file and only a missing file is refused (FileNotFoundException, IllegalArgumentException for NativeWordIndex); otherwise the word capacity, indexing buffer and query buffer reach their minimums, sizes at or above a minimum pass unchanged, and the compaction flag is passed on |
| Frontends.RaisedCapacity | src/main/java/org/ns/thesis/wordindex/jna/JNAWordIndex.java:78-84 | the buffer of JNI and JNA is at least the configured size and at least 2*ctx + word length + 4, and is one of the two |
| Frontends.BufferCapacity | src/main/java/org/nse/thesis/wordindex/ffm/FFMWordIndex.java:107-108 | FFM queries into exactly the configured buffer size, JNI and JNA into the raised capacity |
| Frontends.RoomyCapacity | native/src/windex.c:401-403 | the corrected capacity is at least the configured size and at least the encoder's single-read size, and is one of the two |
| Frontends.CapacityTooSmall | src/main/java/org/ns/thesis/wordindex/jni/JNIWordIndex.java:181-182 | with every binding, a 252-byte word with LARGE_CONTEXT and the minimum 512-byte buffer makes getWords repeat one call forever and the iterator yield nothing, for any word with a stored position |
| Frontends.RoomyCapacityYieldsWindows | src/main/java/org/ns/thesis/wordindex/jni/JNIWordIndex.java:174-206 | with the corrected capacity, getWords and the iterator both yield every window of the word's positions, in stored order |
| Frontends.TerminatedOnlyIsEmptyFill | native/src/windex.c:136-139 | an unknown word's buffer, holding only the terminator, is exactly the output of a fill over no positions |
| Frontends.CallNative | src/main/java/org/ns/thesis/wordindex/jni/JNIWordIndex.java:185-189 | one native call writes into the buffer the fill of the word's positions from the handle's index (from the first position when there is no handle) and returns a handle exactly when positions remain, pointing at the next one |
| Frontends.DropLast | src/main/java/org/ns/thesis/wordindex/NativeWordIndex.java:196 | NativeWordIndex keeps every string without its last byte |
| Frontends.DropLastAll | src/main/java/org/ns/thesis/wordindex/NativeWordIndex.java:187-198 | the legacy decoder keeps as many strings as it reads, each without its last byte |
| Frontends.KeptAppend | src/main/java/org/ns/thesis/wordindex/jni/JNIWordIndex.java:190-201 | what a decode loop keeps of two runs of strings is what it keeps of each, in order |
| Frontends.CopyOut | src/main/java/org/ns/thesis/wordindex/jni/JNIWordIndex.java:196-199 | the byte-by-byte copy reads exactly the string's bytes from the buffer |
| Frontends.DecodedAtStart | src/main/java/org/ns/thesis/wordindex/jni/JNIWordIndex.java:190 | the decode loop starts with nothing read at offset 0, where the decoding of the whole buffer begins |
| Frontends.DecodeAt | src/main/java/org/ns/thesis/wordindex/jni/JNIWordIndex.java:191-199 | a non-zero length that fits the copy array and the buffer contributes exactly the bytes after it, and decoding continues right after them |
| Frontends.DecodedStep | src/main/java/org/ns/thesis/wordindex/jni/JNIWordIndex.java:191-200 | reading one string keeps the loop in step with the decoding of the whole buffer |
| Frontends.DecodedEnd | src/main/java/org/ns/thesis/wordindex/jni/JNIWordIndex.java:191-195 | the zero mark ends the decoding with the strings read so far; a buffer that runs out before a length, or a length beyond the copy array or the buffer, makes the decoding fail (a length is read unsigned, so this holds for the lengths below 2^31 that Java's `getInt` also reads as non-negative) |
| Frontends.DecodeBuffer | src/main/java/org/ns/thesis/wordindex/jni/JNIWordIndex.java:190-202 | the decode loop returns the strings of the buffer's frames up to the zero mark (each without its last byte for NativeWordIndex), and fails where the buffer runs out before a length or a length below 2^31 overruns the copy array or the buffer; lengths of 2^31 or more are read unsigned (see Left out) |
| Frontends.GetWordsRound | src/main/java/org/ns/thesis/wordindex/jni/JNIWordIndex.java:184-203 | a getWords answer is the strings of the first fill followed by the answer from the returned handle, ends when no handle is returned, and never ends when the handle stays where it was |
| Frontends.RoundStep | src/main/java/org/ns/thesis/wordindex/jni/JNIWordIndex.java:184-203 | one round of the getWords loop keeps the collected strings in step with the whole answer |
| Frontends.QueryRound | src/main/java/org/ns/thesis/wordindex/jni/JNIWordIndex.java:184-202 | one native call plus its decode loop adds exactly the strings of one fill to the results and returns the handle of the positions that remain |
| Frontends.CollectWords | src/main/java/org/ns/thesis/wordindex/jni/JNIWordIndex.java:174-206 | getWords returns the strings of every fill of the word's positions in order (without each last byte for NativeWordIndex), or repeats forever when a fill makes no progress |
| Iterators.DecodeFirst | src/main/java/org/ns/thesis/wordindex/jni/JNIWordIndex.java:294-300 | a buffer that decodes to at least one string starts with a non-zero length within the copy array and the buffer, followed by that string's bytes, and decodes on after them |
| Iterators.FillBuffer | src/main/java/org/ns/thesis/wordindex/jni/JNIWordIndex.java:317-324 | after one native call the whole buffer decodes to the strings of the fill from the handle's index, and the returned handle resumes exactly where that fill stopped |
| Iterators.ReadString | src/main/java/org/ns/thesis/wordindex/jni/JNIWordIndex.java:295-300 | reading a length and that many bytes returns the first string the buffer decodes to from the current position, and the buffer decodes to the rest of them after it |
| Iterators.DecodeFirstAt | src/main/java/org/ns/thesis/wordindex/jni/JNIWordIndex.java:294-300 | the first string decoded at an offset of the buffer is the bytes after the length there, and decoding continues right after them |
| Iterators.ConsThen | src/main/java/org/ns/thesis/wordindex/jni/JNIWordIndex.java:294-300 | taking the first pending string leaves the rest of the pending strings followed by the same refills |
| Iterators.NativeWordContextIterator.constructor | src/main/java/org/ns/thesis/wordindex/jni/JNIWordIndex.java:252-265 | a new iterator has a copy array of 2*ctx + word length bytes and a buffer of the binding's capacity, and will yield exactly the strings of the lazy protocol run from the first call |
| Iterators.NativeWordContextIterator.ReadIntoBuffer | src/main/java/org/ns/thesis/wordindex/jni/JNIWordIndex.java:317-324 | a refill rewinds the position, the buffer decodes to the strings of the fill from the handle's index, and the handle kept resumes where that fill stopped |
| Iterators.NativeWordContextIterator.BufferHasNext | src/main/java/org/ns/thesis/wordindex/jni/JNIWordIndex.java:306-311 | peeking at the next length is true exactly when the buffer still holds a string |
| Iterators.NativeWordContextIterator.HasNext | src/main/java/org/ns/thesis/wordindex/jni/JNIWordIndex.java:280-291 | hasNext is true exactly when something is left to yield; when true a string is ready in the buffer and what is left to yield is unchanged |
| Iterators.NativeWordContextIterator.Next | src/main/java/org/ns/thesis/wordindex/jni/JNIWordIndex.java:294-301 | next returns the first string left to yield and removes exactly it |
| Iterators.NativeWordContextIterator.Close | src/main/java/org/ns/thesis/wordindex/jni/JNIWordIndex.java:271-277 | close releases the native iterator exactly when the handle is not NULL, and releases that handle |
| Iterators.ReadCachedString | src/main/java/org/ns/thesis/wordindex/NativeWordIndex.java:307-311 | with the next length already read, copying that many bytes and reading the following length returns the first string the buffer decodes to there; the new length is 0 exactly when no string follows it in the buffer |
| Iterators.DecodeHead | src/main/java/org/ns/thesis/wordindex/NativeWordIndex.java:277 | a decodable buffer starts with a length, and that length is 0 exactly when the buffer decodes to no string |
| Iterators.DecodeHeadAt | src/main/java/org/ns/thesis/wordindex/NativeWordIndex.java:311 | the length read at an offset of the buffer is 0 exactly when the buffer decodes to no string from there |
| Iterators.DropLastCons | src/main/java/org/ns/thesis/wordindex/NativeWordIndex.java:315 | dropping the last byte of every string is the same as doing it to the first string and then to the rest |
| Iterators.LegacyWordContextIterator.constructor | src/main/java/org/ns/thesis/wordindex/NativeWordIndex.java:260-278 | a new NativeWordIndex iterator has the raised buffer capacity and will yield exactly the strings of its first fill without their last bytes when that fill hands back a handle, and nothing otherwise |
| Iterators.LegacyWordContextIterator.ReadIntoBuffer | src/main/java/org/ns/thesis/wordindex/NativeWordIndex.java:280-286 | a refill rewinds the position and leaves the cached length as it was; the buffer decodes to the strings of the fill from the handle's index, and the new handle resumes where that fill stopped |
| Iterators.LegacyWordContextIterator.HasNext | src/main/java/org/ns/thesis/wordindex/NativeWordIndex.java:300-303 | hasNext (a non-NULL handle and a non-zero cached length) is true exactly when something is left to yield |
| Iterators.LegacyWordContextIterator.Next | src/main/java/org/ns/thesis/wordindex/NativeWordIndex.java:306-316 | next returns the first string left to yield, without its last byte, and removes exactly it |
| Iterators.LegacyWordContextIterator.MoveTo | src/main/java/org/ns/thesis/wordindex/NativeWordIndex.java:311-314 | after a string is copied, caching the following length (and refilling when it is 0) leaves exactly the strings after the copied one to yield, each without its last byte |
| Iterators.LegacyWordContextIterator.Close | src/main/java/org/ns/thesis/wordindex/NativeWordIndex.java:293-297 | close calls the native iterator release exactly when something is left to yield, and passes it the index handle |
| Iterators.LegacyYieldIsPrefix | src/main/java/org/ns/thesis/wordindex/NativeWordIndex.java:249-317 | the NativeWordIndex iterator yields a prefix of what the other iterators yield, each string without its last byte |
| Iterators.LegacyMissesSingleFill | src/main/java/org/ns/thesis/wordindex/NativeWordIndex.java:300-303 | a word whose windows all fit in the first buffer is never reported by the NativeWordIndex iterator, while the other iterators yield all its windows |
| Iterators.LegacyMissesOneWord | src/main/java/org/ns/thesis/wordindex/NativeWordIndex.java:276-277 | a one-byte file holding a word once, with no context and a 512-byte buffer: the NativeWordIndex iterator yields nothing, the other iterators yield the word |
| Iterators.IterateWords | src/main/java/org/ns/thesis/wordindex/jni/JNIWordIndex.java:218-226 | iterateWords refuses exactly when the indexed file no longer exists, and otherwise returns a fresh iterator over the word's windows |
| JavaLines.LineEnd | src/main/java/org/nse/thesis/wordindex/pojo/JavaWordIndex.java:160 | a line runs to the first '\n' or '\r' at or after its start, or to the end of the file, and holds no terminator byte |
| JavaLines.ReadLine | src/main/java/org/nse/thesis/wordindex/pojo/JavaWordIndex.java:160 | readLine returns null exactly at the end of the file; otherwise a line that lies in the file and an offset strictly after the start, past a terminator unless the file ends |
| JavaLines.ReadLineSplits | src/main/java/org/nse/thesis/wordindex/pojo/JavaWordIndex.java:160 | a line is the file's bytes from its start, none of them a terminator, and the next read starts after exactly one "\n", "\r" or "\r\n" (after nothing only at the end of the file, and a lone '\r' is not followed by '\n') |
| JavaLines.Placed | src/main/java/org/nse/thesis/wordindex/pojo/JavaWordIndex.java:161-167 | each token of a line is stored at the line's position plus its offset in the line, in token order |
| JavaLines.AddToken | src/main/java/org/nse/thesis/wordindex/pojo/JavaWordIndex.java:162-168 | storing a token adds its word to the index's words and nothing else |
| JavaLines.IndexOfSnoc | src/main/java/org/nse/thesis/wordindex/pojo/JavaWordIndex.java:161-169 | storing one more token is one more store into the map built so far |
| JavaLines.OccurrencesNonEmpty | src/main/java/org/nse/thesis/wordindex/pojo/JavaWordIndex.java:162-168 | a word has stored positions exactly when some token carries it |
| JavaLines.IndexOfIsOccurrences | src/main/java/org/nse/thesis/wordindex/pojo/JavaWordIndex.java:156-175 | the map holds exactly the words of the tokens, each mapped to the positions of its tokens in token order |
| JavaLines.OccurrencesIncrease | src/main/java/org/nse/thesis/wordindex/pojo/JavaWordIndex.java:162-168 | each word's positions follow the token order, strictly increasing when the token positions are, and each is the position of a token carrying the word |
| JavaLines.AppendSpread | src/main/java/org/nse/thesis/wordindex/pojo/JavaWordIndex.java:160-171 | the tokens of a line, all before the next line's position, followed by the later lines' tokens still strictly increase within the file |
| JavaLines.PlacedLineSound | src/main/java/org/nse/thesis/wordindex/pojo/JavaWordIndex.java:161-167 | the tokens of one line are stored at strictly increasing positions within the line's length from the line's position |
| JavaLines.TokensFromLinesSound | src/main/java/org/nse/thesis/wordindex/pojo/JavaWordIndex.java:158-171 | from any line on, the stored positions strictly increase and lie in the file, never before the running position, because each terminator counts at least one byte |
| JavaLines.FilePositionsSound | src/main/java/org/nse/thesis/wordindex/pojo/JavaWordIndex.java:156-175 | every stored position is an offset into the file, and each word's positions strictly increase |
| JavaLines.Positions | src/main/java/org/nse/thesis/wordindex/pojo/JavaWordIndex.java:156-175 | the positions of a word are offsets into the file in strictly increasing order |
| JavaLines.LookupIsPositions | src/main/java/org/nse/thesis/wordindex/pojo/JavaWordIndex.java:95-98 | a word is in the index built from the file exactly when some token of the file carries it, exactly when it has positions, and then it maps to those positions |
| JavaLines.PlacedStep | src/main/java/org/nse/thesis/wordindex/pojo/JavaWordIndex.java:161-168 | storing one more token of a line appends it, placed at the line's position |
| JavaLines.LineStep | src/main/java/org/nse/thesis/wordindex/pojo/JavaWordIndex.java:160-171 | after a line's tokens are stored and the position advanced by the line's length plus one, the lines after it supply the rest of the file's tokens |
| JavaLines.ReadAll | src/main/java/org/nse/thesis/wordindex/pojo/JavaWordIndex.java:160 | when readLine returns null, what was stored is every token of the file |
| JavaLines.TokensFromLinesUnfold | src/main/java/org/nse/thesis/wordindex/pojo/JavaWordIndex.java:160-171 | the tokens from a line on are that line's tokens at the running position followed by those of the following lines |
| JavaLines.CrLfShiftsPositions | src/main/java/org/nse/thesis/wordindex/pojo/JavaWordIndex.java:170 | the running position counts one byte per terminator, so in "a\r\nb" the token of "b" is stored at 2, one byte before its offset 3 |
| JavaLines.SingleRunLine | src/main/java/org/nse/thesis/wordindex/pojo/LineWordTokenizer.java:44-52 | a line of one non-whitespace byte is a single token at offset 0 |
| JavaIndex.JavaNormalize | src/main/java/org/nse/thesis/wordindex/pojo/JavaWordIndex.java:65-78 | normalize returns the lowercased prefix of the word before its first break character, the whole word lowercased when it has none |
| JavaIndex.StringHash | src/main/java/org/nse/thesis/wordindex/pojo/WordEntry.java:63-66 | String.hashCode wraps to the 32 bits of an int |
| JavaIndex.WordEntry.constructor | src/main/java/org/nse/thesis/wordindex/pojo/WordEntry.java:23-27 | a new entry holds its word and exactly one position, the first |
| JavaIndex.WordEntry.AddFilePosition | src/main/java/org/nse/thesis/wordindex/pojo/WordEntry.java:49-51 | adding a position appends it and keeps every earlier position in order |
| JavaIndex.WordEntry.HashCode | src/main/java/org/nse/thesis/wordindex/pojo/WordEntry.java:63-66 | an entry's hash code is a 32-bit value computed from its word alone |
| JavaIndex.EqualEntriesHashAlike | src/main/java/org/nse/thesis/wordindex/pojo/WordEntry.java:53-66 | two entries are equal exactly when their words are, and equal entries have equal hash codes |
| JavaIndex.WithContext | src/main/java/org/nse/thesis/wordindex/pojo/JavaWordIndex.java:54-56 | the read for a word starts ctx bytes before it, never before the start of the file, exactly where the native encoder starts its window |
| JavaIndex.ActualReadLength | src/main/java/org/nse/thesis/wordindex/pojo/JavaWordIndex.java:187-195 | the actual read length is never negative for a buffer of at least ctx bytes, and with the query's buffer of 2*ctx + word length bytes it is the native encoder's read size |
| JavaIndex.ReadCount | src/main/java/org/nse/thesis/wordindex/pojo/JavaWordIndex.java:107 | read returns -1 exactly when the buffer is not empty and the seek lies at or past the end of the file; otherwise no more than the buffer and the file still hold, and everything that fits unless the file ends first |
| JavaIndex.ReadAt | src/main/java/org/nse/thesis/wordindex/pojo/JavaWordIndex.java:106-107 | a seek and read put the file's bytes from the seek offset at the front of the buffer, as many as the read reports |
| JavaIndex.FullReadsAt | src/main/java/org/ns/thesis/wordindex/JavaWordIndex.java:63-68 | the k-th string of the full reads is the full read at the k-th position |
| JavaIndex.FullReadVersusWindow | src/main/java/org/ns/thesis/wordindex/JavaWordIndex.java:62-68 | a read kept up to readBytes is the native window when the word is at least ctx bytes into the file or the file ends within the window; nearer the start it is the first 2*ctx + word length bytes of the file, ctx - pos bytes past the window |
| JavaIndex.ClampedReadIsWindow | src/main/java/org/nse/thesis/wordindex/pojo/JavaWordIndex.java:104-110 | keeping min(readBytes, actualReadLength) bytes of a read into the query's buffer yields exactly the native window of the word |
| JavaIndex.ReadClamped | src/main/java/org/nse/thesis/wordindex/pojo/JavaWordIndex.java:103-111 | one read of getWords returns the native window of the word at that position |
| JavaIndex.ReadFull | src/main/java/org/ns/thesis/wordindex/JavaWordIndex.java:64-66 | one read of wordsWithContext and of the iterator returns everything one read of the whole buffer brings back from withContext(pos) |
| JavaIndex.ReadWindows | src/main/java/org/nse/thesis/wordindex/pojo/JavaWordIndex.java:103-112 | the getWords loop returns the native window of every position, in order |
| JavaIndex.ReadEach | src/main/java/org/ns/thesis/wordindex/JavaWordIndex.java:63-68 | the wordsWithContext loop returns the full read of every position, in order |
| JavaIndex.JavaWordContextIterator.constructor | src/main/java/org/nse/thesis/wordindex/pojo/JavaWordIndex.java:213-219 | a new iterator has a buffer of 2*ctx + word length bytes and will yield the full read of every position of the entry, in order |
| JavaIndex.JavaWordContextIterator.HasNext | src/main/java/org/nse/thesis/wordindex/pojo/JavaWordIndex.java:221-224 | hasNext is true exactly when something is left to yield |
| JavaIndex.JavaWordContextIterator.Next | src/main/java/org/nse/thesis/wordindex/pojo/JavaWordIndex.java:226-236 | next returns the full read at the next position, the first of what is left to yield, and removes exactly it |
| JavaIndex.JavaWordIndex.constructor | src/main/java/org/nse/thesis/wordindex/pojo/JavaWordIndex.java:36-44 | a new index over an existing file holds exactly the file's words, each with its positions, and the org.ns file is closed afterwards |
| JavaIndex.JavaWordIndex.DoIndexing | src/main/java/org/nse/thesis/wordindex/pojo/JavaWordIndex.java:156-175 | after indexing, the entries hold exactly the words of the file's tokens, each with the positions of its tokens in file order; org.ns closes the file in a finally block |
| JavaIndex.JavaWordIndex.StoreTokens | src/main/java/org/nse/thesis/wordindex/pojo/JavaWordIndex.java:161-169 | storing a line's tokens adds each at the line's position plus its offset, in order; existing entries stay the same objects and new words get fresh entries |
| JavaIndex.JavaWordIndex.Store | src/main/java/org/nse/thesis/wordindex/pojo/JavaWordIndex.java:162-168 | storing a token appends its position to the word's entry, or files a new entry holding only that position; no other entry changes |
| JavaIndex.JavaWordIndex.LookUp | src/main/java/org/nse/thesis/wordindex/pojo/JavaWordIndex.java:95-98 | a normalized word is in the map exactly when it has positions in the file, and its entry holds the word and exactly those positions |
| JavaIndex.JavaWordIndex.GetWords | src/main/java/org/nse/thesis/wordindex/pojo/JavaWordIndex.java:92-117 | getWords returns the native window of every position of the normalized word, in file order, and nothing for an unknown word |
| JavaIndex.JavaWordIndex.NewIterator | src/main/java/org/nse/thesis/wordindex/pojo/JavaWordIndex.java:136-138 | the iterator over a held word yields the full read of each of its positions, in order |
| JavaIndex.JavaWordIndex.IterateWords | src/main/java/org/nse/thesis/wordindex/pojo/JavaWordIndex.java:128-140 | iterateWords, as written, throws ClassCastException for an unknown word (the empty iterator cast to WordContextIterator, see Findings), FileNotFoundException when the file is gone, and otherwise returns an iterator over the full reads of the word's positions |
| JavaIndex.JavaWordIndex.IterateWordsIntended | src/main/java/org/nse/thesis/wordindex/pojo/JavaWordIndex.java:128-140 | iterateWords as evidently intended: while the file exists, every word, known or not, is answered by an iterator yielding exactly the full reads of its positions (none for an unknown word); a missing file throws only for a known word |
| JavaIndex.UnknownWordCastFails | src/main/java/org/nse/thesis/wordindex/pojo/JavaWordIndex.java:132-135 | a word without positions has no reads, which an empty iterator answers and the as-written cast does not |
| JavaIndex.JavaWordIndex.WordsWithContext | src/main/java/org/ns/thesis/wordindex/JavaWordIndex.java:49-73 | wordsWithContext returns the full read of every position of the normalized word, in order, none for an unknown word; the file is open afterwards exactly when it was before or the word is known |
| JavaIndex.JavaWordIndex.WordIteratorWithContext | src/main/java/org/ns/thesis/wordindex/JavaWordIndex.java:81-96 | wordIteratorWithContext, as written, throws ClassCastException for an unknown word and, after printing the stack trace, when the file cannot be opened (the empty iterator cast to WordContextIterator, see Findings), and otherwise returns an iterator over the full reads of the word's positions |
| JavaIndex.OpenJavaIndex | src/main/java/org/ns/thesis/wordindex/JavaWordIndex.java:29-37 | a missing path and only a missing path is refused, FileNotFoundException in org.nse and IllegalArgumentException in org.ns; otherwise the new index holds exactly the file's words and positions, with its file closed |

## Left out

- Closing an index, freeing native memory, `file_word_index_close_iterator`, the FFM memory session and JNA/JNI handle conversion: resource release, not modelled beyond which handle `close` passes on.
- The `IllegalStateException` that an iterator constructor throws for a NULL (closed) index handle: the model has no closed index, so every iterator is built over an open one.
- `next()` called without a preceding `true` from `hasNext()`: the iterators' `Next` methods require a pending string, so the model does not cover the buffer underflow Java would raise there.
- NativeWordIndex `wordsWithContext`'s wrapping of failures in `NativeIndexReadException` and its `finally` release of the handle: exceptions and release are not modelled; the decode and call loop is (`Frontends.CollectWords` with `legacy`).
- Common.ReadLe32, Frontends.DecodeBuffer, Frontends.DecodedEnd, Frames.Decode: Java's `ByteBuffer.getInt` is signed, so a length of 2^31 or more reads as negative; the JNI, JNA and FFM decoders then copy nothing, keep an empty string and go on, and NativeWordIndex throws. The model reads lengths unsigned and fails on such a length. The encoder never writes one: its lengths are bounded by the query buffer.
- Byte order: buffers are read as little-endian, the native order on the platforms the code targets.
- UTF-8: Java strings are modelled as their bytes, one char per byte, with ASCII character classes (`Character.isWhitespace`, `isLetterOrDigit`, `toLowerCase`, C `ispunct`/`tolower`); non-ASCII text is not modelled.
- Integer widths: positions, sizes and Java `int`s are unbounded naturals; only the 32-bit hashes (`hash`, `String.hashCode`) and the u32 frame lengths are modelled with their width.
- Short reads: `fread` and `RandomAccessFile.read` return everything the file still holds up to the request; partial reads by the OS are not modelled.
- The file changing or being deleted after indexing: only the existence checks of the constructors and `iterateWords` are modelled, as boolean inputs.
- `should_resize` compares `count / capacity > 0.75` in floating point; the model uses the equivalent integer comparison `4 * count > 3 * capacity`.
- Allocation failure is modelled only where `utils.c` reports it (`pos_vec_init`, `pos_vec_add`); other `malloc`/`calloc` calls are assumed to succeed, as `wordindex.c`'s `pos_vec_add` does.
- Debug printing, streams (`stream()`), `toString`, benchmarks and concurrency: not part of the indexing or query logic.
- DirectoryWordIndex, WhitespaceAnalyzer, the org.ns FFMWordIndex and `jwrapper.c`: outside the modelled core.
- The `int analyzer` argument that the org.nse JNI, JNA and FFM `open` bindings pass (`EnglishAnalyzer.asNative`, `Analyzers.EnglishAsNative`): the native `open` of `windex.h` and `wordindex.h` takes none and every index uses the TEXT row, so the model has no such argument.
- WordEntry's getters: the model reads the fields directly.
- NativeIndex.WordIndex.ReadContextOneByOne: requires a non-empty bucket for the normalized word, because the C code reads the bucket head's word length through NULL otherwise; that crash is not modelled.

## Findings

| source | as written | input that shows it | evidently intended | confidence | as-written member | corrected member |
|---|---|---|---|---|---|---|
| src/main/java/org/ns/thesis/wordindex/jni/JNIWordIndex.java:181-182 | JNI and JNA raise the query buffer only to 2*ctx + word length + 4 (`Integer.BYTES`), and FFM not at all, while the encoder writes a frame only when 2*ctx + word length + 8 bytes are free | a 252-byte word with LARGE_CONTEXT and the minimum 512-byte buffer, for a word with at least one stored position: `getWords` repeats one call forever and the iterator yields nothing | a buffer of at least 2*ctx + word length + 8 bytes (`single_read_size`), so every query terminates with every window | not executed | Frontends.CapacityTooSmall | Frontends.RoomyCapacityYieldsWindows |
| native/src/wordindex.c:215 | the one-by-one limit is 2*ctx + word_len + 4, which is below what the encoder's room check needs | any word with at least one stored position: each call writes only the terminator and hands back the position it was given | the limit of `windex.c`, 2*ctx + word_len + 8, so that each call writes exactly one frame | not executed | NativeIndex.OneByOneLimitStalls | NativeIndex.OneByOneLimitYieldsWindows |
| native/src/windex.c:257 | `alloc_entry_chain` copies the word with `memccpy(new_entry->word, word, sizeof(char), len)`, whose stop byte is 1, so the copy ends after the first byte 1 while `word_len` stays `len`; `wordindex.c` does the same at line 378 | a file holding the bytes 61 01 62: the entry holds 61 01, the query for 61 01 62 fails `strncmp(chain->word, word, 3)`, and each later occurrence links another entry | `memcpy(new_entry->word, word, len)`, so the entry holds the whole word | not executed | HashTable.OneByteCutsEntry | HashTable.StoredWordMatchesAgain |
| src/main/java/org/ns/thesis/wordindex/NativeWordIndex.java:300-316 | `hasNext` requires a non-NULL handle, and `next` does not read the first length after a refill | a one-byte file `"A"` holding the word once, with no context and a 512-byte buffer: the iterator yields nothing | every window, as the iterator of JNIWordIndex yields them | not executed | Iterators.LegacyMissesOneWord | Frames.IterYieldsWindows |
| src/main/java/org/nse/thesis/wordindex/pojo/JavaWordIndex.java:134 | an unknown word gets `(WordContextIterator)(Object)Collections.emptyIterator()`, and the empty iterator does not implement WordContextIterator; `wordIteratorWithContext` of org.ns does the same at lines 86 and 94 of src/main/java/org/ns/thesis/wordindex/JavaWordIndex.java | any word the indexed file does not hold: the cast throws ClassCastException instead of returning an iterator | an empty iterator of type WordContextIterator, which yields nothing, as wordsWithContext returns nothing | not executed | JavaIndex.UnknownWordCastFails | JavaIndex.JavaWordIndex.IterateWordsIntended |
