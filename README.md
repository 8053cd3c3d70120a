# A verified model of a terminfo key loader, its buffer primitives, a ChaCha cipher and a red-black tree

This project models four pieces of one repository in Dafny and proves what
each of them promises.

- **`load_terminfo.c`** reads a compiled terminfo file (the term(5) legacy
  and extended storage formats) and maps each key capability string to a
  logical key. It has four layers:
  - **The record store** (`struct info_table` and its iterator). It is an
    append-only byte arena of `{size, key, mod, string}` records that grows
    in 256-byte blocks.
  - **The matcher** `info__scanf`. It has literal, `%c`, `%p` and `%%`
    directives and decodes ECMA-48 CSI and SS3 sequences.
  - **The classifier** `info_base_add_input`. It places a sequence either
    in the 128-slot direct key table or in the record store.
  - **The driver** in `main`. It covers the header, the offset arithmetic
    and the legacy and extended capability walks over the two static key
    maps.
- **`external/basics.h`** holds the bounds-checked buffer primitives the
  loader uses:
  - alignment;
  - clipped writes;
  - byte armoring;
  - reads and 16-bit little-endian reads;
  - NUL-string skipping;
  - byte access and prefix tests;
  - the UTF-8 stride table.
- **`chacha/chacha.h`** is a ChaCha stream cipher with 12 rounds (sections
  2.1, 2.3 and 2.4 of RFC 8439 describe the 20-round variant).
  **`chacha/simple_demo.c`** is its encrypt-then-decrypt scenario.
- **`rb_tree.py`** is the `NodeRB` red-black tree: insertion with
  `_percolate`, deletion with the usurper and the four fix-up cases of
  `_delete_as_black_leaf`, and rotations.

## Files and modules

| file | module | what it holds |
|---|---|---|
| `basics.dfy` | `Basics` | `basics_*` primitives; writes on `array<Byte>`, loops as `while` |
| `chacha.dfy` | `ChaCha` | `bv32` words; class `Context` holding `state`; the block function on an array |
| `terminfo_store.dfy` | `RecordStore` | class `InfoTable` (arena `base`, `baseSize`, `baseUsed`), class `TableIterator` |
| `terminfo_scan.dfy` | `Matcher` | `info__scanf` as a cursor loop, proved against a recursive specification |
| `terminfo_classify.dfy` | `Classifier` | class `InfoBase` (direct key table as an `array`, record store); the decoding and routing specification |
| `terminfo_load.dfy` | `Loader` | the header and offsets with explicit 64-bit `size_t` wrap-around; the two walks as loops; a value-level specification `LoadSpec` |
| `terminfo_load_facts.dfy` | `LoaderFacts` | the driver's exit and stop rules, and invariants of the whole load |
| `rbtree.dfy` | `RedBlackTree` | trees as values, a zipper whose frames stand for parent links, rotations, invariants |
| `rbtree_insert.dfy` | `RedBlackInsert` | `insert_into`, `insert` and `_percolate` |
| `rbtree_delete.dfy` | `RedBlackDelete` | `delete_from`, `delete`, `_delete`, `_findusurper` and `_delete_as_black_leaf` |

The loader's I/O is replaced by parameters. The terminfo file is an
immutable byte sequence. `realloc` is modelled by a heap `limit`: growing
the arena to `n` bytes succeeds exactly when `n <= limit`.

The driver is written twice:
- as imperative methods over the `InfoBase` object (`Loader.Load`);
- as a value-level walk. The walk lists the capability strings handed to
  `info_base_add_input` (the "filings") and how the program stops.

`Load` is proved equal to `LoadSpec`. `LoadSpec` replays the filings through
the classifier's `Step`.

## Where the code and its description disagree

The model follows the code.
- A one-byte sequence such as "A" matches no pattern. It goes to the record
  store, not the direct table.
- The largest storable string is 252 bytes, so 253 bytes are rejected with
  `STRING_TOO_LONG`. This is because 3 + 252 = 255 is the largest value the
  one-byte `size` field holds.
- An allocation failure in the record store is only reported. The load goes
  on.
- An unterminated legacy string ends the program with exit code 0.
- The modcode check compares `modcode - 1` with `mod` in `int` arithmetic.
  So a captured modcode 0 can never match and is sent to the record store.

## Model

| member | source | states |
|---|---|---|
| Basics.Align | external/basics.h:33-34 | the result is a multiple of the boundary with `value <= r < value + boundary` |
| Basics.AlignIsLeast | external/basics.h:33-34 | no multiple of the boundary at or above `value` is smaller than the result |
| Basics.AlignIdempotent | external/basics.h:33-34 | aligning an aligned value changes nothing |
| Basics.Utf8Stride | external/basics.h:138-170 | every table entry is one of -1, 0, 1, 2, 3, 4, and bytes 0x00-0x7e have stride 1 |
| Basics.Utf8StrideRanges | external/basics.h:152-167 | the table as written, as six byte ranges: 1 up to 0x7e, -1 up to 0xbe, 2 up to 0xde, 3 up to 0xee, 4 up to 0xf6, 0 above |
| Basics.Utf8StrideTableOffByOne | external/basics.h:141-167 | the table differs from the bit patterns its comment describes exactly at 0x7f, 0xbf, 0xdf, 0xef and 0xf7 |
| Basics.Utf8StrideIntended | external/basics.h:141-150 | the stride the comment describes, stated as an if-and-only-if per leading-bit pattern |
| Basics.ClipWriteAt | external/basics.h:173-214 | a clipped write puts `data[i - position]` at every in-buffer index it covers and leaves every other byte alone |
| Basics.ClipWriteAppend | external/basics.h:228-269 | writing `x` and then `y` right after it is the same as writing `x + y`, which is how `armor_byte` builds `\x` plus two digits |
| Basics.GuardIndex | external/basics.h:186-196 | the guard byte lands at `position` when it fits, else at `size - 1` |
| Basics.WriteByte | external/basics.h:173-183 | returns 1 and writes the byte only when `position < size` |
| Basics.WriteGuard | external/basics.h:186-196 | returns 1 and always writes the byte, clamped to the last cell |
| Basics.WriteString | external/basics.h:199-214 | returns `length` and writes the in-buffer part, nothing when `position >= size` |
| Basics.WriteLiteral | external/basics.h:217-225 | writes the literal without its NUL and returns its length |
| Basics.ArmorTextShape | external/basics.h:228-269 | a printable byte 0x21-0x7e stays itself; 0x07, 0x08, 0x09, 0x0a, 0x0b, 0x0c, 0x0d and 0x1b become a backslash and `a`, `b`, `t`, `n`, `v`, `f`, `r` and `e`; any other byte becomes `\x` and the two lower-case hex digits of its high and low nibble, which read back as the byte |
| Basics.ArmorTextPrintable | external/basics.h:228-269 | the armored form of any byte consists of printable bytes only |
| Basics.ArmorTextInjective | external/basics.h:228-269 | different bytes armor differently |
| Basics.ArmorAllNotInjective | external/basics.h:272-288 | armoring whole strings is not injective: the bytes `\` `n` and a newline give the same text |
| Basics.ArmorByte | external/basics.h:228-269 | returns the armored length (1, 2 or 4) and writes the armored text with clipping |
| Basics.ArmorAllPrintable | external/basics.h:272-288 | the armored form of a string consists of printable bytes only |
| Basics.ArmorString | external/basics.h:272-288 | returns the sum of the armored lengths plus 1; the buffer holds the clipped armored text with a NUL at the guard position |
| Basics.ArmorStringTerminated | external/basics.h:272-288 | after armoring into a non-empty buffer, the first `min(end, size-1)` bytes are the armored prefix, free of NUL, followed by a NUL |
| Basics.Read | external/basics.h:291-308 | returns `unit * count`; copies the region only when it lies inside the source, and leaves `out` untouched otherwise |
| Basics.Word16Le | external/basics.h:323-326 | the low byte comes first: `w % 256 == lo` and `w / 256 == hi` |
| Basics.Read16Le | external/basics.h:311-336 | on a little-endian host word `i` is `b[p+2i] + 256*b[p+2i+1]`; out of bounds nothing changes |
| Basics.BigEndianSwapAsWrittenIsWrong | external/basics.h:327-332 | the big-endian branch as written turns bytes 00 01 into 0x0002 instead of 0x0100 |
| Basics.NulSkipMeaning | external/basics.h:339-362 | 0 exactly when `position >= size` or no NUL follows; otherwise `position + k - 1` is the first NUL at or after `position` |
| Basics.SkipString | external/basics.h:339-362 | the loop computes `NulSkip` |
| Basics.GetByte | external/basics.h:365-371 | the byte in 0..255 inside the buffer, -1 exactly when `position >= size` |
| Basics.HasPrefix | external/basics.h:382-394 | false whenever `position + length > size`; on a NUL-free region, true exactly when the region equals the prefix |
| Basics.StrnEqNoNul | external/basics.h:382-394 | `strncmp` over NUL-free bytes is plain equality of the first `n` bytes |
| Basics.StrnEqStopsAtNul | external/basics.h:392-393 | `strncmp` never looks past a NUL inside the first `n` bytes of its second string: two strings agreeing through that NUL give the same result |
| ChaCha.RotateLeft32 | chacha/chacha.h:18-23 | rotation by a multiple of 32 is the identity |
| ChaCha.RotateLeft32Masked | chacha/chacha.h:18-23 | only `c mod 32` matters |
| ChaCha.RotateLeft32IsRotation0 | chacha/chacha.h:18-23 | for `c < 8` the shift pair is a true 32-bit left rotation (the three lemmas for 8-31 state the same) |
| ChaCha.RotateLeft32IsRotation8 | chacha/chacha.h:18-23 | for `8 <= c < 16` the shift pair is a true 32-bit left rotation |
| ChaCha.RotateLeft32IsRotation16 | chacha/chacha.h:18-23 | for `16 <= c < 24` the shift pair is a true 32-bit left rotation |
| ChaCha.RotateLeft32IsRotation24 | chacha/chacha.h:18-23 | for `24 <= c < 32` the shift pair is a true 32-bit left rotation |
| ChaCha.BytesOfWordRoundTrip | chacha/chacha.h:25-39 | reading back the four little-endian bytes of a word gives the word |
| ChaCha.WordOfBytesRoundTrip | chacha/chacha.h:25-39 | writing out a word read from four bytes gives those bytes |
| ChaCha.U32ToU8Le | chacha/chacha.h:25-31 | writes the four little-endian bytes at `at` and nothing else |
| ChaCha.QuarterRoundTestVector | chacha/chacha.h:41-51 | the quarter round maps the test vector of section 2.1.1 of RFC 8439 to its expected output |
| ChaCha.QuarterRoundAtWords | chacha/chacha.h:41-51 | on four distinct indices, the four words become the quarter round of the four and no other word changes |
| ChaCha.QuarterRoundStepsDistinct | chacha/chacha.h:41-51 | the step-by-step in-place updates equal the quarter round when the indices are distinct |
| ChaCha.QuarterRoundInPlace | chacha/chacha.h:41-51 | the array after the in-place updates is the step-by-step result, which is the quarter round for distinct indices |
| ChaCha.DoubleRoundInPlace | chacha/chacha.h:61-72 | one pass of the round loop is a column round and then a diagonal round over the fixed lanes |
| ChaCha.BlockN | chacha/chacha.h:53-83 | for even `n` in 8..20 the output is `n/2` double rounds of a copy, added word-wise to the input and serialised little-endian |
| ChaCha.RoundsAppend | chacha/chacha.h:61-72 | running two round schedules back to back is running their concatenation |
| ChaCha.ScheduleStep | chacha/chacha.h:61-72 | `k` double rounds are one double round followed by `k - 1` more |
| ChaCha.AddStates | chacha/chacha.h:74-77 | word `i` is the 32-bit sum of the two inputs' word `i` |
| ChaCha.SerializeIndex | chacha/chacha.h:79-82 | byte `p` of the serialised words is byte `p % 4` of word `p / 4` |
| ChaCha.InitialStateConstants | chacha/chacha.h:85-103 | words 0-3 are "expand 32-byte k" read little-endian, and word 12 is 0 |
| ChaCha.InitialStateKey | chacha/chacha.h:94-101 | words 4-11 are the key read little-endian |
| ChaCha.InitialStateNonce | chacha/chacha.h:104-106 | words 13-15 are the nonce read little-endian |
| ChaCha.Context.XInit | chacha/chacha.h:87-107 | the state becomes the initial state of the key and nonce |
| ChaCha.AdvanceKeepsKey | chacha/chacha.h:117 | advancing the block counter changes no word but word 12 |
| ChaCha.XorBytes | chacha/chacha.h:119-122 | byte `i` of the output is key-stream byte `i` XOR input byte `i`, for every input byte |
| ChaCha.KeyStreamSnoc | chacha/chacha.h:113-126 | the key stream of `b + 1` blocks is that of `b` blocks followed by the block of the counter advanced `b` times |
| ChaCha.XorInvolution | chacha/chacha.h:119-122 | XOR with the same key stream twice gives back the input |
| ChaCha.BlocksFor | chacha/chacha.h:113-126 | the number of blocks for `n` bytes is the least `b` with `64 * b >= n` |
| ChaCha.Context.Xor | chacha/chacha.h:109-127 | `out[..n]` is the input XOR the key stream of `BlocksFor(n)` blocks; the counter advances once per block; nothing past `n` in `out` changes |
| ChaCha.RemainingAfterBlockAsWrittenNeverStops | chacha/chacha.h:113-126 | for a final partial block of `0 < m < 64` bytes the as-written update wraps to a huge non-zero count |
| ChaCha.Context.Erase | chacha/chacha.h:129-140 | all 16 state words are zero |
| ChaCha.SimpleDemo | chacha/simple_demo.c:19-23 | the first ciphertext is the first key-stream block XOR the secret; the second uses the next block; decrypting with a fresh state gives back the secret |
| RecordStore.EncodeSnoc | load_terminfo.c:110-147 | appending a record appends its header and bytes to the arena image |
| RecordStore.EncodeAt | load_terminfo.c:181-198 | record `i` sits in the arena at the sum of the earlier records' sizes |
| RecordStore.StringLength | load_terminfo.c:87-92 | for a well-formed record, `size - 3` computed in `size_t` is the number of stored string bytes |
| RecordStore.StrncpyBytes | load_terminfo.c:165 | the copy keeps bytes before the first NUL and zeroes from it on |
| RecordStore.StrncpyNoNul | load_terminfo.c:165 | a NUL-free string is copied unchanged |
| RecordStore.AddSpecTooLong | load_terminfo.c:120-124 | `STRING_TOO_LONG` exactly when the string has more than 252 bytes |
| RecordStore.AddSpecFailureUnchanged | load_terminfo.c:120-146 | any failure leaves records, size and use unchanged |
| RecordStore.AddSpecGrowth | load_terminfo.c:125-146 | success appends exactly the new record, grows use by `3 + length`, grows the size only when it is below `align(used + entry, 256)`, and keeps the size a multiple of 256 above use |
| RecordStore.AddSpecNoMemory | load_terminfo.c:125-133 | `NO_MEMORY` exactly when the string fits, growth is needed and the heap limit is below the desired size |
| RecordStore.InfoTable.constructor | load_terminfo.c:94-99 | a new table has no records, size 0 and use 0 |
| RecordStore.InfoTable.Append | load_terminfo.c:110-147 | status, new fields and old contents as above; the record's size byte is written at the old end |
| RecordStore.InfoTable.Add | load_terminfo.c:149-169 | status and new state are those of `AddSpec` |
| RecordStore.TableIterator.constructor | load_terminfo.c:171-179 | the iterator starts at offset 0 of the given table |
| RecordStore.TableIterator.Next | load_terminfo.c:181-198 | returns the records in insertion order, and none once the end is reached, without moving |
| RecordStore.ReadRecord | load_terminfo.c:181-198 | the record read at each offset carries the size, key, mod and bytes that were stored, and the next offset is its end |
| RecordStore.DumpEntries | load_terminfo.c:429-445 | iterating the table from the start yields exactly its records |
| Matcher.ScanDigits | load_terminfo.c:294-312 | `%p` reads decimal digits: without overflow it stops at the first non-digit with a value of at most 255; with overflow it stopped at a digit that took the value past 255 |
| Matcher.ScanFrom | load_terminfo.c:240-325 | the consumed count stays within the input and captures are only appended |
| Matcher.Scanf | load_terminfo.c:218-326 | the loop returns the count and captures of the recursive specification: consumed bytes on success, 0 on failure |
| Matcher.ScanDecimal | load_terminfo.c:294-312 | `%p` over the decimal spelling of a byte, followed by a non-digit or the end, reads that byte back |
| Matcher.ScanTwoDigits | load_terminfo.c:294-312 | two digits spelling `10 <= v < 100` read back as `v` |
| Matcher.ScanThreeDigits | load_terminfo.c:294-312 | three digits spelling `v >= 100` read back as `v` |
| Matcher.ScanDigitsPrefix | load_terminfo.c:302-310 | the digit loop on a prefix of the input ends where it ends on the whole input, or at the cut when the run goes past it |
| Matcher.PrefixDoesNotMatch | load_terminfo.c:240-325 | if a format whose last directive is not `%p` matches up to the end of the input, the match fails on any shorter prefix |
| Matcher.FullMatchOnly | load_terminfo.c:347-379 | when a format whose last directive is not `%p` consumes a whole sequence, it does not consume the whole of any shorter prefix of it |
| Classifier.Decode | load_terminfo.c:347-382 | the seven patterns are tried in order, and the result is the first full match's codes |
| Classifier.Attempt | load_terminfo.c:347-379 | one pattern counts only when it consumes the whole sequence, and then it gives its captured codes |
| Classifier.MatchUnfold | load_terminfo.c:347-379 | the fixed order of the seven patterns, first full match wins |
| Classifier.MatchSpell | load_terminfo.c:347-379 | every unambiguous CSI or SS3 spelling decodes to the key and modifier it spells |
| Classifier.MatchCsiTildeMod | load_terminfo.c:347-358 | `ESC [ k ; m ~` gives keycode `k - 1` and modcode `m` |
| Classifier.MatchCsiTilde | load_terminfo.c:349-358 | `ESC [ k ~` gives keycode `k - 1` and no modcode |
| Classifier.MatchCsiModChar | load_terminfo.c:362-363 | `ESC [ 1 ; m c` gives keycode `c` with modcode `m`, with no decrement |
| Classifier.MatchSs3ModChar | load_terminfo.c:365-366 | `ESC O 1 ; m c` gives keycode `c` with modcode `m` |
| Classifier.MatchSs3ParamChar | load_terminfo.c:368-369 | `ESC O m c` gives keycode `c` with modcode `m` |
| Classifier.MatchCsiChar | load_terminfo.c:370-371 | `ESC [ c` gives keycode `c` and no modcode |
| Classifier.MatchSs3Char | load_terminfo.c:372-373 | `ESC O c` gives keycode `c` and no modcode |
| Classifier.Mismatch | load_terminfo.c:280-284 | a verbatim format byte that differs from the input byte ends the match with a bad-match status |
| Classifier.OutOfInput | load_terminfo.c:272-275 | a format not yet exhausted when the input runs out never matches |
| Classifier.LastByteParameter | load_terminfo.c:272-312 | a `%p` on the last input byte with more format after it never matches |
| Classifier.RouteCsiTilde | load_terminfo.c:347-386 | `ESC [ k ~` goes to slot `k - 1` when `1 <= k <= 128`, else to the record store |
| Classifier.RouteCsiModChar | load_terminfo.c:362-399 | `ESC [ 1 ; m c` goes to slot `c` when `c < 128` and the modcode is unset or `m - 1 == mod`, else to the record store |
| Classifier.AssertsHoldSpell | load_terminfo.c:334-382 | a spelled sequence passes the function's assertions exactly when its keycode is not 255 |
| Classifier.ControlUpScenario | load_terminfo.c:362-399 | `ESC [ 1 ; 5 A` with the control modifier goes to slot 0x41, and with modifier 0 to the record store |
| Classifier.CsiTildeScenarios | load_terminfo.c:347-386 | `ESC [ 5 ~` goes to slot 4, and `ESC [ 200 ~` goes to the record store |
| Classifier.ZeroParameterScenario | load_terminfo.c:347-382 | `ESC [ 0 ~` wraps the keycode to 255 and fails the assertion |
| Classifier.ShortSequenceStored | load_terminfo.c:347-379 | a one- or two-byte sequence matches nothing and goes to the record store |
| Classifier.InfoBase.AddInput | load_terminfo.c:328-426 | status and new state (key table and record store) are those of `Step` |
| Classifier.InfoBase.constructor | load_terminfo.c:200-207 | a new base is the initial state: 128 unset slots and an empty store |
| Classifier.InitialInvariant | load_terminfo.c:200-207 | the fresh base has 128 unset slots and an empty, well-formed store |
| Classifier.StepPreservesInvariant | load_terminfo.c:328-426 | each call keeps the key table at 128 slots and the store well-formed |
| Classifier.StepDirect | load_terminfo.c:401-415 | on the direct path: collision exactly when the slot holds another key, and then nothing changes; otherwise the slot holds the key and the status is OK |
| Classifier.StepDirectIdempotent | load_terminfo.c:401-415 | adding the same direct sequence twice changes nothing the second time |
| Classifier.StepStore | load_terminfo.c:379-422 | on the store path the key table is untouched and a failure changes nothing |
| Classifier.StepStoreAppends | load_terminfo.c:421-422 | on the store path a success appends exactly one record, a duplicate included |
| Loader.NumberWidth | load_terminfo.c:576-588 | magic 0432 gives two-byte numbers, 01036 four-byte, and anything else none |
| Loader.Int16Wraps | load_terminfo.c:550-557 | the int16 read of a stored word and its `size_t` conversion are the word modulo 2^16 |
| Loader.ReadHeader | load_terminfo.c:559-566 | no header when the file is shorter than 12 bytes, else the six little-endian words |
| Loader.ReadExtHeader | load_terminfo.c:794-803 | no extended header when fewer than 10 bytes follow its offset, else the five little-endian words |
| Loader.IndexTableOffsetEven | load_terminfo.c:692-702 | the index table offset is even, as the source asserts |
| Loader.ExtStringTableOffsetEven | load_terminfo.c:900-910 | the extended string table offset is even and never `(size_t) -1` |
| Loader.PlainOffsets | load_terminfo.c:692-710 | for non-negative counts the offsets are the plain sums `align(12 + names + booleans, 2) + width * numbers` and `+ 2 * entries` |
| Loader.LookupLegacy | load_terminfo.c:715-754 | one legacy map entry is looked up exactly as `LegacyLookup` says: skipped by one of the four bounds rules, an unterminated string, or the string found |
| Loader.LoadLegacy | load_terminfo.c:714-768 | the key base afterwards is the replay of the legacy walk's filings, and the loop stops as the walk does |
| Loader.LegacyLoop | load_terminfo.c:714-768 | the same from any map entry on |
| Loader.LegacyEntry | load_terminfo.c:715-767 | one pass of the legacy loop extends the filings as the walk does |
| Loader.SkipStringsLoop | load_terminfo.c:926-935 | the skip loop over `strings + booleans + numbers` counts skips `SkipStrings` |
| Loader.ReadCapability | load_terminfo.c:940-973 | one extended value/name pair is read, or the walk ends: a missing value is truncation, a missing name is a plain end |
| Loader.MatchNames | load_terminfo.c:980-995 | the name loop files the value once for every map entry with that name |
| Loader.MatchEntry | load_terminfo.c:980-995 | one pass of the name loop |
| Loader.WalkExtended | load_terminfo.c:939-996 | the key base afterwards is the replay of the extended walk's filings |
| Loader.LoadExtended | load_terminfo.c:775-996 | the key base afterwards is the replay of the extended phase's filings (no section when the file ends at the aligned legacy end, EXIT_BAD on a short extended header, otherwise the walk), and the method stops as the phase does |
| Loader.LoadTables | load_terminfo.c:692-996 | the legacy walk, then the extended phase unless the legacy walk stopped |
| Loader.Load | load_terminfo.c:548-1015 | outcome and key base are those of `LoadSpec` on the same bytes and heap limit |
| Loader.ReplayAppend | load_terminfo.c:714-996 | replaying two runs of filings is replaying one after the other |
| Loader.ThenAssociative | load_terminfo.c:714-996 | sequencing walks is associative |
| LoaderFacts.ShortFileExitsBad | load_terminfo.c:559-566 | a file shorter than 12 bytes exits with EXIT_BAD and files nothing |
| LoaderFacts.UnknownMagicExitsBad | load_terminfo.c:576-588 | an unknown magic exits with EXIT_BAD and files nothing |
| LoaderFacts.NoExtendedSection | load_terminfo.c:775-779 | when the file ends at the aligned legacy end, the extended phase files nothing and does not stop the program |
| LoaderFacts.LoadKeepsInvariant | load_terminfo.c:548-1015 | after any load the key table has 128 slots and the store is well-formed |
| LoaderFacts.LoadWalkAdmissible | load_terminfo.c:334-382 | the driver never hands `info_base_add_input` a string that fails its assertions |
| LoaderFacts.LegacyFromStep | load_terminfo.c:715-767 | one legacy entry is skipped, stops the walk with nothing filed, or files one string that passes the assertions |
| LoaderFacts.LegacyFromHalts | load_terminfo.c:750-754 | the legacy walk leaves the program only through an unterminated string (exit code 0) or an assertion |
| LoaderFacts.ExtendedPhaseHalts | load_terminfo.c:770-996 | the extended phase leaves the program only with EXIT_BAD or through an assertion |
| LoaderFacts.NoEntriesNoLegacyFilings | load_terminfo.c:716-719 | with no string table entries every legacy capability is skipped |
| LoaderFacts.LegacyFilingsBound | load_terminfo.c:714-768 | the legacy walk calls `info_base_add_input` at most once per map entry |
| LoaderFacts.ReadRefusedAsWritten | external/basics.h:298-300 | the C check `size < position + bytes` with a wrapping sum: the plain comparison while the sum stays below 2^64, and never a refusal when the sum is exactly 2^64 |
| LoaderFacts.WrappedIndexReadPassesCheck | load_terminfo.c:692-732 | a legacy header with `names_size` -124 and 56 string entries puts the BACKSPACE entry 55 at 2^64 - 2, where the wrapped check lets a two-byte read through for every buffer size, although the read is past its end |
| LoaderFacts.LegacyLookupReadsInBounds | load_terminfo.c:715-732 | a legacy lookup that is not skipped read its index entry inside the file |
| LoaderFacts.WrappedIndexReadSkipped | load_terminfo.c:721-732 | with that header, entry 55 is skipped as out of file bounds for every file shorter than 2^64 bytes |
| LoaderFacts.UnterminatedValueExitsBad | load_terminfo.c:948-955 | an unterminated extended value string exits with EXIT_BAD |
| LoaderFacts.UnterminatedNameEndsLoop | load_terminfo.c:962-970 | an unterminated extended name ends the loop without error |
| LoaderFacts.NameKeyModEntry | load_terminfo.c:827-898 | the name map holds each key stem with the suffixes none, `3`, `4`, `5`, `6`, `7` in that order, suffix `i` giving modifier `i + 1` |
| RedBlackTree.JoinFacts | rb_tree.py:318-323 | linking two subtrees under a node: balanced and red-red-free exactly when the parts are and agree, with the expected black height |
| RedBlackTree.Climb | rb_tree.py:43-45 | the loop that follows parents ends at the root of the whole tree |
| RedBlackTree.PlugInorder | rb_tree.py:304-323 | a subtree plugged back into its path contributes its values between those to its left and right |
| RedBlackTree.PlugBalanced | rb_tree.py:304-323 | the whole tree is balanced exactly when the subtree is and the path's siblings match its black height |
| RedBlackTree.PlugNoRedRed | rb_tree.py:304-323 | the whole tree has no red-red link exactly when the subtree and the path have none |
| RedBlackTree.WholeRedBlack | rb_tree.py:237-287 | the red-black property of the whole tree, split into the focus and its path |
| RedBlackTree.DownWhole | rb_tree.py:71-79 | stepping into a child keeps the whole tree and shrinks the focus |
| RedBlackTree.Rotate | rb_tree.py:290-302 | a rotation toward a side lifts the child on the other side |
| RedBlackTree.RotateInorder | rb_tree.py:290-302 | rotation keeps the in-order sequence |
| RedBlackTree.RotateBack | rb_tree.py:290-302 | rotating back the other way restores the tree |
| RedBlackInsert.InsertSortedMeaning | rb_tree.py:71-79 | inserting into a sorted sequence keeps it sorted and adds exactly one `v` |
| RedBlackInsert.InsertSortedSplit | rb_tree.py:71-79 | `v` lands after everything smaller and before everything at least as large, so equal values go left |
| RedBlackInsert.DescendStep | rb_tree.py:71-76 | going left on `v <= value` and right otherwise keeps `v` between the values on either side of the focus |
| RedBlackInsert.HangInfant | rb_tree.py:77-79 | a red leaf for `v` hung at the empty child gives the sorted insertion and a tree ready to percolate |
| RedBlackInsert.PushBlackFacts | rb_tree.py:255-260 | the red-uncle recolouring gives a red grandparent with black children, balanced, one black level higher, same values |
| RedBlackInsert.RestructureFacts | rb_tree.py:264-272 | the black-uncle rotations and recolouring give a black, balanced, red-red-free subtree with the same values |
| RedBlackInsert.Percolate | rb_tree.py:237-287 | from a red node whose only possible fault is a red parent, the whole tree becomes red-black with the same values; at the root it is painted black |
| RedBlackInsert.Insert | rb_tree.py:71-79 | the tree stays red-black and its in-order sequence gains `v` in sorted position |
| RedBlackInsert.InsertInto | rb_tree.py:37-46 | from a valid tree, a valid tree whose values are the old ones with `v` inserted; the empty tree becomes one black node |
| RedBlackDelete.RemoveOneMeaning | rb_tree.py:81-117 | removing `v` takes away exactly one `v` when there is one and changes nothing otherwise |
| RedBlackDelete.RemoveOneSorted | rb_tree.py:81-117 | removal keeps a sorted sequence sorted |
| RedBlackDelete.RemoveAt | rb_tree.py:81-85 | in a sorted sequence, removing the `v` found at any index is removing the first `v` |
| RedBlackDelete.FindUsurper | rb_tree.py:229-235 | the leftmost node of the right subtree when there is one, else the rightmost node of the left subtree; its value is the first of the right subtree's values, or the last of the left's |
| RedBlackDelete.Usurp | rb_tree.py:104-110 | copying the usurper's value into the node and moving to the usurper keeps the tree red-black; removing the new focus's value then leaves the same values as removing the old focus's value |
| RedBlackDelete.RedShape | rb_tree.py:95-98 | in a red-black tree a red node has zero or two children and a parent |
| RedBlackDelete.RedLeafFacts | rb_tree.py:99-103 | unlinking a red leaf keeps the tree red-black and removes exactly its value |
| RedBlackDelete.DeleteNode | rb_tree.py:90-117 | the tree stays red-black and loses exactly the focus's value |
| RedBlackDelete.UnlinkFacts | rb_tree.py:128-131 | removing a black leaf leaves a tree one black node short on the leaf's side |
| RedBlackDelete.PassUpFacts | rb_tree.py:178-181 | painting the black sibling red moves the shortage one level up with the same values |
| RedBlackDelete.Case1Facts | rb_tree.py:187-201 | a red sibling: the rotation and recolouring, followed by case 2, 3 or 4, repair the shortage under a black top |
| RedBlackDelete.Case2Facts | rb_tree.py:203-206 | a red parent with black nephews: swapping parent and sibling colours repairs the shortage |
| RedBlackDelete.Case3Facts | rb_tree.py:208-217 | a red near nephew: the rotation at the sibling, followed by case 4, repairs the shortage and keeps the top colour |
| RedBlackDelete.Case4Facts | rb_tree.py:219-224 | a red far nephew: the rotation at the parent and recolouring repair the shortage and keep the top colour |
| RedBlackDelete.RepairFacts | rb_tree.py:183-224 | whichever case the loop stopped at, the repair makes the subtree whole again |
| RedBlackDelete.DeleteAsBlackLeaf | rb_tree.py:119-226 | removing a black leaf keeps the tree red-black and removes exactly its value; the last node leaves the empty tree |
| RedBlackDelete.SearchDown | rb_tree.py:81-88 | searching left for a smaller value, or right for a larger one, removes from the whole what is removed from that child |
| RedBlackDelete.SearchMiss | rb_tree.py:81-88 | a search that stops at a missing child means `v` is not in the subtree |
| RedBlackDelete.Delete | rb_tree.py:81-88 | the tree stays red-black and loses exactly one `v` from the focus's subtree, and nothing changes when there is none |
| RedBlackDelete.DeleteFrom | rb_tree.py:48-56 | from a valid tree, a valid tree with one `v` removed; unchanged when `v` is absent; empty after deleting the only value |

## Left out

- I/O in `load_terminfo.c` is not modelled: `load_file`, `TERM`, `argv`, `getenv` and the path `snprintf`. The file arrives as a byte sequence.
- Printing is not modelled: the `printf`/`fprintf` diagnostics, the armored echo of each capability, and `dump_table`'s printing. `dump_table`'s walk is `RecordStore.DumpEntries`.
- `info_base_decommission`, `info_table_decommission` and `free` release memory only, which a value model does not track.
- Pointers are not modelled. `realloc` relocation, `struct info_entry *` and `basics_memory_get_address` become offsets into sequences.
- The heap is a parameter: `realloc` succeeds exactly when the requested size is at most `limit`. Bytes a successful `realloc` adds are zero in the model and indeterminate in C; nothing reads them before they are written.
- RecordStore.InfoTable.Append: the `3 + length` sum is not wrapped at 2^64, because a string held as a sequence cannot be that long.
- Loader: every offset sum wraps at 2^64 as in C, except the bounds checks `size < position + bytes` (external/basics.h:299 and 319, load_terminfo.c:728). Those are made on unbounded numbers. In C the sum wraps when `position` lies within `bytes` of 2^64, the check passes and the read runs outside the buffer, which is undefined behaviour; the model refuses such a read instead, so the legacy lookup skips the capability. The finding below shows a header that reaches this.
- Matcher.Scanf: for a `%` followed by anything but `c`, `p` or `%`, the source asserts at load_terminfo.c:263 and so aborts in a build with assertions. The model follows the build without assertions, in which `info__scanf` returns 0 with status `BadFormat`. The seven fixed formats of the classifier contain no such directive.
- A failed `info_base_add_input` outcome is only printed. The model keeps the state it leaves and goes on, as the code does.
- `ESC [ 0 ~` wraps the keycode to 255 and aborts at the assertion. The model reports this as an `AssertionFailure` outcome. Empty strings do the same through `length != 0`.
- `KEY_UNKNOWN` (255) is the same value as the unset slot marker. The model has one value `Unset` for both.
- The negative-count warnings in the header are only printed. Negative counts flow through the wrapping offset arithmetic as in C.
- The extended walk is modelled as "read every value/name pair, then file them". The source interleaves reading and filing. The order of filings and the stop conditions are the same.
- `basics_memory_get_endianness` is a host probe and is not modelled. The model assumes a little-endian host; the big-endian branch is kept only as a finding.
- `basics_length_of` is a `sizeof` macro; the model uses sequence lengths instead.
- The volatile-pointer trick in `chacha_erase` is a compiler barrier and is not modelled. Only its effect, all words zero, is.
- ChaCha.Context.Xor handles any length with `m -= len`; the as-written `m -= 64` is the finding below.
- ChaCha.Context.Xor: after 2^32 blocks the source leaves the counter to the user. The model does what the C does: word 12 is a `bv32` that wraps modulo 2^32 like `uint32_t`, with no carry into word 13 (chacha/chacha.h:117). That this repeats the key stream is not stated as a property.
- The helper methods `ColumnRoundInPlace`, `DiagonalRoundInPlace`, `AddInPlace`, `StoreWords`, `XorWholeBlock` and `XorBlock` split source loops for proof; they are not separate source functions.
- rb_tree.py is modelled on values. Its node objects with `parent` and `children` links become an immutable tree plus a zipper, whose frames (colour, value, side, sibling) stand for the parent chain. So node identity, aliasing and in-place link updates are not modelled.
- RedBlackTree.Rotate: that `_rotate` keeps `parent` and `children` links mutually consistent, including the old parent's link, is not stated. In the value model those links cannot disagree.
- `_siblingof`, `_sideof` and `_adopt` are not modelled separately. Their identity comparisons and link writes are subsumed by a frame's `side` and `sibling` and by `Join`.
- `delete_from` and `insert_into` return whatever node survives and then climb to its root. The model returns only the root.
- The source's `assert` statements in `_delete`, `_rotate` and the fix-up become facts that are proved, such as RedShape and Case1Facts, rather than checks.
- The curses visualiser (`VisualRB`, `CursesWindowWrapper`, `Program`) and `random` are not modelled. They are UI.
- arenas.c, py/diamond_mro.py and the metal_graphics headers are not part of this model. They hold OS calls, printing, and declarations without bodies.

## Findings

| source | as written | input that shows it | evidently intended | confidence | as-written member | corrected member |
|---|---|---|---|---|---|---|
| external/basics.h:327-332 | the big-endian swap shifts by 1 bit | bytes 00 01 give 0x0002 | a shift by 8, giving 0x0100 | not executed | Basics.BigEndianSwapAsWrittenIsWrong | Basics.Word16Le |
| external/basics.h:152-167 | the UTF-8 stride table's class boundaries sit one byte early | 0x7f gives -1; 0xbf gives 2; 0xdf gives 3; 0xef gives 4; 0xf7 gives 0 | the classes its comment describes (0x7f gives 1, 0xbf gives -1, and so on) | not executed | Basics.Utf8StrideTableOffByOne | Basics.Utf8StrideIntended |
| chacha/chacha.h:123 | `m -= 64` after a final partial block | n = 65: after the first block m = 1, then `m -= 64` wraps to 2^64 - 63 and the loop runs on | `m -= len`, ending the loop after the partial block | not executed | ChaCha.RemainingAfterBlockAsWrittenNeverStops | ChaCha.Context.Xor |
| load_terminfo.c:721-732 | the bounds checks `size < position + bytes` here and at external/basics.h:299 and 319 wrap at 2^64 | legacy magic, `names_size` -124, no booleans or numbers, 56 string entries: entry 55 is at 2^64 - 2, `position + 2` wraps to 0, and the read runs past the buffer | refuse the read, as the check intends; the legacy loop skips the entry | not executed | LoaderFacts.WrappedIndexReadPassesCheck | LoaderFacts.WrappedIndexReadSkipped |
