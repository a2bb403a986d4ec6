# Verified model of the framework's core utilities

This project models the parts of `cFrameworkToServer/utils` whose correctness is hardest to see, and proves what they are
for: the incrementally rehashed dictionary with its stateless scan and safe iterators (`basic_struct/dict.c`), the JSON
parser, printers and minifier (`c_json.c`), the red-black tree's rebalancing (`basic_struct/rtree.c`), the event loop's timers
and file events (`event/ae.c`, `ae_epoll.c`, `ae_select.c`), the doubly linked list (`basic_struct/list.c`) and the block pool
(`memory_pool.c`).

`dafny verify dfyconfig.toml` checks everything.

## How it is organised

Each component has two layers. A value layer (functions over immutable states) says what every operation does and carries the
theorems about whole runs. An imperative layer (classes over heap nodes and arrays, with the loops of the C code) is proved,
method by method, to compute exactly those functions.

| component | value layer | imperative layer |
|---|---|---|
| dictionary | `DictModel`, `DictInvariant`, `DictRuns`, `DictAmount`, `ScanModel`, `ScanTheory`, `ScanOnce`, `ScanShrink`, `SafeIteration` | `Dict`, `DictIterator` |
| 64-bit words | `Words` | `Words.Rev` |
| JSON | `JsonText`, `JsonParse`, `JsonRoundTrip`, `JsonString`, `JsonSyntax`, `JsonAccept`, `JsonSound`, `JsonConforms`, `JsonLayout`, `JsonMinify`, `JsonComments` | `JsonReader`, `JsonBuffer`, `JsonWriter`, `JsonMinify` |
| red-black tree | `RbShape`, `RbBalance`, `RbRemove` | `RbTree` |
| event loop | `Timers`, `TimerEffects`, `Files` | `EventTimers`, `EventFiles` |
| list, pool | | `LinkedList`, `MemoryPool` |

* **Dictionary.** A state is two tables of chains, `rehashidx`, `iterators` and the resize switch. The invariant (`Inv`) says
  that keys are unique across both tables, that each entry lies in bucket `hash & mask`, that the buckets below `rehashidx` are
  empty and that `used` counts the entries. The hash is any fixed function of the key. Table sizes are at most 2^31 and an
  insertion is made with fewer than 2^30 keys there, because the code narrows hashes to `unsigned int` and indices to `int`.
  Runs, scans and iterations may be of any length.
* **Scan.** A cursor is a 64-bit word. A call emits every entry whose hash, reversed, lies between the reversed cursor and the
  reversed next cursor; that interval is what survives a doubling of the table between two calls.
* **JSON.** Texts are byte strings without NUL. One printing function with a `fmt` flag stands for both layouts. The parser's
  functions report `Malformed` for the literals after which the C code reads on without a definite meaning. `JsonSyntax` is a
  grammar written down apart from parser and printer: trees of tokens with everything that stands between them, their text and
  their meaning. What the parser takes, what the printers write and what the minifier leaves are all stated in it.
* **Red-black tree.** Methods are followed through one map from nodes to fields; a tree is seen from a place in it (`Holds`), so
  that rotations and colour changes are stated locally and carry over to the whole tree.
* **Timers.** A pass is a sequence of turns, one per timer that was on the list when it began. What the callbacks do (any
  sequence of creations and deletions), what they return and what the clock reads are inputs.
* **File events.** The kernel's interest set (epoll) and the two descriptor sets (select) are part of the state.

## Findings

* Calls of `dictScan` while a migration is under way visit the expansions of a bucket in ordinary, not reversed, order. Of the
  present keys a call emits exactly those that are in the smaller table's bucket, or in the larger table with the bits between
  the two masks not below the cursor's (`ScanTheory.EmittedExactlyWhen`). That is all that is left of the bucket exactly when
  these bits of the cursor are ones followed by zeros (`ScanTheory.ExpansionsCoverExactlyWhen`); a cursor with none of them set
  is such a cursor, and a scan whose smaller mask never decreases never has another. Shrinking does make others: in
  `ScanShrink.ShrinkMisses` a `dictResize` between two calls makes a scan return to 0 without a key that was there all the time,
  against the guarantee stated at dict.c:767-769.
* The texts that the parser takes are exactly those of `JsonSyntax` (`JsonSound.ParsesExactly`). These are the texts of RFC 8259
  (`JsonAccept.StandardParses`) and more: any byte from 1 to 32 as white space, numerals such as `-`, `01`, `1e` and `-e5`, any
  character after a backslash, raw control characters in literals, and a whole text that is a string without its closing quote.
* `\u0000` and the escapes of unpaired surrogates stand for nothing; a high surrogate that no low one follows takes the escape
  after it along (`JsonString.LiteralMeaning`).
* To `cJSON_Minify` the star that opens a block comment may also be the one that closes it, so `/*/` is a whole comment and what
  follows is kept as text (`JsonComments.SlashEndsBlock`).
* `print_object` with a buffer returns a wrong position for a non-empty nested object when `fmt` is set (line 598 reuses `i`);
  `JsonWriter.PutValue` states the position returned. No caller uses it, and at the root it is right.
* `aeCreateFileEvent` with an empty mask breaks the agreement with the backend exactly in the cases of
  `Files.CreateKeepsExactly`.
* The check of `processTimeEvents` for timers newer than the pass is never true: `EventTimers.TimeLoop.VisitEvent` proves the
  branch dead.
* `FREE` hands a pool block to the system's `free` when it is a column's base block, or the last block of a column of one-byte
  blocks. The base block's address is the one `malloc` gave for the whole column, so the other blocks' memory goes with it
  (`MemoryPool.Column.Released`). It is the last block a column hands out: while `remain_count` has never been 0 and blocks are
  longer than one byte, nothing of this happens (`MemoryPool.Pool.Conserved`).
* `listJoin` with an empty second list leaves a non-empty first list without its tail (`LinkedList.List.Join`).

## Model

| member | source | states |
|---|---|---|
| `DictInvariant.MoveBucketOk` | cFrameworkToServer/utils/basic_struct/dict.c:207-228 | moving one bucket keeps the invariant, every lookup and the number of entries |
| `DictInvariant.RehashIndexInRange` | cFrameworkToServer/utils/basic_struct/dict.c:201-205 | while the old table holds an entry, a non-empty bucket lies at or after `rehashidx`: the assertion never fails |
| `DictInvariant.RehashOk` | cFrameworkToServer/utils/basic_struct/dict.c:194-237 | dictRehash(n), for every n, keeps the contents and the invariant, reports whether work is left, and advances `rehashidx` or finishes; how far it gets is the next row |
| `DictAmount.RehashAmount` | cFrameworkToServer/utils/basic_struct/dict.c:194-237 | it returns 1 exactly when the budget does not reach past the last entry; then it has moved the buckets from `rehashidx` to the new one, of which just n were not empty, or it has passed just 10n empty ones; otherwise the new table is the only one and holds all that was there; a negative n moves everything |
| `DictAmount.MovedInFront` | cFrameworkToServer/utils/basic_struct/dict.c:212-225 | each moved chain comes in reversed order in front of what its new buckets held |
| `DictInvariant.RehashStepOk` | cFrameworkToServer/utils/basic_struct/dict.c:266-268 | a single step advances unless a safe iterator is live, and then changes nothing |
| `DictAmount.StepAdvances` | cFrameworkToServer/utils/basic_struct/dict.c:271-508 | each addition, replacement, deletion, unlinking and lookup moves a migration on, unless its step ends it |
| `DictAmount.MigrationEnds` | cFrameworkToServer/utils/basic_struct/dict.c:266-268 | while no safe iterator is live, after at most as many such operations as a migration has buckets left, whatever they do, the next step ends it |
| `DictRuns.NextPowerOk` | cFrameworkToServer/utils/basic_struct/dict.c:945-955 | the next power of two is one, is enough, and is the size itself if that is a power |
| `DictAmount.NextPowerLeast` | cFrameworkToServer/utils/basic_struct/dict.c:945-955 | and it is the least one |
| `DictRuns.ExpandOk` | cFrameworkToServer/utils/basic_struct/dict.c:152-184 | dictExpand either refuses and changes nothing, or installs a first table or starts a migration; the contents stay |
| `DictAmount.ExpandExactly` | cFrameworkToServer/utils/basic_struct/dict.c:152-184 | dictExpand refuses exactly during a migration, below the number of entries, and when the table already has the least size that is enough; otherwise insertions go to a table of that size |
| `DictAmount.ResizeExactly` | cFrameworkToServer/utils/basic_struct/dict.c:138-150 | after dictResize insertions go to a table of the least size that holds the entries; it refuses when disabled or during a migration |
| `DictRuns.ExpandIfNeededOk` | cFrameworkToServer/utils/basic_struct/dict.c:923-941 | within the size bound expansion never fails and there is a table to insert into |
| `DictAmount.GrowsExactly` | cFrameworkToServer/utils/basic_struct/dict.c:923-941 | exactly when the table grows before an insertion, with the force ratio, and to what size |
| `DictRuns.FindIndexOk` | cFrameworkToServer/utils/basic_struct/dict.c:964-987 | -1 means that the key is there, never that expansion failed |
| `DictRuns.AddRawOk` | cFrameworkToServer/utils/basic_struct/dict.c:298-324 | adds exactly an absent key, leaving every other lookup as it was |
| `DictAmount.InsertInFront` | cFrameworkToServer/utils/basic_struct/dict.c:298-324 | the new entry is at the head of its bucket in the table that takes insertions; no other bucket changes |
| `DictRuns.ReplaceOk` | cFrameworkToServer/utils/basic_struct/dict.c:331-354 | afterwards the key has the new value, every other key its own; true exactly when the key was absent |
| `DictRuns.DeleteOk` | cFrameworkToServer/utils/basic_struct/dict.c:370-405 | returns what was there, removes exactly that key |
| `DictRuns.StepRefinesMap` | cFrameworkToServer/utils/basic_struct/dict.c:271-411 | one operation answers and changes the contents as the same operation on a plain map |
| `DictRuns.RunRefinesMap` | cFrameworkToServer/utils/basic_struct/dict.c:271-508 | every run of additions, replacements, deletions, unlinks, lookups, resizes, expansions and rehashes answers as a plain map does |
| `DictRuns.FreshRunRefinesMap` | cFrameworkToServer/utils/basic_struct/dict.c:116-137 | the same from a new dictionary |
| `DictRuns.StepKeepsLoad` | cFrameworkToServer/utils/basic_struct/dict.c:923-941 | during a doubling the entries are at most old size + rehashidx + 1 |
| `DictRuns.FreshRunKeepsLoad` | cFrameworkToServer/utils/basic_struct/dict.c:194-237 | without outside resizing the table that takes insertions never has more entries than buckets: migration always ends in time |
| `Words.Rev` | cFrameworkToServer/utils/basic_struct/dict.c:748-756 | the parallel exchange of bit groups is bit reversal |
| `Words.ReverseInvolution` | cFrameworkToServer/utils/basic_struct/dict.c:748-756 | reversing twice gives the word back |
| `Words.SlotIsLowBits` | cFrameworkToServer/utils/basic_struct/dict.c:219 | the masked hash is the number of its low bits |
| `Words.NarrowKeepsSlot` | cFrameworkToServer/utils/basic_struct/dict.c:298-324 | narrowing the hash to 32 bits does not change the bucket of a table of at most 2^32 |
| `ScanTheory.ExpansionsExactly` | cFrameworkToServer/utils/basic_struct/dict.c:893-909 | the inner loop visits one run of expansions of the bucket, from the cursor's middle bits to the last |
| `ScanTheory.ExpansionsCoverExactlyWhen` | cFrameworkToServer/utils/basic_struct/dict.c:893-909 | those cover what is left of the bucket in reversed order exactly when the cursor's middle bits are ones followed by zeros |
| `ScanTheory.CallCoversInterval` | cFrameworkToServer/utils/basic_struct/dict.c:842-918 | a call with a cursor that fits both masks emits every entry whose reversed hash lies between the reversed cursors |
| `ScanTheory.EmittedExactlyWhen` | cFrameworkToServer/utils/basic_struct/dict.c:842-918 | of the present keys a call emits exactly those in reach of the cursor, whatever the tables and the cursor |
| `ScanTheory.CallEmitsOnlyEntries` | cFrameworkToServer/utils/basic_struct/dict.c:842-918 | nothing else than present entries is emitted |
| `ScanOnce.ScanDistinct` | cFrameworkToServer/utils/basic_struct/dict.c:842-918 | no call hands an entry to the callback twice, whatever the tables and the cursor |
| `ScanTheory.ScanComplete` | cFrameworkToServer/utils/basic_struct/dict.c:842-918 | a scan from 0 back to 0 emits every key present throughout, when each cursor fits the tables it meets |
| `ScanTheory.ScanCompleteUnderGrowth` | cFrameworkToServer/utils/basic_struct/dict.c:842-918 | the same whenever the smaller mask in force never decreases between calls |
| `ScanTheory.ScanNeverMisses` | cFrameworkToServer/utils/basic_struct/dict.c:842-918 | no key is missed under any additions, replacements, lookups, rehash steps and deletions of other keys between calls |
| `ScanShrink.ShrinkMisses` | cFrameworkToServer/utils/basic_struct/dict.c:877-917 | a scan that a shrink overtakes ends without having emitted a key that was there throughout |
| `ScanTheory.StationaryScanIsPermutation` | cFrameworkToServer/utils/basic_struct/dict.c:854-876 | with unchanged tables of 2^k buckets the cursor is back at 0 after 2^k calls and each bucket is visited in exactly one |
| `ScanTheory.StationaryExpansionsArePermutation` | cFrameworkToServer/utils/basic_struct/dict.c:877-917 | with a frozen migration each bucket of the larger table is visited exactly once too |
| `ScanOnce.StationaryExactlyOnce` | cFrameworkToServer/utils/basic_struct/dict.c:842-918 | a scan of tables that stay as they are, migrating or not, ends, and hands over each present key exactly once and nothing else; as many entries as there are |
| `SafeIteration.NextPasses` | cFrameworkToServer/utils/basic_struct/dict.c:568-601 | one dictNext returns a key ahead and passes no other, for every key |
| `SafeIteration.NextPresent` | cFrameworkToServer/utils/basic_struct/dict.c:568-601 | dictNext returns only keys that are there |
| `SafeIteration.TurnDescends` | cFrameworkToServer/utils/basic_struct/dict.c:571-600 | every turn of the loop that goes on comes nearer to the end |
| `SafeIteration.CallerStepKeeps` | cFrameworkToServer/utils/basic_struct/dict.c:266-268 | additions, replacements, lookups and deletion of the last returned entry leave the iterator sound and every other key on its side of it |
| `SafeIteration.SafeIterationExactlyOnce` | cFrameworkToServer/utils/basic_struct/dict.c:561-601 | a complete safe iteration returns every key present throughout exactly once, even when an addition starts a migration |
| `SafeIteration.IteratorsCounted` | cFrameworkToServer/utils/basic_struct/dict.c:568-613 | after any calls of any iterators `iterators` is the number of started, unreleased safe ones |
| `Dict.Dict.MoveEntry` | cFrameworkToServer/utils/basic_struct/dict.c:212-225 | relinking one entry at the head of its new chain, in the heap |
| `Dict.Dict.Rehash` | cFrameworkToServer/utils/basic_struct/dict.c:194-237 | the loops over bucket arrays and chains do, and return, what the value function says (`DictAmount.RehashAmount`) |
| `Dict.Dict.Expand` | cFrameworkToServer/utils/basic_struct/dict.c:152-184 | likewise, with a fresh table |
| `Dict.Dict.Find` | cFrameworkToServer/utils/basic_struct/dict.c:482-501 | returns the entry of the key and its value, null exactly when the map has none |
| `Dict.Dict.AddRaw` | cFrameworkToServer/utils/basic_struct/dict.c:298-324 | the entry linked, or the existing one, with the resulting state |
| `Dict.Dict.Add` | cFrameworkToServer/utils/basic_struct/dict.c:271-279 | adding and then setting the value is adding the pair |
| `Dict.Dict.Replace` | cFrameworkToServer/utils/basic_struct/dict.c:331-354 | the existing entry is there whenever the key was not added, and gets the value |
| `Dict.Dict.GenericDelete` | cFrameworkToServer/utils/basic_struct/dict.c:370-405 | the entry is unlinked from the chain it is in, in either table |
| `Dict.Dict.Scan` | cFrameworkToServer/utils/basic_struct/dict.c:842-918 | the loop computes the value function's entries, in order and each once (`ScanOnce.ScanDistinct`), and next cursor |
| `DictIterator.DictIter.Next` | cFrameworkToServer/utils/basic_struct/dict.c:568-601 | the pointer-walking loop is the iterator step of the value layer |
| `DictIterator.DictIter.Call` | cFrameworkToServer/utils/basic_struct/dict.c:561-601 | on the heap: dictNext, an addition, replacement, lookup or deletion of the entry last returned does what the value layer says, and leaves iterator and dictionary fit for the next call |
| `DictIterator.Iterate` | cFrameworkToServer/utils/basic_struct/dict.c:548-613 | a whole safe iteration on the heap with such calls between: every key that stays is returned exactly once, and no iterator is left counted |
| `DictIterator.DictIter.Release` | cFrameworkToServer/utils/basic_struct/dict.c:603-613 | counts a started safe iterator out |
| `JsonRoundTrip.StringRoundTrip` | cFrameworkToServer/utils/c_json.c:186-301 | parsing a printed literal gives back its bytes, wherever it stands |
| `JsonRoundTrip.NumberRoundTrip` | cFrameworkToServer/utils/c_json.c:90-109 | parsing a printed int gives back the number |
| `JsonRoundTrip.ValueRoundTrip` | cFrameworkToServer/utils/c_json.c:351-652 | parsing a printed value gives back the value, wherever it stands |
| `JsonRoundTrip.ParsePrintRoundTrip` | cFrameworkToServer/utils/c_json.c:317-337 | cJSON_ParseWithOpts, null termination required or not, applied to cJSON_Print's or cJSON_PrintUnformatted's text gives back the tree |
| `JsonRoundTrip.PrintNulFree` | cFrameworkToServer/utils/c_json.c:366-652 | printed text has no NUL inside, so strlen measures all of it |
| `JsonAccept.NumberAccepted` | cFrameworkToServer/utils/c_json.c:90-109 | every numeral, with its fraction and exponent, is parsed to the decimal it writes, if nothing that would continue it follows |
| `JsonAccept.ValueAccepted` | cFrameworkToServer/utils/c_json.c:351-541 | every text of the grammar, standing anywhere, with any bytes 1 to 32 before and after each of its tokens, is parsed to what it means and up to its end |
| `JsonAccept.DocumentAccepted` | cFrameworkToServer/utils/c_json.c:317-331 | the same for whole texts, null termination required or not, with the end reported |
| `JsonAccept.TrailingAccepted` | cFrameworkToServer/utils/c_json.c:327-328 | when null termination is not required, a value is taken whatever stands after it |
| `JsonAccept.StandardParses` | cFrameworkToServer/utils/c_json.c:317-365 | every text of RFC 8259, unpaired surrogates and escapes of NUL apart, is parsed to what it means |
| `JsonSound.DocumentSound` | cFrameworkToServer/utils/c_json.c:317-541 | what is parsed is, up to where the parser stops, a text of the grammar, and the value is what it means |
| `JsonSound.ParsesExactly` | cFrameworkToServer/utils/c_json.c:317-331 | with null termination required a text is parsed to a value if and only if the grammar gives it that value |
| `JsonConforms.ValueConforms` | cFrameworkToServer/utils/c_json.c:366-652 | what either printer writes is JSON of RFC 8259 that means the tree printed |
| `JsonLayout.PrintLaidOut` | cFrameworkToServer/utils/c_json.c:602-650 | formatted text, read byte by byte: each member on a line of its own with a tab for each bracket and brace open around it, a tab after each colon, a space after each comma in an array, and no other white space |
| `JsonString.Utf8IsEncoding` | cFrameworkToServer/utils/c_json.c:219-231 | the bytes written for a code point are the shortest sequence of section 3 of RFC 3629 that reads back as it |
| `JsonString.SurrogatesCover` | cFrameworkToServer/utils/c_json.c:211-217 | each code point beyond 0xFFFF has exactly one surrogate pair |
| `JsonString.EscapeFits` | cFrameworkToServer/utils/c_json.c:190-232 | the first pass counts at least as many bytes for an escape as the second writes |
| `JsonString.DecodeFits` | cFrameworkToServer/utils/c_json.c:190-243 | parse_string never writes more bytes than its first pass counted |
| `JsonString.LiteralMeaning` | cFrameworkToServer/utils/c_json.c:186-243 | every literal is parsed to its raw bytes and what its escapes stand for: UTF-8 for each \u escape and surrogate pair, nothing for \u0000 and unpaired surrogates; the end of the text closes it too |
| `JsonString.LiteralSound` | cFrameworkToServer/utils/c_json.c:186-243 | and nothing else is accepted between the quotes |
| `JsonString.FirstPassCounts` | cFrameworkToServer/utils/c_json.c:190 | what the first pass counts for a literal, exactly |
| `JsonString.EscapeShortest` | cFrameworkToServer/utils/c_json.c:277-299 | print_string_ptr writes each byte in the shortest way that section 7 of RFC 8259 has for it |
| `JsonString.ReadString` | cFrameworkToServer/utils/c_json.c:186-243 | both passes as loops; the result fits the allocated buffer and is NUL-terminated |
| `JsonString.WriteUtf8` | cFrameworkToServer/utils/c_json.c:219-231 | the encoding, written last byte first |
| `JsonReader.ReadNumber` | cFrameworkToServer/utils/c_json.c:90-109 | the digit loops compute the number in exact arithmetic |
| `JsonReader.ReadArray` | cFrameworkToServer/utils/c_json.c:400-425 | the loop over entries parses what the recursive function does |
| `JsonReader.ReadObject` | cFrameworkToServer/utils/c_json.c:508-541 | the loop over members computes the recursive function, and so takes what `JsonAccept.ValueAccepted` says |
| `JsonReader.ReadWithOpts` | cFrameworkToServer/utils/c_json.c:317-331 | the whole parser as loops, with both settings of require_null_terminated; what it takes is `JsonSound.ParsesExactly` |
| `JsonBuffer.SmearedAll` | cFrameworkToServer/utils/c_json.c:111 | the five or-shifts give the least power of two at least x, less one |
| `JsonBuffer.Pow2Gt` | cFrameworkToServer/utils/c_json.c:111 | pow2gt is the least power of two that is at least x |
| `JsonBuffer.PrintBuffer.Ensure` | cFrameworkToServer/utils/c_json.c:115-130 | room is secured, what was in the buffer stays, a new length is a power of two |
| `JsonBuffer.PrintBuffer.Update` | cFrameworkToServer/utils/c_json.c:132-138 | the offset moves to the end of the text written |
| `JsonWriter.WriteString` | cFrameworkToServer/utils/c_json.c:277-299 | the escaping loop writes the literal and nothing beyond it |
| `JsonWriter.EscapedLength` | cFrameworkToServer/utils/c_json.c:271 | the counting loop computes the length of the escaped string |
| `JsonWriter.NewString` | cFrameworkToServer/utils/c_json.c:246-301 | the allocation is filled exactly |
| `JsonWriter.ItemsLengthSuffices` | cFrameworkToServer/utils/c_json.c:463-503 | the length computed for an array is enough for its text |
| `JsonWriter.MembersLengthSuffices` | cFrameworkToServer/utils/c_json.c:602-650 | the same for an object |
| `JsonWriter.NewArray` | cFrameworkToServer/utils/c_json.c:463-503 | the entries composed in the computed length are the array's text |
| `JsonWriter.NewObject` | cFrameworkToServer/utils/c_json.c:602-650 | the names, values and layout composed in the computed length are the object's text |
| `JsonWriter.PutArray` | cFrameworkToServer/utils/c_json.c:447-462 | into the shared buffer: the same text, inside what ensure secured, what was there before untouched |
| `JsonWriter.PutObject` | cFrameworkToServer/utils/c_json.c:564-601 | the same for objects, with the position it returns |
| `JsonWriter.PrintTree` | cFrameworkToServer/utils/c_json.c:336 | cJSON_Print's memory holds the formatted text |
| `JsonWriter.PrintTreeUnformatted` | cFrameworkToServer/utils/c_json.c:337 | cJSON_PrintUnformatted's memory holds the unformatted text |
| `JsonWriter.PrintBuffered` | cFrameworkToServer/utils/c_json.c:339-347 | for every prebuffer and both layouts the same bytes as the printer without a buffer |
| `JsonMinify.MinifyPrint` | cFrameworkToServer/utils/c_json.c:729-744 | minifying formatted text gives the unformatted text, for every tree |
| `JsonComments.MinifyExactly` | cFrameworkToServer/utils/c_json.c:729-744 | for every text of the grammar with line and block comments between its tokens, and perhaps in its last line, minifying leaves just the tokens (and the control bytes that are no white space to it) |
| `JsonComments.MinifiedParses` | cFrameworkToServer/utils/c_json.c:729-744 | so what is left of a text with comments is parsed to what its tokens mean |
| `JsonComments.MinifyKeepsMeaning` | cFrameworkToServer/utils/c_json.c:729-744 | minifying a text that is parsed as it is does not change what it is parsed to |
| `JsonComments.SlashEndsBlock` | cFrameworkToServer/utils/c_json.c:738 | a slash right after the opening of a block comment ends it there |
| `JsonMinify.Minify` | cFrameworkToServer/utils/c_json.c:729-744 | in place: the result is the minified text, the write pointer never passes the read pointer, bytes after it stay |
| `JsonMinify.MinifyPrinted` | cFrameworkToServer/utils/c_json.c:729-744 | in place on cJSON_Print's text it leaves cJSON_PrintUnformatted's |
| `RbShape.TurnedLeft` | cFrameworkToServer/utils/basic_struct/rtree.c:73-100 | the six writes of a left rotation rotate the tree and keep every parent link |
| `RbShape.TurnedRight` | cFrameworkToServer/utils/basic_struct/rtree.c:115-141 | the same for a right rotation |
| `RbShape.RotationKeepsOrder` | cFrameworkToServer/utils/basic_struct/rtree.c:73-141 | rotations keep the in-order sequence |
| `RbShape.HoldsPlug` | cFrameworkToServer/utils/basic_struct/rtree.c:73-141 | a place in a tree and the whole tree describe the same memory |
| `RbBalance.FitsPlug` | cFrameworkToServer/utils/basic_struct/rtree.c:153-212 | what fits a place locally makes the whole tree red-black |
| `RbBalance.PlugFits` | cFrameworkToServer/utils/basic_struct/rtree.c:153-212 | and conversely every place in a red-black tree fits what is there |
| `RbBalance.BalanceBounds` | cFrameworkToServer/utils/basic_struct/rtree.c:153-212 | the height is at most twice the black height (one more below a red top), and the size at least 2^(black height) - 1 |
| `RbBalance.StartInserting` | cFrameworkToServer/utils/basic_struct/rtree.c:249-253 | a red leaf at any free place of a red-black tree is what the fixup starts from |
| `RbBalance.PushedUp` | cFrameworkToServer/utils/basic_struct/rtree.c:164-171 | case 1 moves the only possible fault two levels up |
| `RbBalance.TurnedOverKeeps` | cFrameworkToServer/utils/basic_struct/rtree.c:173-184 | cases 2 and 3 leave a black parent, equal heights and the order |
| `RbBalance.LoweredShort` | cFrameworkToServer/utils/basic_struct/rtree.c:274-280 | a red sibling is turned into a black one, the missing black staying where it is |
| `RbBalance.PaintedShort` | cFrameworkToServer/utils/basic_struct/rtree.c:281-286 | a black sibling without red children is painted, the missing black moving up |
| `RbBalance.TurnedInShort` | cFrameworkToServer/utils/basic_struct/rtree.c:288-294 | the sibling's near red child is turned to the far side |
| `RbBalance.TakenEnds` | cFrameworkToServer/utils/basic_struct/rtree.c:295-302 | a far red child supplies the missing black: the whole tree is red-black |
| `RbTree.RTree.LeftRotate` | cFrameworkToServer/utils/basic_struct/rtree.c:73-100 | on heap nodes, anywhere in the tree |
| `RbTree.RTree.RightRotate` | cFrameworkToServer/utils/basic_struct/rtree.c:115-141 | on heap nodes, anywhere in the tree |
| `RbTree.RTree.InsertFixup` | cFrameworkToServer/utils/basic_struct/rtree.c:153-212 | terminates with a red-black tree, consistent links and the same in-order sequence |
| `RbTree.RTree.DeleteFixup` | cFrameworkToServer/utils/basic_struct/rtree.c:268-338 | from one missing black: terminates with a red-black tree, consistent links and the same in-order sequence |
| `RbRemove.LeastOrder` | cFrameworkToServer/utils/basic_struct/rtree.c:360-364 | the successor found is the first node in order to the right |
| `RbRemove.RemovalBalance` | cFrameworkToServer/utils/basic_struct/rtree.c:374-401 | taking a red successor out keeps the balance, a black one leaves one black missing at its place |
| `RbRemove.RewrittenHolds` | cFrameworkToServer/utils/basic_struct/rtree.c:366-398 | the writes that put the successor in the node's place give the tree without the node |
| `RbTree.RTree.RemoveTwoChildren` | cFrameworkToServer/utils/basic_struct/rtree.c:355-405 | rb_remove of a node with two children: red-black again, the in-order sequence without that node |
| `Timers.LaterAdds` | cFrameworkToServer/utils/event/ae.c:178-190 | the due time is exactly the delay later, for negative delays too; its milliseconds are in range exactly when no borrow is needed |
| `Timers.RunKeeps` | cFrameworkToServer/utils/event/ae.c:192-323 | the list agrees with the history in every run |
| `Timers.LifeCycle` | cFrameworkToServer/utils/event/ae.c:192-323 | no event of a timer out of turn, none but firing twice |
| `Timers.RunLifeCycle` | cFrameworkToServer/utils/event/ae.c:192-323 | in every run: ids decrease from the head, a deleted timer never fires, each is finalized at most once and is on the list until then |
| `Timers.PassSees` | cFrameworkToServer/utils/event/ae.c:251-281 | turn n of a pass looks at the n-th timer there was at its start, whatever the callbacks do |
| `Timers.PassTurn` | cFrameworkToServer/utils/event/ae.c:279-320 | it fires exactly if not deleted by then and due, and is finalized if deleted |
| `Timers.PassFiresOld` | cFrameworkToServer/utils/event/ae.c:295-316 | a pass fires only timers that were there and live at its start, newest first, each once at most |
| `Timers.ClockBack` | cFrameworkToServer/utils/event/ae.c:266-272 | after the clock went back every timer still live when reached fires |
| `Timers.PassRemoves` | cFrameworkToServer/utils/event/ae.c:283-293 | a timer deleted before a pass is off the list after it |
| `TimerEffects.CreateExactly` | cFrameworkToServer/utils/event/ae.c:192-209 | a new timer is first, live, with the next id, due the delay after the clock's reading |
| `TimerEffects.DeleteExactly` | cFrameworkToServer/utils/event/ae.c:211-222 | aeDeleteTimeEvent deletes the live timer with that id and no other |
| `TimerEffects.SettleExactly` | cFrameworkToServer/utils/event/ae.c:310-317 | AE_NOMORE deletes the timer; any other value makes it due that many milliseconds after the clock's reading |
| `TimerEffects.FireTurnExactly` | cFrameworkToServer/utils/event/ae.c:302-318 | a turn that fires: the timer is deleted if its procedure returned AE_NOMORE or deleted it, else live and due again; all others are as the procedure left them |
| `TimerEffects.VisitExactly` | cFrameworkToServer/utils/event/ae.c:278-321 | one turn exactly: a deleted timer goes, a due one fires, any other turn changes nothing |
| `TimerEffects.PassSettles` | cFrameworkToServer/utils/event/ae.c:251-323 | the same for turn n of any pass, with the log |
| `TimerEffects.PassNotesTime` | cFrameworkToServer/utils/event/ae.c:266-273 | a pass notes the time it began at |
| `TimerEffects.NoMoreFires` | cFrameworkToServer/utils/event/ae.c:251-323 | a timer whose procedure returned AE_NOMORE fires in no later pass of any run |
| `EventTimers.TimeLoop.CreateTimeEvent` | cFrameworkToServer/utils/event/ae.c:192-209 | the new event is first, with the next id |
| `EventTimers.TimeLoop.DeleteTimeEvent` | cFrameworkToServer/utils/event/ae.c:211-222 | marks the event with the id, and reports whether there was one |
| `EventTimers.TimeLoop.SearchNearestTimer` | cFrameworkToServer/utils/event/ae.c:235-248 | the first event that no other is due before, null exactly when there is none |
| `EventTimers.TimeLoop.VisitEvent` | cFrameworkToServer/utils/event/ae.c:278-321 | one turn on the linked list, while the callback changes it: the value layer's turn (`TimerEffects.VisitExactly`) |
| `EventTimers.TimeLoop.ProcessTimeEvents` | cFrameworkToServer/utils/event/ae.c:251-323 | the whole pass on the linked list, turn by turn (`TimerEffects.PassSettles`), and the number of events processed |
| `Files.CreateKeepsExactly` | cFrameworkToServer/utils/event/ae.c:124-142 | adding events keeps maxfd and backend right exactly under the stated condition, with a legal epoll_ctl call |
| `Files.DeleteKeeps` | cFrameworkToServer/utils/event/ae.c:144-160 | taking events away keeps maxfd and backend right for every mask, with a legal epoll_ctl call; which events go is `Files.DeleteBits` |
| `Files.CreateBits` | cFrameworkToServer/utils/event/ae.c:124-142 | bit by bit: what is asked for is added to the descriptor's mask and to what the backend watches, and nothing else changes |
| `Files.DeleteBits` | cFrameworkToServer/utils/event/ae.c:144-160 | bit by bit: just the events named are taken from the descriptor's mask and from what the backend watches, and nothing else changes |
| `Files.ResizeKeeps` | cFrameworkToServer/utils/event/ae.c:95-111 | an accepted resize keeps every descriptor in use |
| `Files.CreateDelete` | cFrameworkToServer/utils/event/ae.c:124-160 | deleting what was just created undoes it |
| `Files.RunAgrees` | cFrameworkToServer/utils/event/ae.c:95-160 | in every run maxfd is the greatest descriptor in use and the backend watches each for exactly its mask |
| `Files.RunWatches` | cFrameworkToServer/utils/event/ae.c:95-160 | in every run a descriptor is watched for reading, or for writing, exactly if that was asked for and not dropped since |
| `Files.FiredAreUsed` | cFrameworkToServer/utils/event/ae_select.c:79-99 | the poll reports the descriptors in use, each once and in order |
| `Files.ReportFires` | cFrameworkToServer/utils/event/ae_epoll.c:107-133 | which bits a report of epoll_wait fires: errors and hang-ups fire for writing |
| `EventFiles.FileLoop.ApiAddEvent` | cFrameworkToServer/utils/event/ae_epoll.c:72-88 | ADD or MOD with the merged mask; select's sets likewise |
| `EventFiles.FileLoop.ApiDelEvent` | cFrameworkToServer/utils/event/ae_epoll.c:90-105 | MOD with what is left, or DEL |
| `EventFiles.FileLoop.CreateFileEvent` | cFrameworkToServer/utils/event/ae.c:124-142 | the array, maxfd and backend after success, and nothing changed after failure |
| `EventFiles.FileLoop.DeleteFileEvent` | cFrameworkToServer/utils/event/ae.c:144-160 | on the arrays: the events named and no others go (`Files.DeleteBits`), and the downward search finds the new maxfd |
| `EventFiles.FileLoop.ResizeSetSize` | cFrameworkToServer/utils/event/ae.c:95-111 | refused exactly as the source refuses, else the new slots are empty |
| `EventFiles.FileLoop.PollSelect` | cFrameworkToServer/utils/event/ae_select.c:73-99 | the fired array is filled as stated and never overrun |
| `LinkedList.List.AddNodeToHead` | cFrameworkToServer/utils/basic_struct/list.c:55-73 | the sequence with the value in front, all links consistent |
| `LinkedList.List.InsertNode` | cFrameworkToServer/utils/basic_struct/list.c:122-149 | the sequence with the value before or after the node |
| `LinkedList.List.DelNode` | cFrameworkToServer/utils/basic_struct/list.c:155-168 | the sequence without the node |
| `LinkedList.List.Index` | cFrameworkToServer/utils/basic_struct/list.c:303-315 | the node at an index from either end, null outside |
| `LinkedList.List.Rotate` | cFrameworkToServer/utils/basic_struct/list.c:318-331 | the last node becomes the first |
| `LinkedList.RotationsCycle` | cFrameworkToServer/utils/basic_struct/list.c:318-331 | rotating a list as often as it is long is the identity |
| `LinkedList.List.Join` | cFrameworkToServer/utils/basic_struct/list.c:335-350 | concatenation; the first list stays valid exactly when the second is not empty or both are |
| `LinkedList.IterateDeleting` | cFrameworkToServer/utils/basic_struct/list.c:203-228 | a whole iteration in either direction in which the caller may delete each node just returned: every node is returned once, in order, and those not deleted are left |
| `MemoryPool.Column.RecognizesExactly` | cFrameworkToServer/utils/memory_pool.c:104 | which block addresses FREE recognizes |
| `MemoryPool.Column.BlocksApart` | cFrameworkToServer/utils/memory_pool.c:55-58 | two blocks of a column have no byte in common |
| `MemoryPool.Column.NeverDrained` | cFrameworkToServer/utils/memory_pool.c:39-118 | before `remain_count` has ever been 0: no block is lost, the base block is never handed out, every block handed out is recognized |
| `MemoryPool.Pool.Conserved` | cFrameworkToServer/utils/memory_pool.c:39-118 | in such a pool free and live blocks alone make up each column, and a live block is recognized by its own column and no other |
| `MemoryPool.Column.Take` | cFrameworkToServer/utils/memory_pool.c:82-93 | a block not handed out before; the base block only as the last |
| `MemoryPool.Pool.Malloc` | cFrameworkToServer/utils/memory_pool.c:64-97 | the first column that is wide enough and not used up, else the system; each column's free and live blocks partition it |
| `MemoryPool.Pool.Free` | cFrameworkToServer/utils/memory_pool.c:99-118 | a live block goes back to its own column exactly if FREE recognizes it; everything else goes to the system, which releases the column for its base block; the partition is kept |

## Left out

- Completeness of a scan that a shrink overtakes: it fails (see Findings); what each call emits is stated exactly instead.
- Sizes beyond 2^31 buckets or 2^30 keys, the overflow of the C `int` in `n*10` of `dictRehash` (dict.c:195), and explicit `dictRehash` under a live safe iterator.
- `siphash`, `dictFingerprint` (and with it the check of unsafe iterators), `dictGetRandomKey`, `dictGetSomeKeys`, `dictEmpty`, `dictRelease` and the freeing of keys and values.
- DictIterator.Iterate: one iterator at a time on the heap, with the calls a safe iterator's caller may make; several iterators are counted on the value layer only (`SafeIteration.IteratorsCounted`).
- JsonReader.ReadNumber: exact reals, where the code computes in doubles with `pow`; the exponent is unbounded, where it is a C `int`; `valueint` is not modelled.
- JsonReader.ReadArray: the children are a sequence of values; the `prev`/`next` links made at these lines are not stated.
- JsonReader.ReadObject: the members are a sequence of names and values; the same links are not stated.
- MemoryPool.Pool.Free: after a column's base block has been freed (`MemoryPool.Column.Released`) the code goes on handing out blocks of memory that is no longer its own; the model goes on numbering them and says nothing of their contents.
- Floating-point rounding (numbers are exact reals), printing of numbers that are no ints, `\u` without four hexadecimal digits and a backslash at the end of a literal, allocation failure, texts beyond 2^30 bytes in the growing buffer, the overflow of the C `int` `len` in the printers without a buffer.
- Bit operations of the UTF-8 encoder and of `parse_hex4` are written as the arithmetic they amount to; those of `rev`, `dictScan` and `pow2gt` are modelled as bit operations.
- The editing functions of `c_json.c` (`cJSON_AddItemToArray` and so on) and `cJSON_Duplicate`: shallow list handling.
- `rb_insert`'s link-in (the test at rtree.c:242 is inverted) and the path of `rb_remove` for at most one child (the test at rtree.c:429 is inverted): the fixups are proved from the states those paths are meant to establish. The packing of the colour into the parent pointer is replaced by two fields. `rb_find` and `rb_delete` are plain descents.
- Finalizers of timers may delete timers but not create any; re-entrant processing is excluded.
- Dispatching of fired file events to their procedures, `aeWait`, `aeMain`, `ae_kqueue.c` and `ae_evport.c`.
- `FD_SET` beyond `FD_SETSIZE` when a loop with more slots is created for select.
- `listDup`, `listSearchKey` and `listEmpty`: plain traversals; parsing of the pool's configuration strings; interleavings inside the pool's locked regions.
- Sockets, logging, error tables, database connections, thread pools: input and output, or declarations only.
