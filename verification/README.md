# A model of webirc and of the Redis 2.2.2 that it ships

webirc keeps IRC sessions alive in a daemon and shows them through a web server; both talk to each other through a
Redis server whose sources are part of the repository. This project models the algorithmic core of that code in Dafny
and proves what it is relied on for. `dafny verify dfyconfig.toml` checks all of it.

| files | subject |
|---|---|
| `lzf_spec`, `lzf_pack`, `lzf_compress`, `lzf_greedy`, `lzf_doubled`, `lzf_decompress` | the LZF codec: format, packing as a function, compressor over arrays and an uninitialised hash table, which matches it finds and how small a repetition becomes, decompressor, round trip |
| `dict_spec`, `dict_ops`, `dict_load`, `dict`, `dict_iter` | the incrementally rehashed dictionary: values, operations on values, its load and the length of a rehash over runs, heap implementation refined to them, iterators |
| `pqsort_spec`, `pqsort` | the partial quicksort, in place on an array |
| `fixed_width`, `intset` | the integer set in one byte buffer, widened in place |
| `decimal`, `resp`, `resp_stream`, `resp_limits`, `networking` | printed numbers, the request format and its resumable parser, streams of commands and lines cut anywhere, which inputs it accepts, the client object |
| `aof_load`, `aof_check` | reading an append-only file; the checker that finds the part worth keeping |
| `aof_replay`, `aof`, `aof_accept` | what a log means, the rewrite of a dataset as a log, the server's log over rewrites and over being switched off and on, and when the checker accepts it |
| `rdb_format`, `rdb_bytes`, `rdb` | the snapshot format, which form each string gets and how long it is, writers and readers |
| `transactions_spec`, `transactions_runs`, `transactions` | WATCH, MULTI, EXEC over two mutually inverse indexes, and what is promised from a request to its EXEC |
| `adlist` | the doubly linked list on the heap |
| `list_codec`, `log_delivery`, `log_metadata` | webirc's key format, its log writer and paging readers, its long-poll waiters |
| `bytes`, `sequences` | shared value types and operations on sequences |

Code that updates things in place is modelled by classes, arrays and loops, each method proved equal to a function on
values; the main theorems are lemmas about those functions, most of them over every run or every interleaving.

## What turned out not to hold

- Finishing a background rewrite while the append-only buffer is not empty: the handler (aof.c:615-673) installs a file
  that already contains the buffered commands and leaves the buffer to be appended again. `Aof.ReplaysOnceExactlyIf`
  says that every command is executed once exactly if the buffer was empty, and `Aof.PendingPushIsDoubled` gives a run
  where it was not and the dataset is wrong. The handler is called from the timer (redis.c:595), while the buffer is
  flushed before the event loop sleeps (redis.c:699), so commands of the same round can still be in it.
- `decodeList` is not the inverse of `encodeList` on all text, because it replaces escape sequences one kind after the
  other (protocol.py:8-10); `ListCodec.ListSurvives` is the exact condition.
- DISCARD keeps the dirty flag (multi.c:52-63), so an EXEC can abort although none of the keys watched for it was
  touched; `TransactionsSpec.ExecVerdict` is the exact rule and `TransactionsSpec.DiscardKeepsFlag` an instance.
- A length of 2^32-1 cannot be stored in a snapshot (rdb.c:562-586): `RdbFormat.LenSurvives`.
- The request parser looks for the end of a line from the start, but lets strtol skip white space, line ends included,
  in front of the length of an argument (networking.c:713-738). `RespLimits.StrayExactlyIf` is the exact set of buffers
  on which its cursor then passes the end, `RespLimits.StrayWitness` the five bytes `$`, CR, LF, `5`, CR, and
  `RespLimits.NeverStray` the guard that rules it out.
- A file that redis-check-aof accepts need not load: it looks neither at names nor at counts (redis-check-aof.c:81-107).
  `AofCheck.AcceptedFileLoads` is the exact condition, `AofCheck.NoArgumentsSlips` an accepted file that does not load.
- A file that the server wrote need not pass the checker: a BGREWRITEAOF among the commands of a transaction forks
  between MULTI and EXEC, and the differences begin in between (aof.c:594-606). `AofAccept.CheckerRefusesRewrite` is
  such a run. `AofAccept.FileAcceptedExactlyIf` is the exact condition over runs: the newest installed rewrite was not
  forked inside a transaction. Loading is not affected (`Aof.EveryCarefulRunRebuilds`).
- CONFIG SET appendonly yes whose file cannot be opened answers with an error, but leaves the log on (aof.c:37-43).
  `Aof.FailedOpenIsFatal`: the next flush of a logged command ends the server. `Aof.NeverExits`: otherwise none does.
- dictResize keeps the number of elements in an int (dict.c:146-150), so it never succeeds from 2^31 elements on:
  `DictOps.ResizeExactlyIf`.
- `channelClosed` tests the truth of the stored number (LogMetadata.py:85), so a channel whose last number is 0 stays
  and nobody is woken: `LogMetadata.FirstLineStays` and, over every run, `LogMetadata.StaysExactlyIf`. The waiters'
  guarantee (`LogMetadata.NoLostWakeUp`) holds all the same.

## Reading the model

- Bytes are integers below 256; C strings inside buffers end at a NUL where the source relies on it (`StrStr`, `Strtol`,
  `SameWord`). Machine widths are written out where they matter: 32-bit lengths, the hash of the compressor, `int`
  headers, 64-bit addresses and longs.
- The compressor takes the address of its input and a table of arbitrary 64-bit words as parameters, so its theorems
  hold for any uninitialised memory; `LzfPack.Packed` is the function of input and room that it computes all the same.
  A nonempty input has at least two bytes, as the macro `FRST` reads two, and does not start in the first 8 KB of the
  address space.
- `pqsort` works on element indices instead of byte addresses. A missing table of the dictionary is an array of length
  zero; table sizes stay below LONG_MAX.
- The parser has an outcome `Stray` for a header that was read past the end of the buffered bytes: the C code then
  continues outside its buffer, and the model stops there. The loader has `NoArguments` for a header that announces no
  arguments. Streams of encoded commands and plain lines never reach either.
- The commands of the append-only file are executed by an arbitrary function on datasets, of which only SET, RPUSH, SADD
  and HSET are assumed to do what they do (`AofReplay.Lawful`); the commands fed to the log must be of a size and a name
  that the loader accepts, and not a SELECT. Keys have no expire, and a list, set or hash is never empty.
- In the append-only model MULTI and EXEC are commands like others, fed one by one; `Moment.open` says that a MULTI is
  not closed yet. The buffer is flushed before the event loop sleeps and the child is waited for by the timer, so
  neither comes inside a transaction, while a rewrite can be started, and the log switched off and on, by a command of
  it. `Trust` says which of the two logs a run has given reason to rely upon, by rules on flags and buffers alone. For
  what the checker accepts, the log is switched between transactions only, and DISCARD, which changes no data, is not
  fed.
- In the snapshot model, sets and hashes are given in iteration order, with distinct keys. Strings from zipmaps and
  ziplists have no NUL behind them, so the model gives each string the bytes behind it, which the integer test can see.
- `value` of a list node is a constant, since none of the modelled operations changes it.

## Model

| member | source | states |
|---|---|---|
| `LzfSpec.CopyBackRepeats` | redis/redis-2.2.2/src/lzf_d.c:133-143 | a back-reference copy leaves what was written and makes every new byte equal to the byte `dist` before it, so a copy may overlap its own output |
| `LzfSpec.DecodeAppend` | redis/redis-2.2.2/src/lzf_d.c:64-146 | decoding is sequential: a decoded prefix of a stream matters for the rest only through the bytes it produced |
| `LzfSpec.DecodeFits` | redis/redis-2.2.2/src/lzf_d.c:72-84 | on any byte string a successful result extends what was there, never exceeds the room, and grows if the stream is not empty |
| `LzfSpec.DecodeMoreRoom` | redis/redis-2.2.2/src/lzf_d.c:72-76 | a larger output buffer never changes a successful result |
| `LzfSpec.InvalidStays` | redis/redis-2.2.2/src/lzf_d.c:79-84 | EINVAL is about the stream: a stream that is refused so is refused so with any larger room |
| `LzfSpec.EnoughRoom` | redis/redis-2.2.2/src/lzf_d.c:72-76 | E2BIG is about the room: with 264 bytes for each byte of the stream it never comes |
| `LzfSpec.CopyBackIsMatch` | redis/redis-2.2.2/src/lzf_d.c:133-143 | copying back over a match, overlapping or not, reproduces the input |
| `LzfSpec.AppendLiteral` | redis/redis-2.2.2/src/lzf_c.c:268-272 | a stream for a prefix of the input, followed by a literal run, is a stream for the longer prefix |
| `LzfSpec.AppendBackRef` | redis/redis-2.2.2/src/lzf_c.c:211-227 | a stream for a prefix, followed by a back reference to a match, is a stream for the prefix and the match |
| `LzfPack.Slot` | redis/redis-2.2.2/src/lzf_c.c:53-53 | the hash index stays inside the table for every 32-bit hash |
| `LzfPack.RollingSlot` | redis/redis-2.2.2/src/lzf_c.c:48-53 | the hash is updated byte by byte, but the slot it selects depends on the next three bytes alone, whatever overflowed before |
| `LzfPack.SameThreeSameSlot` | redis/redis-2.2.2/src/lzf_c.c:159-165 | two positions with the same three bytes have the same slot |
| `LzfPack.CoveredAfterMatch` | redis/redis-2.2.2/src/lzf_c.c:232-247 | after a match every position passed over has a slot that was stored into, although only two of them were stored |
| `LzfPack.PackedFits` | redis/redis-2.2.2/src/lzf_c.c:169-291 | the output never exceeds the room |
| `LzfCompress.ChanceNeverHits` | redis/redis-2.2.2/src/lzf_c.c:147-165 | a table entry that the call did not write never passes the five tests: what it would point to was stored before |
| `LzfCompress.Probe` | redis/redis-2.2.2/src/lzf_c.c:147-165 | look up and store: accepted exactly if the table of stored positions has a match, whatever the memory held; which one that is, `LzfGreedy.LookIs` says |
| `LzfCompress.StopRun` | redis/redis-2.2.2/src/lzf_c.c:173-174 | back-patching the open run's header turns it into finished instructions, and an empty run gives its header byte back |
| `LzfCompress.PutLiteral` | redis/redis-2.2.2/src/lzf_c.c:262-273 | one literal keeps the invariant (finished part decodes to the input before the run, run bytes are the input's) and the 1-in-32 expansion bound, and is the packing function's step; nothing beyond the reserved byte is written |
| `LzfCompress.MatchLength` | redis/redis-2.2.2/src/lzf_c.c:168-211 | the unrolled extension returns a real match of 3 to 264 bytes inside the input, and stops early only at a mismatch or near the input's end |
| `LzfCompress.Distance` | redis/redis-2.2.2/src/lzf_c.c:151-157 | an accepted table entry, whatever the memory held, is an earlier position at a distance below MAX_OFF |
| `LzfCompress.PutBackRef` | redis/redis-2.2.2/src/lzf_c.c:213-224 | the two- or three-byte code makes the output decode to the input up to the end of the match; bytes behind it are untouched |
| `LzfCompress.PutMatch` | redis/redis-2.2.2/src/lzf_c.c:167-227 | the match branch gives up exactly if the output test of the source says so, and otherwise keeps the invariant and the bound |
| `LzfCompress.MatchStep` | redis/redis-2.2.2/src/lzf_c.c:147-248 | one turn with a match: the packing function's step, the table again that of the stored positions, or its failure |
| `LzfCompress.LiteralStep` | redis/redis-2.2.2/src/lzf_c.c:262-273 | one turn without a match: likewise |
| `LzfCompress.Rehash` | redis/redis-2.2.2/src/lzf_c.c:232-247 | only the two positions before the new input position enter the table |
| `LzfCompress.Finish` | redis/redis-2.2.2/src/lzf_c.c:276-293 | the tail succeeds exactly if three bytes are left, and then the whole output decodes to the whole input |
| `LzfCompress.Compress` | redis/redis-2.2.2/src/lzf_c.c:98-294 | for every input, every table contents and every address: the result is that of a function of the input and the room alone (`LzfGreedy.PackedIsGreedy` says which), no write beyond index out_len, a nonzero result decodes to exactly the input, and success is certain with n + n/32 + 4 bytes of room |
| `LzfGreedy.LookIs` | redis/redis-2.2.2/src/lzf_c.c:147-165 | with the table of the stored positions, a match is offered exactly if the last stored position of the slot is not 0, at most 8192 back and followed by the same three bytes |
| `LzfGreedy.MatchIsLongest` | redis/redis-2.2.2/src/lzf_c.c:168-211 | the length of a match is exactly where the bytes first differ or the limit: 264, or two bytes before the end of the input |
| `LzfGreedy.GreedyExists` | redis/redis-2.2.2/src/lzf_c.c:141-274 | every input has a list of literals and copies that passes over no offered match and takes no other, each as long as possible |
| `LzfGreedy.GreedyOnce` | redis/redis-2.2.2/src/lzf_c.c:141-274 | and only one |
| `LzfGreedy.PackedIsGreedy` | redis/redis-2.2.2/src/lzf_c.c:98-294 | the compressor's output is the spelling of that list whenever four bytes are to spare, and otherwise that or nothing: no match is missed |
| `LzfDoubled.DoubledPacks` | redis/redis-2.2.2/src/lzf_c.c:141-274 | a text of n = 20 to 8192 bytes with pairwise different slots, written twice: in a room of 2n - 4 bytes the result is not 0, and at most n + (n+1)/32 + 3*((n+262)/264) + 7 |
| `LzfDoubled.AlphabetTwice` | redis/redis-2.2.2/src/lzf_c.c:141-274 | the alphabet written twice, 52 bytes in a room of 48, takes exactly 34 |
| `LzfDoubled.CompressDoubled` | redis/redis-2.2.2/src/lzf_c.c:98-294 | so the array compressor returns such a result, and it decodes to the text written twice |
| `LzfDecompress.CopyLiteral` | redis/redis-2.2.2/src/lzf_d.c:86-92 | the literal loop appends exactly the run |
| `LzfDecompress.CopyRef` | redis/redis-2.2.2/src/lzf_d.c:133-143 | the byte-by-byte copy equals the overlapping copy of the format and reads only bytes already written |
| `LzfDecompress.ReadRef` | redis/redis-2.2.2/src/lzf_d.c:94-119 | the code's fields are those of the format, or the input ends inside it |
| `LzfDecompress.BackReference` | redis/redis-2.2.2/src/lzf_d.c:94-144 | the branch makes the format's step or reports its error, in the order of the source's checks, and writes nothing behind the output position |
| `LzfDecompress.LiteralRun` | redis/redis-2.2.2/src/lzf_d.c:68-93 | the same for literal runs |
| `LzfDecompress.Decompress` | redis/redis-2.2.2/src/lzf_d.c:55-149 | on every non-empty input the loop equals the mathematical decoder, result and errno included, inside both buffers |
| `LzfDecompress.RoundTrip` | redis/redis-2.2.2/src/lzf_c.c:98-294 | a nonzero compression result decompresses, with room for exactly the original length, to the original bytes |
| `PqSort.Med3IsMedian` | redis/redis-2.2.2/src/pqsort.c:89-97 | the chosen index holds a median of the three elements |
| `PqSort.InsertionSort` | redis/redis-2.2.2/src/pqsort.c:109-115 | sorts its range and only rearranges it |
| `PqSort.PivotIndex` | redis/redis-2.2.2/src/pqsort.c:116-127 | the pivot of small, middle and large ranges (ninther) lies inside the range |
| `PqSort.ScanUp` | redis/redis-2.2.2/src/pqsort.c:133-140 | the upward scan keeps the four-part layout and stops at an element above the pivot |
| `PqSort.ScanDown` | redis/redis-2.2.2/src/pqsort.c:141-148 | the downward scan keeps it and stops at an element below the pivot |
| `PqSort.Partition` | redis/redis-2.2.2/src/pqsort.c:128-155 | after the loop the range is in four parts, equal, less, greater and equal, with nothing unclassified, and is a rearrangement |
| `PqSort.VecSwap` | redis/redis-2.2.2/src/pqsort.c:87-87 | two disjoint blocks of equal length change places, everything else stays |
| `PqSort.Gather` | redis/redis-2.2.2/src/pqsort.c:164-168 | the two block swaps turn the four parts into less, equal, greater around the old pivot |
| `PqSort.Halves` | redis/redis-2.2.2/src/pqsort.c:169-187 | sorting only the side that meets the wanted range, or going round with the right side, settles the range |
| `PqSort.Round` | redis/redis-2.2.2/src/pqsort.c:107-187 | one trip round the loop settles the range or leaves a shorter right part, everything before which is settled and not greater than anything in it |
| `PqSort.PartialSort` | redis/redis-2.2.2/src/pqsort.c:99-189 | terminates with a rearrangement in which the wanted positions are settled |
| `PqSort.PqSort` | redis/redis-2.2.2/src/pqsort.c:191-197 | for every total preorder the array is permuted; nothing before a wanted position is greater and nothing after it smaller |
| `PqSortSpec.CountArgument` | redis/redis-2.2.2/src/pqsort.c:191-197 | counting argument: of two permutations, a front that satisfies a property is no longer than a front outside of which nothing does |
| `PqSortSpec.SettledMatchesFullSort` | redis/redis-2.2.2/src/pqsort.c:191-197 | every wanted position holds what any full sort of the same elements puts there, up to cmp-equality |
| `FixedWidth.SignedRoundTrip` | redis/redis-2.2.2/src/intset.c:37-44 | a value that fits n bytes survives being stored as n little-endian bytes |
| `FixedWidth.DecodeFits` | redis/redis-2.2.2/src/intset.c:23-29 | whatever the bytes, the value read fits their width |
| `IntSets.ValueEncodingIsLeast` | redis/redis-2.2.2/src/intset.c:14-20 | the value encoding is at most an encoding exactly if the value fits it |
| `IntSets.WideValueIsExtreme` | redis/redis-2.2.2/src/intset.c:157-162 | a value that needs a wider encoding lies beyond everything the old one can hold, on the side of its sign |
| `IntSets.IncreasingUnique` | redis/redis-2.2.2/src/intset.c:65-104 | a strictly increasing sequence is determined by its set |
| `IntSets.InsertKeepsOrder` | redis/redis-2.2.2/src/intset.c:172-177 | inserting at a searched position keeps the order and adds exactly the value |
| `IntSets.RemoveKeepsOrder` | redis/redis-2.2.2/src/intset.c:191-194 | removing a position keeps the order and takes exactly its value |
| `IntSets.GapsAddUp` | redis/redis-2.2.2/src/intset.c:65-104 | strictly increasing integers are at least as far apart as their positions |
| `IntSets.StorableIsShort` | redis/redis-2.2.2/src/intset.c:54-59 | a buffer below 2^32 bytes holds at most 2^30 elements, and at most 2^16 of two bytes |
| `IntSets.SearchSumsFit` | redis/redis-2.2.2/src/intset.c:85-86 | the sum min+max of the binary search fits an int for every searched value exactly if there are at most 2^30 elements |
| `IntSets.IntSet.EverySumFits` | redis/redis-2.2.2/src/intset.c:85-86 | so it fits on every set that can be stored |
| `IntSets.IntSet.Get` | redis/redis-2.2.2/src/intset.c:32-34 | reads the element of the abstract sequence |
| `IntSets.IntSet.Set` | redis/redis-2.2.2/src/intset.c:37-44 | stores a value in exactly its bytes |
| `IntSets.IntSet.Search` | redis/redis-2.2.2/src/intset.c:65-104 | finds the value's position, or the one position where it can be inserted |
| `IntSets.IntSet.WidenInPlace` | redis/redis-2.2.2/src/intset.c:117-121 | widening back to front inside one buffer overwrites no element before it is read |
| `IntSets.IntSet.UpgradeAndAdd` | redis/redis-2.2.2/src/intset.c:107-130 | the new sequence is the old one with the value in front or behind, all in the wider encoding |
| `IntSets.IntSet.MoveTail` | redis/redis-2.2.2/src/intset.c:132-149 | an overlapping block move: exactly the destination bytes change, to the old source bytes |
| `IntSets.IntSet.InsertAt` | redis/redis-2.2.2/src/intset.c:172-177 | resize, open a gap and store: the sequence with the value inserted |
| `IntSets.IntSet.RemoveAt` | redis/redis-2.2.2/src/intset.c:191-194 | the sequence without the position |
| `IntSets.IntSet.Add` | redis/redis-2.2.2/src/intset.c:152-179 | strictly sorted and representable afterwards; the set gains the value, and success says whether it was new |
| `IntSets.IntSet.Remove` | redis/redis-2.2.2/src/intset.c:182-197 | strictly sorted afterwards; the set loses the value, and success says whether it was there |
| `IntSets.IntSet.Find` | redis/redis-2.2.2/src/intset.c:200-203 | true exactly for members, also for values wider than the encoding |
| `IntSets.Run` | redis/redis-2.2.2/src/intset.c:152-203 | every run of additions, removals and lookups gives the answers and the contents of a mathematical set, as long as no buffer that really grows exceeds 32 bits |
| `DictSpec.ModelIsGet` | redis/redis-2.2.2/src/dict.c:391-410 | the finite map that a state stands for is exactly what lookups find |
| `DictSpec.UsedIsExact` | redis/redis-2.2.2/src/dict.c:259-283 | the two `used` counts add up to the number of keys: none is lost or stored twice |
| `DictOps.MoveOneKeeps` | redis/redis-2.2.2/src/dict.c:209-220 | moving one entry to the new table keeps the invariant, every lookup and the total |
| `DictOps.DrainKeeps` | redis/redis-2.2.2/src/dict.c:207-222 | moving a whole bucket keeps the invariant, every lookup and the total |
| `DictOps.ScanStaysInside` | redis/redis-2.2.2/src/dict.c:204-206 | while the old table has entries the scan for a non-empty bucket stays inside it |
| `DictOps.StepKeeps` | redis/redis-2.2.2/src/dict.c:189-225 | one rehash step keeps every lookup and either advances rehashidx or completes, completing exactly if the old table was empty |
| `DictOps.RehashFinishes` | redis/redis-2.2.2/src/dict.c:189-225 | an unblocked rehash ends within size - rehashidx + 1 steps with the same contents |
| `DictOps.NextPowerLeast` | redis/redis-2.2.2/src/dict.c:532-542 | the least power of two that is at least 4 and the size, for sizes below LONG_MAX |
| `DictOps.MaskIsMod` | redis/redis-2.2.2/src/dict.c:399-401 | masking with a power of two less one is the remainder |
| `DictOps.SlotByMask` | redis/redis-2.2.2/src/dict.c:214-214 | so the masked hash is the slot the invariant speaks of |
| `DictOps.ExpandKeeps` | redis/redis-2.2.2/src/dict.c:156-183 | creating a table or starting a rehash keeps the contents and the counts |
| `DictOps.ExpandIfNeededKeeps` | redis/redis-2.2.2/src/dict.c:509-529 | the automatic expansion always succeeds below the size limit, keeps the contents and leaves a table |
| `DictOps.ResizeExactlyIf` | redis/redis-2.2.2/src/dict.c:144-153 | resizing succeeds exactly if it is on, no rehash is under way and the table has fewer than 2^31 elements, because their number is stored in an int |
| `DictOps.AutoStepKeeps` | redis/redis-2.2.2/src/dict.c:254-256 | the step hidden in lookups never changes the map |
| `DictOps.OnePlace` | redis/redis-2.2.2/src/dict.c:550-572 | a key occurs in one place only, across both tables |
| `DictOps.AddModel` | redis/redis-2.2.2/src/dict.c:259-283 | adding succeeds exactly for a new key and then extends the map by it |
| `DictOps.ReplaceModel` | redis/redis-2.2.2/src/dict.c:289-309 | the map is updated at the key; the result says whether the key was new |
| `DictOps.DeleteModel` | redis/redis-2.2.2/src/dict.c:312-347 | the map loses the key; the result says whether it was there |
| `DictOps.RunModel` | redis/redis-2.2.2/src/dict.c:144-410 | every interleaving of all operations, with any number of iterators and any resize policy at each, gives the answers and the contents of one finite map, with exact counts |
| `DictLoad.ExpandsExactlyIf` | redis/redis-2.2.2/src/dict.c:156-183 | an expansion succeeds exactly outside a rehash and for a size that holds the elements; the table gets the least power of two of buckets from the size and from 4 on |
| `DictLoad.GrowsExactlyIf` | redis/redis-2.2.2/src/dict.c:509-529 | before an insertion outside a rehash: the first table has 4 buckets; a full one begins to move into the least power of two of at least twice the elements, exactly if resizing is on or there are 6 times as many; else nothing changes |
| `DictLoad.RunLoaded` | redis/redis-2.2.2/src/dict.c:259-347 | over every run of additions, replacements, deletions and lookups without iterators and with resizing on, the newest table has at most one element more than buckets |
| `DictLoad.ApplyAdvances` | redis/redis-2.2.2/src/dict.c:254-256 | each such operation moves at least one bucket of a rehash or completes it |
| `DictLoad.RehashEnds` | redis/redis-2.2.2/src/dict.c:189-256 | so of any run of them at most as many as old buckets are left, and one more, pass until the new table is in place |
| `Dicts.NextPowerOf` | redis/redis-2.2.2/src/dict.c:532-542 | the doubling loop computes the least power |
| `Dicts.Dict.MoveHead` | redis/redis-2.2.2/src/dict.c:209-219 | relinking the head of a chain on the heap is the abstract move of one entry |
| `Dicts.Dict.Scan` | redis/redis-2.2.2/src/dict.c:206-206 | the scan loop ends at the first used bucket, inside the table |
| `Dicts.CutBucket` | redis/redis-2.2.2/src/dict.c:328-333 | relinking around one entry of a chain removes exactly that entry and leaves all other buckets of both tables alone |
| `Dicts.PutFirst` | redis/redis-2.2.2/src/dict.c:272-277 | linking an entry in front of a bucket does so and leaves all others alone |
| `Dicts.Dict.DrainBucket` | redis/redis-2.2.2/src/dict.c:207-222 | the bucket loop is the abstract drain |
| `Dicts.Dict.RehashOne` | redis/redis-2.2.2/src/dict.c:192-223 | one turn of the loop is the abstract step |
| `Dicts.Dict.Rehash` | redis/redis-2.2.2/src/dict.c:189-225 | n turns; the result says whether work is left |
| `Dicts.Dict.RehashStep` | redis/redis-2.2.2/src/dict.c:254-256 | a positive iterator count freezes both tables, all links and values |
| `Dicts.Dict.ExpandTo` | redis/redis-2.2.2/src/dict.c:156-183 | the heap form of expansion |
| `Dicts.Dict.ExpandWhenNeeded` | redis/redis-2.2.2/src/dict.c:509-529 | the heap form of the automatic expansion |
| `Dicts.Dict.Search` | redis/redis-2.2.2/src/dict.c:322-343 | the walk along one chain finds the entry and its predecessor |
| `Dicts.Dict.SearchBoth` | redis/redis-2.2.2/src/dict.c:399-408 | the search over both tables agrees with the abstract lookup |
| `Dicts.Dict.KeyIndex` | redis/redis-2.2.2/src/dict.c:550-572 | -1 exactly for a present key (or a failed expansion), else the slot in the table that takes insertions |
| `Dicts.Dict.Add` | redis/redis-2.2.2/src/dict.c:259-283 | the chained, array-based dictionary behaves as the map |
| `Dicts.Dict.Find` | redis/redis-2.2.2/src/dict.c:391-410 | returns the entry of the key, or null, and leaves the map unchanged although it may migrate a bucket |
| `Dicts.Dict.Delete` | redis/redis-2.2.2/src/dict.c:312-347 | unlinks exactly one entry; with iterators present nothing else moves |
| `Dicts.Dict.Replace` | redis/redis-2.2.2/src/dict.c:289-309 | updates the map at the key |
| `Dicts.Dict.Resize` | redis/redis-2.2.2/src/dict.c:144-153 | refused while rehashing or while resizing is off, else an expansion to the number of elements as an int holds it |
| `Dicts.Dict.DeleteStored` | redis/redis-2.2.2/src/dict.c:312-347 | deleting a stored entry during iteration removes that entry and no other from the chains |
| `DictIterators.Iterator.Next` | redis/redis-2.2.2/src/dict.c:431-459 | yields the first pending entry and leaves the others pending, across both tables |
| `DictIterators.Probe` | redis/redis-2.2.2/src/dict.c:391-410 | lookups at any time between two iterator steps, also behind a deletion, leave what is pending alone |
| `DictIterators.DeleteCurrent` | redis/redis-2.2.2/src/dict.c:451-455 | so does deleting the entry just returned, because the iterator saved its successor |
| `DictIterators.Visit` | redis/redis-2.2.2/src/dict.c:431-459 | one round of lookups, deletion, lookups and advance |
| `DictIterators.IterateAndDelete` | redis/redis-2.2.2/src/dict.c:419-465 | a whole iteration, begun before or during a rehash, with deletions of returned entries and arbitrary lookups before and behind each, visits exactly the entries present at the start, each once, and then releases the tables |
| `DictIterators.AllEntriesListTheMap` | redis/redis-2.2.2/src/dict.c:419-465 | those entries list the map: as many as keys, and every key with its value |
| `Decimal.ReadPrinted` | redis/redis-2.2.2/src/aof.c:104-115 | reading the digits of a printed number in front of anything continues with that number |
| `Decimal.PrintRoundTrip` | redis/redis-2.2.2/src/networking.c:724-725 | strtol of a printed long gives the number and stops right behind it |
| `Decimal.PrintInjective` | redis/redis-2.2.2/src/rdb.c:93-99 | a number has one canonical spelling |
| `Decimal.PrintIsShort` | redis/redis-2.2.2/src/rdb.c:183-185 | the spelling of a long is at most 20 bytes |
| `Decimal.DigitsWorth` | redis/redis-2.2.2/src/aof.c:104-115 | the digits printed for a number are worth that number in base ten, without leading zeros |
| `AofLoad.CatGenericCommand` | redis/redis-2.2.2/src/aof.c:104-115 | appends exactly the encoding of the command |
| `Resp.EncodeAllAppend` | redis/redis-2.2.2/src/aof.c:104-115 | encodings of command lists concatenate |
| `Resp.ReadHeader` | redis/redis-2.2.2/src/networking.c:682-690 | a whole header is found by the newline search and read as its number, whatever follows |
| `Resp.CutHeader` | redis/redis-2.2.2/src/networking.c:682-684 | a cut header has no line end yet, so the parser waits |
| `Resp.SplitHeader` | redis/redis-2.2.2/src/networking.c:713-733 | a buffer with the front of a stream either has a cut header or exactly the header's number and rest |
| `Resp.BulkLenStream` | redis/redis-2.2.2/src/networking.c:711-738 | an argument length is cut, or read exactly, within the limits |
| `Resp.TakeBulkStream` | redis/redis-2.2.2/src/networking.c:741-750 | an argument is short, or taken exactly |
| `Resp.ArgsStream` | redis/redis-2.2.2/src/networking.c:708-759 | the argument loop completes the command or can be resumed with nothing lost, for every cut |
| `RespStream.LineWords` | redis/redis-2.2.2/src/networking.c:641-660 | a line of words without spaces, NUL and line end, with any number of spaces in front, behind and, at least one, between them, is split into exactly these words in order |
| `RespStream.SplitLine` | redis/redis-2.2.2/src/networking.c:631-647 | a buffer with the front of a stream either has a cut line, and waits, or exactly the line and the rest |
| `RespStream.RequestStream` | redis/redis-2.2.2/src/networking.c:762-787 | one parse, of a counted command or of a line, yields the next request whole or waits in a resumable state with nothing lost |
| `RespStream.ServeStream` | redis/redis-2.2.2/src/networking.c:762-799 | a pass over the buffer dispatches a front part of the requests and is ready for the rest |
| `RespStream.EveryCutDispatches` | redis/redis-2.2.2/src/networking.c:631-834 | for every mixture of counted commands (1 to 1024*1024 arguments of at most 512 MB) and plain lines, and every cutting of their bytes into reads: exactly these requests, argument for argument and in order, blank lines being none, ending in the initial state with an empty buffer |
| `RespStream.EveryCutDispatchesCommands` | redis/redis-2.2.2/src/networking.c:672-834 | the same for counted commands alone, in the encoding of the append-only file |
| `RespLimits.BulkLimit` | redis/redis-2.2.2/src/networking.c:724-736 | a printed length is accepted exactly from 0 to 512 MB, for every long; anything else shuts the connection |
| `RespLimits.NoNumberIs` | redis/redis-2.2.2/src/networking.c:724-725 | strtol takes nothing of a line exactly if it has white space, an optional sign and then no digit |
| `RespLimits.AcceptedExactlyIf` | redis/redis-2.2.2/src/networking.c:711-738 | which complete lines are taken as the length of an argument, on the bytes of the buffer; every other one shuts the connection unless the cursor passes the end |
| `RespLimits.StrayExactlyIf` | redis/redis-2.2.2/src/networking.c:713-738 | the cursor passes the end of the buffer exactly on a dollar sign, white space with a line end in it, an optional sign, digits worth 0 to 512 MB, and a final carriage return |
| `RespLimits.NeverStray` | redis/redis-2.2.2/src/networking.c:713-738 | with anything but white space between dollar sign and line end it never does |
| `RespLimits.StrayWitness` | redis/redis-2.2.2/src/networking.c:713-738 | five bytes on which it does |
| `RespLimits.CountLimit` | redis/redis-2.2.2/src/networking.c:689-698 | a printed count, for every long, is cut to an int: then 0 and less make an empty request, up to 1024*1024 arguments are read, more shut the connection |
| `RespLimits.MalformedStaysShut` | redis/redis-2.2.2/src/networking.c:765-773 | after a protocol error nothing more is dispatched, whatever else arrives |
| `Networking.Client.ResetClient` | redis/redis-2.2.2/src/networking.c:596-601 | back to the state between requests |
| `Networking.Client.ReadBulkLen` | redis/redis-2.2.2/src/networking.c:711-738 | the cursor-based code equals the specification on the rest of the buffer, errors included |
| `Networking.Client.TakeArgument` | redis/redis-2.2.2/src/networking.c:745-750 | the same for taking an argument |
| `Networking.Client.ReadArguments` | redis/redis-2.2.2/src/networking.c:708-759 | the loop with its position variable and final trim equals the recursive parser |
| `Networking.Client.ProcessMultibulkBuffer` | redis/redis-2.2.2/src/networking.c:672-760 | header, limits, resumption and protocol errors as specified |
| `Networking.Client.ProcessInlineBuffer` | redis/redis-2.2.2/src/networking.c:631-663 | a line split at spaces into its non-empty words; `RespStream.LineWords` says which these are |
| `Networking.Client.ProcessInputBuffer` | redis/redis-2.2.2/src/networking.c:762-799 | dispatches what the specification says, in order |
| `Networking.Client.ReadQuery` | redis/redis-2.2.2/src/networking.c:801-829 | a successful read appends and serves |
| `Networking.Converse` | redis/redis-2.2.2/src/networking.c:801-829 | a client that gets the bytes of some requests, counted or in lines, in any pieces executes exactly these requests in order |
| `AofLoad.LineOfHeader` | redis/redis-2.2.2/src/aof.c:255-255 | fgets with its 128-byte buffer takes exactly a header line |
| `AofLoad.ReadArgument` | redis/redis-2.2.2/src/aof.c:265-271 | one argument is read as specified, or with the same failure |
| `AofLoad.ReadArguments` | redis/redis-2.2.2/src/aof.c:264-272 | the argument loop is the specification |
| `AofLoad.LoadAppendOnlyFile` | redis/redis-2.2.2/src/aof.c:215-322 | the loading loop is the specification: the same commands, and the same way of ending, among them an unknown command and an open MULTI at the end; an empty file is no success |
| `AofLoad.ReadsWhatWasWritten` | redis/redis-2.2.2/src/aof.c:240-302 | the commands of a file of whole commands are exactly these |
| `AofLoad.LoadsWhatWasWritten` | redis/redis-2.2.2/src/aof.c:240-306 | such a file executes exactly its commands, and loads exactly if no MULTI is left open at its end |
| `AofCheck.ReadCommandLocal` | redis/redis-2.2.2/src/redis-check-aof.c:80-107 | a command is recognised by its own bytes, whatever follows |
| `AofCheck.ReadCommandOfPrefix` | redis/redis-2.2.2/src/redis-check-aof.c:80-107 | on a prefix of a log the checker reads the same command if it is whole, and none otherwise |
| `AofCheck.LongestIsLongest` | redis/redis-2.2.2/src/redis-check-aof.c:75-116 | the recursive search finds the longest sound prefix |
| `AofCheck.ReadArguments` | redis/redis-2.2.2/src/redis-check-aof.c:84-100 | the argument loop with its first-argument test equals the specification |
| `AofCheck.Process` | redis/redis-2.2.2/src/redis-check-aof.c:75-116 | the returned position ends a prefix of whole commands with every MULTI closed by an EXEC, and no longer prefix is like that |
| `AofCheck.WrittenIsSound` | redis/redis-2.2.2/src/redis-check-aof.c:87-97 | a log the server wrote is sound exactly if its transactions are balanced |
| `AofCheck.SoundPrefixIsWhole` | redis/redis-2.2.2/src/redis-check-aof.c:81-107 | every sound prefix of a written log ends between two commands |
| `AofCheck.BalancedCloses` | redis/redis-2.2.2/src/aof.c:306-306 | the loading client is never inside a MULTI that the checker takes for closed, DISCARD included |
| `AofCheck.RepairAndLoad` | redis/redis-2.2.2/src/redis-check-aof.c:75-116 | a log whose end was lost, cut at the reported position, loads without error and executes the longest balanced run of commands that were written in full |
| `AofCheck.AcceptedFileLoads` | redis/redis-2.2.2/src/redis-check-aof.c:75-116 | any file that the checker accepts, written by the server or not, loads exactly if every announced count is from 1 to the largest int and every name is in the command table |
| `AofCheck.NoArgumentsSlips` | redis/redis-2.2.2/src/redis-check-aof.c:81-84 | a file that announces no arguments is accepted by the checker and not loaded |
| `RdbFormat.BigEndianRoundTrip` | redis/redis-2.2.2/src/rdb.c:50-51 | network byte order: the number is that of its four bytes, the first the highest, and reads back |
| `RdbFormat.LenRoundTrip` | redis/redis-2.2.2/src/rdb.c:31-55 | a length below 2^32-1 in its 6, 14 or 32-bit form loads as itself and consumes exactly its bytes |
| `RdbFormat.LenSurvives` | redis/redis-2.2.2/src/rdb.c:562-586 | a length survives exactly if it is below 2^32-1: the value above stands for errors and larger ones are cut to 32 bits |
| `RdbFormat.FitsRanges` | redis/redis-2.2.2/src/rdb.c:62-83 | the three width tests are the ranges of 8, 16 and 32-bit integers |
| `RdbFormat.IntegerSizes` | redis/redis-2.2.2/src/rdb.c:62-83 | the integer form takes 2, 3 or 5 bytes, the fewest that hold the value, and exists exactly for 32-bit values |
| `RdbFormat.IntegerLayout` | redis/redis-2.2.2/src/rdb.c:62-83 | the bytes of the integer form: C0, C1 or C2 by the range, then the low bytes of the number, the lowest first |
| `RdbFormat.IntegerEncodes` | redis/redis-2.2.2/src/rdb.c:592-617 | an encoded integer loads as its canonical spelling |
| `RdbFormat.TryIntegerEncodes` | redis/redis-2.2.2/src/rdb.c:88-102 | a string saved as an integer loads as the same string |
| `RdbFormat.FoundExactlyIf` | redis/redis-2.2.2/src/rdb.c:88-102 | strtol finds the value of a 32-bit spelling, and a NUL behind it, exactly if a NUL follows the string, or the zeros behind the string 0 |
| `RdbFormat.TryIntegerTakes` | redis/redis-2.2.2/src/rdb.c:88-102 | whatever is in memory behind the string: exactly the canonical spellings of 32-bit numbers that are terminated so take the integer form |
| `RdbFormat.VerbatimEncodes` | redis/redis-2.2.2/src/rdb.c:165-172 | a verbatim string loads as itself |
| `RdbFormat.LzfEncodes` | redis/redis-2.2.2/src/rdb.c:619-636 | a compressed string loads as itself if its data decode to it |
| `RdbFormat.EncodesAllAppend` | redis/redis-2.2.2/src/rdb.c:716-735 | forms of strings one after the other load as the list of these strings |
| `RdbFormat.EncodesFieldsAppend` | redis/redis-2.2.2/src/rdb.c:806-841 | field and value pairs with distinct keys load as the map, in a zipmap or a hash table alike |
| `RdbFormat.CountedEncodes` | redis/redis-2.2.2/src/rdb.c:704-706 | a count and that many elements load as the object, whatever the limits for compact encodings |
| `RdbBytes.LenSizes` | redis/redis-2.2.2/src/rdb.c:31-55 | a length takes 1 byte below 64, 2 below 16384 and else 5, and is never taken for an encoding |
| `RdbBytes.NumericTakes` | redis/redis-2.2.2/src/rdb.c:147-153 | the integer form is chosen exactly for terminated canonical spellings of 32-bit numbers |
| `RdbBytes.RawIsDue` | redis/redis-2.2.2/src/rdb.c:143-173 | which form a string gets, on the bytes: 2, 3 or 5 if it spells a number; else C3 with both lengths and the compressor's output exactly if compression is on, it is longer than 20 bytes and the compressor saves four; else its length and itself |
| `RdbBytes.ObjectHasSize` | redis/redis-2.2.2/src/rdb.c:249-396 | so a save takes exactly the sum of these sizes and that of the count |
| `Rdb.SaveLen` | redis/redis-2.2.2/src/rdb.c:31-55 | writes exactly the length's bytes and returns their number |
| `Rdb.SaveLzfString` | redis/redis-2.2.2/src/rdb.c:104-139 | for every memory the compressor meets: the same bytes, which are nothing or a form of the string, and their exact number |
| `Rdb.SaveRawString` | redis/redis-2.2.2/src/rdb.c:143-173 | the bytes appended to the file have the form that is due (`RdbBytes.DueForm`): number, compressed or verbatim, by the string, the bytes behind it and the compression setting; they load as the same string, and their number is returned |
| `Rdb.SaveLongLong` | redis/redis-2.2.2/src/rdb.c:176-192 | an integer object loads as its spelling |
| `Rdb.SaveRun` | redis/redis-2.2.2/src/rdb.c:264-293 | the element loop, with an exact total |
| `Rdb.SaveFields` | redis/redis-2.2.2/src/rdb.c:358-379 | the field loop, with an exact total |
| `Rdb.SaveObject` | redis/redis-2.2.2/src/rdb.c:249-386 | the result is the number of bytes written, the sum of the sizes due to the strings and the count; the bytes are a function of the object and the compression setting, and load as the same value in front of anything, consuming exactly themselves |
| `Rdb.SavedObjectLen` | redis/redis-2.2.2/src/rdb.c:392-396 | saving to no file counts exactly the bytes that any save writes, the size due to the object, with and without compression |
| `Rdb.MeasureAndSave` | redis/redis-2.2.2/src/rdb.c:389-396 | so the number measured is the number a later save takes |
| `Rdb.Reader.ReadLen` | redis/redis-2.2.2/src/rdb.c:562-586 | reads a length or the error as specified and moves behind it |
| `Rdb.Reader.ReadInteger` | redis/redis-2.2.2/src/rdb.c:592-617 | the same for integers |
| `Rdb.Reader.ReadLzf` | redis/redis-2.2.2/src/rdb.c:619-636 | the same for compressed strings, with zeros behind a short result |
| `Rdb.Reader.ReadText` | redis/redis-2.2.2/src/rdb.c:638-664 | the same for all string forms |
| `Rdb.Reader.ReadTexts` | redis/redis-2.2.2/src/rdb.c:716-735 | the element loop of lists and sets |
| `Rdb.Reader.ReadField` | redis/redis-2.2.2/src/rdb.c:811-838 | one field, with the conversion from zipmap to table |
| `Rdb.Reader.ReadFields` | redis/redis-2.2.2/src/rdb.c:806-841 | the field loop of hashes with its conversion from zipmap to table |
| `Rdb.Reader.ReadObject` | redis/redis-2.2.2/src/rdb.c:694-846 | the object reader equals the specification, failures included |
| `Rdb.Unpack` | redis/redis-2.2.2/src/rdb.c:626-629 | decompression into a zero-filled string of the announced length |
| `Rdb.SaveAndLoad` | redis/redis-2.2.2/src/rdb.c:694-846 | an object saved between any two byte strings loads back as the same value, leaving the second one unread |
| `AofReplay.SelectApplies` | redis/redis-2.2.2/src/aof.c:137-149 | replaying the recorded SELECT selects that database |
| `AofReplay.ReplayAppend` | redis/redis-2.2.2/src/aof.c:283-283 | replaying two lists in a row is replaying their concatenation |
| `AofReplay.ReadAllAppend` | redis/redis-2.2.2/src/aof.c:240-302 | what follows a log of whole commands is read after it |
| `AofReplay.CutCommand` | redis/redis-2.2.2/src/aof.c:255-272 | on a cut log a command is read as the one that was written, or not at all |
| `AofReplay.TruncatedLoadsFront` | redis/redis-2.2.2/src/aof.c:240-322 | a log cut anywhere executes only a front part of its commands, and loads exactly if cut between two of them and outside of a MULTI |
| `AofReplay.ListRebuilt` | redis/redis-2.2.2/src/aof.c:390-424 | the RPUSH commands rebuild a list in order |
| `AofReplay.SetRebuilt` | redis/redis-2.2.2/src/aof.c:428-449 | the SADD commands rebuild a set |
| `AofReplay.HashRebuilt` | redis/redis-2.2.2/src/aof.c:470-501 | the HSET commands rebuild a hash |
| `AofReplay.EntryRebuilt` | redis/redis-2.2.2/src/aof.c:383-504 | the commands for one key build exactly its value |
| `AofReplay.DataOfAt` | redis/redis-2.2.2/src/aof.c:344-383 | the dataset of the databases has exactly their keys, each in its database and with its object's value |
| `AofReplay.RewriteRebuilds` | redis/redis-2.2.2/src/aof.c:344-517 | a rewritten file rebuilds exactly the dataset it was made from, every key in its database |
| `AofReplay.RewriteAppendOnlyFile` | redis/redis-2.2.2/src/aof.c:328-517 | the nested loops write exactly these commands |
| `Aof.RecordKeeps` | redis/redis-2.2.2/src/aof.c:137-180 | recording a command keeps a log faithful, in the database it was issued in, whatever was selected before, and opens or closes a MULTI as the command does |
| `Aof.ExecKeeps` | redis/redis-2.2.2/src/redis.c:953-961 | executing and feeding a command keeps both the log and the file of a running rewrite faithful |
| `Aof.FlushKeeps` | redis/redis-2.2.2/src/aof.c:60-84 | so does flushing, and what is on disk alone loads |
| `Aof.RewriteKeeps` | redis/redis-2.2.2/src/aof.c:554-592 | forcing a SELECT at the fork makes the differences mergeable, even for a fork inside a transaction |
| `Aof.ChildRebuilds` | redis/redis-2.2.2/src/aof.c:328-517 | the child's file rebuilds the dataset of the fork and has no MULTI |
| `Aof.DoneKeeps` | redis/redis-2.2.2/src/aof.c:615-673 | the end of the child: the new file can be relied upon if nothing is left in the buffer; a failed rewrite changes nothing that matters |
| `Aof.StopKeeps` | redis/redis-2.2.2/src/aof.c:13-32 | switching the log off leaves a log that can be relied upon, unless a transaction is open |
| `Aof.StoppedLoads` | redis/redis-2.2.2/src/aof.c:13-32 | a log that can be relied upon and is switched off loads exactly if no MULTI is open, and has the dataset in any case |
| `Aof.StartKeeps` | redis/redis-2.2.2/src/aof.c:36-51 | switching it on makes the file of the rewrite, not the old one, the one to rely upon |
| `Aof.FailedOpenIsFatal` | redis/redis-2.2.2/src/aof.c:36-43 | a log whose file cannot be opened is on all the same, and the next flush of a logged command ends the server |
| `Aof.NeverExits` | redis/redis-2.2.2/src/aof.c:60-81 | if every attempt to switch the log on finds its file, no flush of any run ends the server |
| `Aof.EveryRunRebuilds` | redis/redis-2.2.2/src/aof.c:13-673 | over every run of executing, flushing, forking, finishing, switching off and on, by single steps, whatever is to be relied upon rebuilds the dataset in memory |
| `Aof.CarefulIsRelied` | redis/redis-2.2.2/src/aof.c:13-673 | with the log on and every rewrite installed with an empty buffer, the log is always to be relied upon |
| `Aof.EveryCarefulRunRebuilds` | redis/redis-2.2.2/src/aof.c:13-673 | so from an empty server on: it never exits, at any time the file alone loads, and executing file and buffer gives the dataset in memory; the two load together exactly if no transaction is open |
| `Aof.FlushedFileRebuilds` | redis/redis-2.2.2/src/aof.c:60-84 | right after any flush of such a run the buffer is empty, and the file alone loads and rebuilds the dataset in memory |
| `Aof.DumpRebuilds` | redis/redis-2.2.2/src/aof.c:657-661 | a rewrite while the log is off is a dump of the dataset at the fork, whatever is executed meanwhile |
| `Aof.ReplaysOnceExactlyIf` | redis/redis-2.2.2/src/aof.c:615-673 | the new log executes every due command once exactly if the buffer was empty; otherwise the buffered commands are executed at the end although they, or the snapshot made after them, are already due |
| `Aof.InstallExactlyIf` | redis/redis-2.2.2/src/aof.c:615-673 | as for the dataset, the new log is right exactly if executing the buffered commands on top of the dataset changes nothing |
| `Aof.EmptyBufferIsIdle` | redis/redis-2.2.2/src/aof.c:632-654 | so an empty buffer is enough |
| `Aof.PendingPushIsDoubled` | redis/redis-2.2.2/src/aof.c:615-673 | a concrete run with a pending push: after a restart the list has the element twice |
| `AofAccept.RewriteAcceptedExactlyIf` | redis/redis-2.2.2/src/aof.c:579-586 | a rewritten file with its differences, in which MULTI and EXEC pair up but for an EXEC of a transaction that was open at the fork, is accepted by the checker exactly if none was open |
| `AofAccept.FileAcceptedExactlyIf` | redis/redis-2.2.2/src/aof.c:13-673 | over every run of paired MULTI and EXEC from an empty server: the checker accepts the file on disk, and file and buffer between two transactions, exactly if the newest installed rewrite was not forked inside a transaction |
| `AofAccept.CheckerRefusesRewrite` | redis/redis-2.2.2/src/aof.c:594-606 | a concrete run with a rewrite started inside MULTI: the new file loads, and the checker refuses it |
| `Aof.Server.Call` | redis/redis-2.2.2/src/redis.c:953-961 | executes, and feeds if the log is on |
| `Aof.Server.FeedAppendOnlyFile` | redis/redis-2.2.2/src/aof.c:137-180 | both buffers gain the recorded bytes, and the database is remembered |
| `Aof.Server.FlushAppendOnlyFile` | redis/redis-2.2.2/src/aof.c:60-84 | the buffer moves to the file, or the server exits if there is none to write to |
| `Aof.Server.RewriteAppendOnlyFileBackground` | redis/redis-2.2.2/src/aof.c:554-592 | refused while a child runs or if fork fails; else the child's file is fixed and the next record will select |
| `Aof.Server.BackgroundRewriteDoneHandler` | redis/redis-2.2.2/src/aof.c:615-673 | installs or discards as specified, with the log on or off |
| `Aof.Server.StopAppendOnly` | redis/redis-2.2.2/src/aof.c:13-32 | flushes and switches off; drops the differences of the rewrite if a snapshot is being saved |
| `Aof.Server.StartAppendOnly` | redis/redis-2.2.2/src/aof.c:36-51 | switches on with a rewrite, or is refused: off again if the rewrite cannot be started, on without a file if that cannot be opened |
| `TransactionsSpec.RunKeeps` | redis/redis-2.2.2/src/multi.c:147-202 | over every run of any clients, a key's clients and a client's keys are exact inverses without duplicates or empty lists |
| `TransactionsSpec.StepKeeps` | redis/redis-2.2.2/src/multi.c:147-202 | every single step keeps the two indexes exact inverses |
| `TransactionsSpec.EffectsMark` | redis/redis-2.2.2/src/multi.c:206-250 | a client is dirty after some effects exactly if it was or one of them hits a key it watches |
| `TransactionsSpec.StepMarks` | redis/redis-2.2.2/src/multi.c:77-127 | one step sets the flag by a hit, and only the client's own UNWATCH or EXEC (or leaving) takes it off |
| `TransactionsSpec.DirtyExactlyIf` | redis/redis-2.2.2/src/multi.c:52-127 | over every run, exactly why a client is dirty |
| `TransactionsSpec.ExecVerdict` | redis/redis-2.2.2/src/multi.c:77-127 | EXEC aborts exactly if a watched key was touched since the flag was last cleared; then nothing runs, else the whole queue; afterwards nothing is watched or queued |
| `TransactionsSpec.TouchedCannotCommit` | redis/redis-2.2.2/src/multi.c:206-250 | after a write of a watched key, or a flush of its database or of all that deletes it, the client's next EXEC aborts unless it ran UNWATCH first |
| `TransactionsSpec.DiscardKeepsFlag` | redis/redis-2.2.2/src/multi.c:52-63 | DISCARD keeps the flag, so a later transaction over an untouched key aborts too |
| `TransactionsSpec.RefusedChangesNothing` | redis/redis-2.2.2/src/redis.c:985-1048 | a refused request leaves no trace: nothing is queued, and an open transaction goes on |
| `TransactionsRuns.WatchRegisters` | redis/redis-2.2.2/src/multi.c:252-262 | WATCH outside MULTI, for every state and list of keys: the client then watches exactly what it did and all these keys in its database, and nothing else changes for any client |
| `TransactionsRuns.StepWatches` | redis/redis-2.2.2/src/multi.c:147-202 | one step, exactly: what a client watches grows by its own WATCH and goes by its own UNWATCH, DISCARD and EXEC alone |
| `TransactionsRuns.WatchedExactlyIf` | redis/redis-2.2.2/src/multi.c:147-202 | over every run, a client watches a key exactly if it asked for it and has not given its watches up since |
| `TransactionsRuns.WatchedWriteAborts` | redis/redis-2.2.2/src/multi.c:206-262 | from the request on: after WATCH of some keys, not given up, a write or flush of any of them makes the next EXEC abort unless the flag was cleared |
| `TransactionsRuns.InsideMulti` | redis/redis-2.2.2/src/redis.c:1051-1056 | inside MULTI exactly the requests that pass the tests and are none of MULTI, WATCH, DISCARD and EXEC are answered as queued |
| `TransactionsRuns.StepTransacts` | redis/redis-2.2.2/src/multi.c:27-127 | one step, exactly: MULTI opens a transaction, EXEC and DISCARD end it with an empty queue, and what is answered as queued goes to the end of the queue |
| `TransactionsRuns.StepSelects` | redis/redis-2.2.2/src/db.c:156-161 | one step, exactly: a client's database is the last that its own commands selected when they were executed |
| `TransactionsRuns.ExecRunsWhatWasQueued` | redis/redis-2.2.2/src/multi.c:27-127 | over every run from a server without clients: from an accepted MULTI on, EXEC aborts or executes exactly the commands answered as queued, all of them, once each, in the order they were issued, and leaves nothing queued or watched |
| `Transactions.SearchKey` | redis/redis-2.2.2/src/adlist.c:285-306 | the first position of a value |
| `Transactions.Server.WatchForKey` | redis/redis-2.2.2/src/multi.c:147-174 | both indexes gain the pair unless it is there |
| `Transactions.Server.UnwatchAllKeys` | redis/redis-2.2.2/src/multi.c:178-202 | the deleting loop equals removing the client from every list and dropping empty ones |
| `Transactions.Server.TouchWatchedKey` | redis/redis-2.2.2/src/multi.c:206-223 | marks exactly the clients that watch the key |
| `Transactions.Server.TouchWatchedKeysOnFlush` | redis/redis-2.2.2/src/multi.c:229-250 | marks exactly the clients that watch an existing key of the flushed database |
| `Transactions.Server.MultiCommand` | redis/redis-2.2.2/src/multi.c:43-50 | opens a transaction, or is refused inside one |
| `Transactions.Server.DiscardCommand` | redis/redis-2.2.2/src/multi.c:52-63 | drops the queue and the watches, not the flag |
| `Transactions.Server.WatchCommand` | redis/redis-2.2.2/src/multi.c:252-262 | watches all keys (`TransactionsRuns.WatchRegisters`), or is refused inside MULTI |
| `Transactions.Server.UnwatchCommand` | redis/redis-2.2.2/src/multi.c:264-268 | drops the watches and the flag |
| `Transactions.Server.ExecCommand` | redis/redis-2.2.2/src/multi.c:77-127 | aborts or executes as specified |
| `Transactions.Server.ProcessCommand` | redis/redis-2.2.2/src/redis.c:991-1063 | bad requests are refused, also inside MULTI; there everything else but four commands is put at the end of the queue (`TransactionsRuns.StepTransacts`) |
| `AdList.List.AddNodeHead` | redis/redis-2.2.2/src/adlist.c:80-98 | the sequence gains a first value; both chains stay mirror images |
| `AdList.List.AddNodeTail` | redis/redis-2.2.2/src/adlist.c:106-124 | the sequence gains a last value |
| `AdList.List.InsertNode` | redis/redis-2.2.2/src/adlist.c:126-153 | the value is inserted right before or behind a node |
| `AdList.List.DelNode` | redis/redis-2.2.2/src/adlist.c:159-172 | exactly the node is unlinked, ends included, and the length is exact |
| `AdList.List.Index` | redis/redis-2.2.2/src/adlist.c:313-325 | the node at an index, negative ones from the tail, null exactly outside the list |
| `AdList.List.SearchKey` | redis/redis-2.2.2/src/adlist.c:285-306 | the first matching node from the head, or null if none matches |
| `AdList.CopiedIs` | redis/redis-2.2.2/src/adlist.c:234-240 | what a copy is: the same values without a dup function, else each value's copy in order, if all can be copied |
| `AdList.List.Dup` | redis/redis-2.2.2/src/adlist.c:242-274 | a fresh list with that copy, or null; the original is untouched |
| `AdList.Iterator.Next` | redis/redis-2.2.2/src/adlist.c:221-232 | returns the current node and already stands on its neighbour |
| `AdList.VisitAndDelete` | redis/redis-2.2.2/src/adlist.c:207-232 | a traversal from either end that deletes nodes as they are returned visits every value once, in the order of its direction, and leaves exactly the others |
| `ListCodec.EncodeIsCodes` | protocol.py:40-43 | the three replacements in a row escape each character on its own |
| `ListCodec.UncodeCodes` | protocol.py:40-43 | the escape codes can be read back from left to right |
| `ListCodec.BoundariesSurvive` | protocol.py:32-43 | splitting the text gives the escaped fields and one empty piece |
| `ListCodec.EncodeListInjective` | protocol.py:40-43 | different lists of fields never share a text |
| `ListCodec.DecodedField` | protocol.py:8-10 | what decoding an encoded field gives, for every field: behind a backslash 'n' becomes a newline and ':' a bar |
| `ListCodec.MangledAt` | protocol.py:8-10 | the same, character by character |
| `ListCodec.FieldSurvives` | protocol.py:8-10 | a field survives exactly if no backslash stands right before an 'n' or a ':' |
| `ListCodec.DecodedList` | protocol.py:32-43 | number and boundaries of the fields always survive |
| `ListCodec.ListSurvives` | protocol.py:32-43 | decodeList inverts encodeList exactly on lists of such fields |
| `LogDelivery.StepKeeps` | ircclient/IRCUser.py:12-35 | every store write, and a restart of the writer at any point, keeps all lines below `end` present and unchanged |
| `LogDelivery.WindowIsExact` | webserver/LogReader.py:16-30 | a window without missing lines is each number once, in order |
| `LogDelivery.RecentIsExact` | webserver/LogReader.py:34-43 | a first read is exactly the last 30 lines, or all if there are fewer, whatever is written meanwhile |
| `LogDelivery.BeforeIsExact` | webserver/LogReader.py:61-70 | reading backwards is exactly the 60 lines before a known one, or all of them if there are fewer |
| `LogDelivery.GetLog` | webserver/LogReader.py:16-30 | the loop returns the lines of the window that exist |
| `LogDelivery.GetRecentLog` | webserver/LogReader.py:34-43 | the last 30 lines |
| `LogDelivery.GetLogAfter` | webserver/LogReader.py:47-56 | at most 5 lines from a number on |
| `LogDelivery.GetLogBefore` | webserver/LogReader.py:61-70 | the up to 60 lines before a number |
| `LogDelivery.AfterIsExact` | webserver/LogReader.py:47-56 | an update is exactly the next 5 lines, or as many as there are, whatever was written between its two reads |
| `LogDelivery.EveryRunDelivers` | webserver/webserver.py:110-117 | over every interleaving of the writer's single store writes with the two reads of each poll, the client holds a gap-free, duplicate-free, ordered prefix |
| `LogDelivery.DrainsInCeilPolls` | webserver/LogReader.py:47-56 | n outstanding lines are drained after k polls exactly if k >= ceil(n/5) |
| `LogDelivery.ReadBackwards` | webserver/LogReader.py:34-70 | the recent lines and repeated older windows cover [begin, end) exactly once |
| `LogDelivery.Channel.AppendLog` | ircclient/IRCUser.py:27-35 | one append makes exactly one more line readable and changes no readable one |
| `LogMetadata.StepKeeps` | webserver/LogMetadata.py:94-100 | the list holds exactly the waiting threads, once each |
| `LogMetadata.ListedExactlyIf` | webserver/LogMetadata.py:94-100 | over every run a thread is on the list, once, exactly if it has registered and not left since |
| `LogMetadata.FlagExactlyIf` | webserver/LogMetadata.py:66-92 | while a thread waits, its flag says exactly whether a notifying step has happened |
| `LogMetadata.NoLostWakeUp` | webserver/LogMetadata.py:147-181 | over every interleaving a waiter is told None exactly if nothing was notified between registration and removal, and then what it knew is still true; else it gets the ids current at its removal |
| `LogMetadata.NumberRecorded` | webserver/LogMetadata.py:66-78 | an announced number is the channel's number, and all other channels keep theirs |
| `LogMetadata.NumbersAreAnnounced` | webserver/LogMetadata.py:66-92 | over every run, each channel's number is the last one announced, and absent once it was closed with another number than 0 |
| `LogMetadata.StaysExactlyIf` | webserver/LogMetadata.py:80-92 | after a close and any steps without a new line, the channel is still listed exactly if its number was 0 when it was closed |
| `LogMetadata.FirstLineStays` | webserver/LogMetadata.py:80-92 | the first line of a channel, a waiting client, and the close: the channel stays and the client is not woken |
| `LogMetadata.User.WakeAll` | webserver/LogMetadata.py:76-78 | sets the flag of every registered waiter and of no other |
| `LogMetadata.User.NewLogIDArrived` | webserver/LogMetadata.py:66-78 | records the number and wakes all |
| `LogMetadata.User.CloseChannel` | webserver/LogMetadata.py:80-92 | removes the channel and wakes all, unless its number is 0: then nothing happens |
| `LogMetadata.User.BeginWait` | webserver/LogMetadata.py:155-161 | answers at once if the client is out of date, else registers |
| `LogMetadata.User.EndWait` | webserver/LogMetadata.py:169-181 | removes the waiter and tells it what its flag says |

## Left out

- Sockets, event loop, fork, files as such, logging, HTTP, the Redis client library: bytes read and written are sequences.
- Failed writes, allocation failure, reference counts and virtual-memory swapping (`vm_*` branches).
- Networking.Client.ProcessInputBuffer: does not model `BLOCKED` and `IO_WAIT` clients or a `processCommand` that closes its client; every complete request is dispatched.
- Networking.Client.ReadBulkLen: does not follow the code behind the end of its buffer; `Stray` says exactly when it would go there.
- Dicts.Dict.KeyIndex: does not cut the index to an int, because tables stay below 2^31 buckets (dict.c:550-572, also `rehashidx` and the iterator's index).
- The `main` of redis-check-aof, which refuses an empty file and asks before it truncates; the model is its `process`.
- 32-bit overflow of the parser's `int pos` and of the snapshot writers' `int` byte counts: buffers and objects stay below 2 GB.
- Negative argument lengths in log files: the checker and the loader models refuse them, the C code is undefined there.
- Sorted sets in snapshots and rewrites (floating-point scores), `EXPIRE`, `EXPIREAT` and `SETEX` in the log, already expired keys in a rewrite.
- Ziplists, zipmaps, `sds` and `ll2string` as data structures: they appear as sequences, maps and canonical decimal text.
- `redis-check-dump.c`, replication, `dictGetRandomKey`, `intsetRandom`, `dictRehashMilliseconds`, hash quality: nothing harder is built on them.
- AofReplay.RewriteAppendOnlyFile: does not model the rename and the error paths, which only discard the file, expires and sorted sets.
- Aof.InstallExactlyIf: its condition executes commands, because whether a command is harmless to repeat depends on its implementation; the test on the handler's state is that of Aof.ReplaysOnceExactlyIf.
- Transactions.Server.ExecCommand: takes what the queued commands do to watched keys as a parameter, because the command implementations and the dataset are not modelled.
- Transactions.Server.ProcessCommand: takes what a command does to watched keys as a parameter, because the command implementations are not modelled.
- LogDelivery.EveryRunDelivers: excludes clearing a log, because the daemon deletes the whole hash and a client cannot tell.
- LogDelivery.ReadBackwards: reads one state of the store, because old windows do not depend on later lines.
- Loading a user's channels from the store when the first request arrives (LogMetadata.py:39-64), UTF-8 repair and integer fields of `encodeList`.
- IRC message parsing, configuration files, command-line tools, benchmarks and the browser code.
