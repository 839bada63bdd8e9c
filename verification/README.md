# DrutaDB, verified in Dafny

A model of DrutaDB, a single-threaded Redis-like store, with proofs of what its parts promise each
other. Two layers run through the project.

* **Values.** `Keyspace.Db` is the store as a value: the recency order of the keys (least recent first)
  and what each key holds. `Commands.Exec` says what every command does to it, evictions included.
  `Resp.Step` is the parser byte by byte, `Hash.HashRep` the two forms of a hash, `PubSub.State` the two
  subscription indexes, `Durability.Sys` store and log file together.
* **Memory.** `Lru.Store` is the real structure: nodes in a doubly linked list from `tail` to `head`,
  aliased by the key index, with byte counts kept by deltas only. `Hash.DrutaHash`, `Resp.RespParser`,
  `PubSub.Registry` and `Server.Server` are objects updated in place. Every method is proved to do to the
  abstract state what the value layer says, and keeps the representation invariant (`Store.Valid`:
  list and back links, index, one hash per node, exact byte count of every node and of the whole).

The main results, hardest first.

1. **Durability over whole runs** (`Durability.RunIsDurable`). After any run of commands, log rewrites and
   crashes that meets the side conditions below, the bytes of the log parse to the last one, and executing
   them on an empty store gives, whatever the clock says then, one and the same store: the live data on every
   key, except keys that hold an empty collection or an expired string, which may be missing. The side
   conditions, each a guard on the step itself: arguments fit the parser's ints, the result fits the memory
   limit (nothing is evicted), a pop from a list has no negative count, the clock does not go back, no string
   has a negative expiry at a rewrite, a crash leaves a file that ends with a complete command, and the log can
   follow the command (`LogFollows`): the expiry a SET ends up with is not relative (the last time option that
   takes part is PXAT, or none does), an expired key that GET deletes is no longer in the log, and HSET does
   not overwrite values while creating no field. That the replay evicts nothing and never touches a lost node
   is not assumed but proved, by showing that a replayed store never costs more than the live one. What the log
   can follow is exact: after any harmless command the replay is in step at every time if and only if
   `LogFollows` held (`ClientDurableIff`), and likewise for a rewrite (`RewriteDurableIff`). Each way to fail
   comes with a concrete run from an empty server (`Divergence`).
   What this means to clients is `Laws.ClientsSeeTheSame`: GET and HGET of the replayed store, at any later
   time, give exactly the texts the live store gives.
   `Server.Recover` carries durability over to the server in memory, with its heap, its pub/sub gate and one
   parser per client: through any connects, disconnects, reads of bytes, rewrites and failures.
   * *Evictions* (`Exact`). Through any number of evictions the replay gives back the very same store, recency
     order included, as long as every command is one the log repeats (`RunIsExact`); and a command keeps the
     log exact if and only if it is one (`ExactIff`): logged and independent of the clock, or logged and too
     large to stay, or not logged and without any effect, not even on the recency of a key. `EvictionIsLost`
     is a run in which a read decides which of two keys is evicted, and the replay evicts the other.
   * *Torn logs* (`Torn`). A crash that cuts the file at any byte recovers the store as it was after some step,
     the last one whose logging is complete (`TornRunIsDurable`). The torn end stays in the file, and the
     file can be appended to if and only if there is none: every further command is read back as it was written
     exactly when the replay ended with a parser at its start (`AppendableIff`, `CrashAppendableIff`). What else
     happens depends on the tear: `TornEndIsFatal` ends every further replay in an uncaught exception,
     `TornEndIsForged` turns the next command into the deletion of a key nobody named.
2. **Rewrite then replay** (`Aof.ReplayRebuilds`, `Aof.RewriteRoundTrip`, `Server.Reopen`). The rewritten
   log, as bytes, rebuilds exactly the unexpired non-empty keys in the same recency order; at every prefix
   the store costs no more than the original, so nothing is evicted, including hashes whose sorted-map form
   comes back as a vector. A value comes back as it was if and only if it is not a string with a negative
   expiry (`Aof.ReloadFaithfulIff`).
3. **The linked store** (`Lru.Store`, `Handlers`). Accounting never underflows, the clamp in
   `notify_memory_change` never loses bytes, eviction leaves the longest most-recent suffix that fits, and
   the ceiling holds after every command (`Commands.ExecKeepsCeiling`). The source touches a node after the
   eviction loop that may have freed it; the handlers are proved for the commands where it has not, and
   `PutSafeIff` and `CreateSafeIff` say exactly which those are, `PushToOldestIsUnsafe` shows one that is not.
4. **The log format** (`Resp.LogRoundTrip`, `Resp.TornLog`, `Resp.FragmentationIndependence`). Printing and
   parsing are inverse for arbitrary contents, a log cut at any byte yields exactly the complete commands,
   the way a stream is cut into reads does not matter, and every command any bytes yield has exactly the
   declared number and sizes of arguments (`Resp.CommandsAsDeclared`). Two reads of a client do what one read
   of both does, to the whole server (`Server.ReadsJoin`).
5. **Refinement of a finite map by DrutaHash** and the **pub/sub mirror** over every interleaving.
6. **What clients may rely on** (`Laws`, `Gate`). For every command, by its name in any spelling and in terms of
   the values alone: what is stored afterwards, what is replied, which key is now the most recent, and that a
   command leaves keys it does not name as they are. For a client that listens to channels: which names are
   still open to it, what SUBSCRIBE and UNSUBSCRIBE leave, and whom a PUBLISH reaches.

Modelling choices. Strings are sequences of characters and nothing depends on a character being below 256,
so every statement covers all byte strings. `capacity()` is that of a freshly copied libstdc++ string, and
`sizeof` values are those of libstdc++ on a 64-bit machine (`Costs`); apart from `Laws.CostLaw` and the
concrete stores, proofs use only that they are positive and far below INT_MAX. Size counters are natural numbers, so each subtraction is proved not to
underflow. The clock is an argument.

Where code and documentation differ, the code is followed. The repository's README says that mutating
commands are serialized into the log after successful execution; an HSET that only overwrites values
returns false (src/commands.cpp:382) and is not logged. The README mentions EX and PX; PXAT is
accepted too (src/commands.cpp:67) and is what a rewrite writes.

## Model

| member | source | states |
|---|---|---|
| Text.UpperCase | src/commands.cpp:877-879 | the in-place loop upper-cases every character |
| Text.StoiToString | src/parser_resp.cpp:28 | reading a written size gives the size back, and it is all digits |
| Text.NumberLaw | src/commands.cpp:60 | what is read as a number: space, a sign or none, digits, and then anything that is no digit |
| Text.LessIff | src/aof.cpp:194-196 | byte order: shorter where two strings agree, smaller where they first differ |
| Text.SortedEnumerates | src/aof.cpp:194-196 | iterating a std::set visits every element once, in strictly increasing byte order |
| Resp.AppendBulkString | src/parser_resp.cpp:74-82 | appends exactly the bulk encoding of the value |
| Resp.FormatRespCommand | src/aof.cpp:52-67 | the loop prints the array header and every argument in order |
| Resp.RespParser.constructor | src/parser_resp.hpp:16-22 | a new parser is in the reset state |
| Resp.RespParser.Reset | src/parser_resp.cpp:5-12 | clears every field |
| Resp.RespParser.Accept | src/parser_resp.cpp:14-72 | one byte takes the parser to the state, command or uncaught exception the step function gives |
| Resp.FeedConcat | src/parser_resp.cpp:14-72 | feeding two byte strings one after the other is feeding their concatenation |
| Resp.FragmentationIndependence | src/parser_resp.cpp:14-72 | any split of a stream into calls gives the same commands and the same final state |
| Resp.StepInvariant | src/parser_resp.cpp:14-72 | byte by byte: idle means reset, fewer arguments than declared, accumulator within the declared length; an argument is accepted with exactly its declared size; the only fault is an array size that is no int |
| Resp.FeedInvariant | src/parser_resp.cpp:14-72 | the invariant holds after any bytes, and no command is handed over empty |
| Resp.CommandsAsDeclared | src/parser_resp.cpp:14-72 | every command any bytes hand over has exactly the declared number of arguments, each of exactly its declared size |
| Resp.CommandRoundTrip | src/aof.cpp:52-67 | parsing a printed command gives exactly that command and the reset state |
| Resp.LogRoundTrip | src/aof.cpp:103-115 | a whole log parses to exactly the commands written, whatever bytes they hold |
| Resp.WholeIsExact | src/aof.cpp:103-115 | what counts as complete: the k-th command ends inside the prefix and the next does not |
| Resp.TornLog | src/aof.cpp:103-115 | any byte prefix of a log yields exactly its complete commands, without a fault |
| Resp.IntactIff | src/aof.cpp:103-115 | a torn log leaves the parser at its start exactly when it is torn between two commands |
| Resp.StarFreeFeed | src/parser_resp.cpp:14-72 | bytes without a star complete at most the command under way, with the arguments already read and in the declared number |
| Resp.NotReadBack | src/parser_resp.cpp:14-72 | for every parser state but the first some command, appended there, is not read back |
| Resp.AppendableIff | src/aof.cpp:37 | every command appended to a log is read back after those before it exactly when the log leaves the parser at its start |
| Resp.StrayStar | src/parser_resp.cpp:22-33 | a star left over from a torn command makes the array size of the next one no int |
| Resp.ForgedDelete | src/parser_resp.cpp:34-71 | a DEL torn after its name takes the name of the next command for its key |
| Hash.DrutaHash.constructor | src/drutahash.hpp:36-43 | the recount loop gives the exact byte count of any vector of pairs |
| Hash.DrutaHash.Get | src/drutahash.cpp:3-15 | finds exactly what the abstract map holds |
| Hash.DrutaHash.Set | src/drutahash.cpp:17-48 | writes the field, keeps the count exact, and returns whether the field is new |
| Hash.DrutaHash.Delete | src/drutahash.cpp:50-70 | erases the field, keeps the count exact, and returns whether it was there |
| Hash.DrutaHash.Size | src/drutahash.cpp:72-78 | the number of fields of the abstract map, in either form |
| Hash.DrutaHash.ConvertToMap | src/drutahash.cpp:80-91 | same abstract map, exact count in the new form |
| Hash.ConvertCosts | src/drutahash.cpp:87-90 | with unique fields the map is as large as the vector, so one node overhead per entry is exact |
| Hash.VectorMemIsSum | src/drutahash.hpp:39-42 | the vector recount depends on the abstract map only, not on the order of pairs |
| Hash.SetRefines | src/drutahash.cpp:17-48 | map update; fields stay unique; converts exactly when a 65th field arrives; map form is never left |
| Hash.DeleteRefines | src/drutahash.cpp:50-70 | map removal; fields stay unique; the form does not change |
| Hash.RefinesFiniteMap | src/drutahash.cpp:3-91 | over any sequence of operations the answers are those of a finite map, across the conversion |
| Keyspace.EvictionDropsPrefix | src/lru.cpp:98-111 | eviction drops a prefix of the recency order and changes nothing else; the limit holds afterwards, so the test for an empty list never ends the loop |
| Keyspace.EvictionIsMinimal | src/lru.cpp:49-52 | no shorter prefix would do: what remains is the longest most-recent suffix that fits |
| Keyspace.SurvivesIff | src/lru.cpp:62-63 | a key survives exactly when the bytes from it up to the head fit the limit |
| Keyspace.NewKeySurvivesIff | src/lru.cpp:41-53 | a new key survives its own arrival exactly when it fits alone |
| Lru.DrutaNode.constructor | src/store.hpp:88-89 | a new node is unlinked and holds its key and value |
| Lru.Store.constructor | src/lru.cpp:5-8 | the empty store satisfies the full invariant |
| Lru.KeysOfIndexed | src/lru.cpp:41-47 | listed keys are distinct and exactly those of the index, and both have the same size |
| Lru.Store.PassForward | src/lru.cpp:17-20 | next links and the tail pass the node over, all others stay |
| Lru.Store.PassBackward | src/lru.cpp:22-28 | prev links and the head pass the node over, all others stay |
| Lru.Store.CutLinked | src/lru.cpp:10-29 | links that pass one node over make a well-linked list of the others |
| Lru.Store.Detach | src/lru.cpp:10-29 | takes one node out of a well-linked list, all links still mirrored |
| Lru.Store.AttachHead | src/lru.cpp:31-39 | the node becomes the most recent one, all links mirrored |
| Lru.Store.TouchLru | src/lru.cpp:83-88 | the key moves to the most recent end, everything else keeps its place |
| Lru.Store.Unlink | src/lru.cpp:93-95 | subtracts exactly the node's bytes and takes it off the list, contents of all nodes untouched |
| Lru.Store.EvictLru | src/lru.cpp:98-111 | removes exactly the least recent key from list, index and count; nothing happens to an empty list |
| Lru.Store.EvictUntilSafe | src/lru.cpp:78-80 | the loop ends and leaves what the eviction function gives; surviving nodes are the same objects |
| Lru.Store.AddLru | src/lru.cpp:41-53 | a new node is counted, linked as most recent, and others evicted until it fits |
| Lru.Store.NotifyMemoryChange | src/lru.cpp:66-81 | the delta makes the count exact again, the clamp loses nothing, and eviction follows |
| Lru.Store.UpdateLru | src/lru.cpp:55-64 | new value in place, eviction, then the touch, for a key that survives |
| Lru.Store.RemoveFromLru | src/lru.cpp:90-96 | the node leaves list and count exactly |
| Lru.Store.ClearLru | src/lru.cpp:113-119 | resets list and counters |
| Lru.Store.Assign | src/commands.cpp:142 | a node takes a new value with its exact count, no other node changes |
| Lru.Store.Recount | src/commands.cpp:371-376 | after its hash has changed, the node's count is exact again |
| Lru.Store.Insert | src/commands.cpp:77-80 | a new node enters index and list and may evict others |
| Lru.Store.Erase | src/commands.cpp:328-329 | the key leaves list, count and index |
| Handlers.ReadExpiry | src/commands.cpp:53-72 | the option loop computes the expiry of EX, PX and PXAT, or refuses |
| Handlers.CommandSet | src/commands.cpp:50-89 | state, reply and success flag of SET |
| Handlers.CommandGet | src/commands.cpp:91-119 | GET touches, deletes an expired key, or refuses another type; never logged |
| Handlers.PushItems | src/commands.cpp:134-141 | the pushing loop builds the list and the exact bytes it adds |
| Handlers.GenericPush | src/commands.cpp:121-169 | push on an existing list, on a new key, and on another type |
| Handlers.PopItems | src/commands.cpp:268-283 | the popping loop gives the items in reply order, the rest, and the exact bytes freed |
| Handlers.GenericPop | src/commands.cpp:229-293 | pop with its count argument, touch first, exact state, reply and flag |
| Handlers.ShrinkSettles | src/commands.cpp:253-285 | for a shrinking value, touching before or after the count change comes to the same |
| Handlers.CommandDel | src/commands.cpp:321-334 | every named key goes, and the reply counts those that were there |
| Handlers.WriteFields | src/commands.cpp:364-370 | the field loop writes every pair in order and counts the new fields |
| Handlers.WriteHash | src/commands.cpp:364-382 | HSET on a hash at hand: contents, node count, global count, eviction, touch |
| Handlers.CreateHash | src/commands.cpp:356-361 | HSET on a new key: the empty hash enters first and must survive its own arrival |
| Handlers.CommandHSet | src/commands.cpp:336-383 | state, reply and flag of HSET, which is false when no field is created |
| Handlers.DeleteFields | src/commands.cpp:471-478 | the field loop erases and counts, and never costs bytes |
| Handlers.EraseAndRecount | src/commands.cpp:468-483 | fields erased and the node's count exact again, the global count not yet told |
| Handlers.CommandHDel | src/commands.cpp:456-490 | state, reply and flag of HDEL |
| Handlers.CommandHGet | src/commands.cpp:385-414 | HGET replies with the field and touches only when it finds it |
| Handlers.AddElements | src/commands.cpp:526-531 | the insertion loop gives the union, the bytes added and the number of new elements |
| Handlers.CommandSAdd | src/commands.cpp:513-554 | state, reply and flag of SADD |
| Handlers.RemoveElements | src/commands.cpp:814-821 | the erasing loop gives the difference, the bytes freed and the number erased |
| Handlers.CommandSDel | src/commands.cpp:802-832 | state, reply and flag of SDEL |
| Handlers.RefreshIf | src/commands.cpp:179-189 | a reader moves the key it finds with the right type to the most recent end |
| Handlers.Flush | src/commands.cpp:842-843 | the store is empty and valid again |
| Handlers.Execute | src/commands.cpp:889-957 | the whole dispatch: state, reply and flag of any command |
| Commands.ExecKeepsCeiling | src/lru.cpp:49-52 | after every command the store is consistent and within the memory limit; for a command that is not safe this is about the outcome the model puts in place of the source's undefined one |
| Commands.PutSafeIff | src/commands.cpp:142-144 | a key may be changed exactly when the bytes from it up to the most recent key still fit the limit afterwards |
| Commands.CreateSafeIff | src/commands.cpp:360-378 | a new hash may be filled exactly when the finished hash fits the limit on its own |
| Commands.PushToOldestIsUnsafe | src/commands.cpp:134-145 | a full store, reached from the empty one by three commands, in which one more item for the least recent list is a push that touches a node its own eviction has freed |
| Commands.SettlesPlainlyIff | src/lru.cpp:66-81 | nothing is lost to eviction exactly when the plain result fits the limit |
| Commands.EffectOk | src/drutahash.cpp:17-70 | no command ever stores an ill-formed hash |
| Lists.PushThenPop | src/commands.cpp:121-146 | pushing and popping as many from the same end replies with them in reverse order and restores every value and byte |
| Aof.AppendToAof | src/aof.cpp:69-85 | appends the printed command exactly when its upper-cased name is in the table |
| Aof.LoggedIsSorted | src/aof.cpp:43-49 | the table is strictly sorted, as the binary search needs |
| Aof.HashPairsFields | src/aof.cpp:173-186 | the dumped pairs have unique fields and their map is the hash, in either form |
| Aof.ReloadHash | src/aof.cpp:170-188 | a hash rebuilt from its dump has the same fields, and is in map form only if the original was |
| Aof.ReloadCostsNoMore | src/aof.cpp:170-188 | a reloaded value never costs more than the original |
| Aof.DumpedEffect | src/aof.cpp:152-199 | each kind of dumped command, run without its key present, puts the reloaded value there at any time |
| Aof.ReplayRebuilds | src/aof.cpp:139-201 | every prefix of the rewritten program rebuilds exactly the kept keys so far, in order, within the original memory and without eviction |
| Aof.DumpSized | src/aof.cpp:152-199 | a store within the memory limit dumps only commands the parser's ints can hold |
| Aof.RewriteRoundTrip | src/aof.cpp:125-220 | the bytes of a rewrite parse completely and rebuild the kept keys |
| Aof.ReloadFaithfulIff | src/aof.cpp:155-158 | a value comes back as it was exactly when it is not a string with a negative expiry |
| Replay.FitsIsSafe | src/commands.cpp:142-144 | with room for its result, a command never evicts the key it then touches |
| Replay.RewriteIsSafe | src/commands.cpp:360-361 | replaying a rewritten log never touches an evicted node |
| Durability.SyncMemory | src/drutahash.cpp:80-91 | a replayed store in step with the live one never costs more |
| Durability.StepKeepsSync | src/commands.cpp:875-964 | every command the log can follow keeps the replay in step, at any replay time |
| Durability.TwoClocks | src/commands.cpp:55-72 | read at two times, a SET is refused at both or neither, and its expiries differ by the time in between when the last time option that takes part is EX or PX, and are equal otherwise |
| Durability.SetInSyncIff | src/commands.cpp:55-72 | a SET stays in step at every replay time exactly when it is refused or its expiry is not relative |
| Durability.HSetInSyncIff | src/commands.cpp:382 | for HSET the replay stays in step exactly when it does not overwrite without creating |
| Durability.LazyExpiryInSyncIff | src/commands.cpp:101-104 | an unlogged lazy deletion keeps step exactly when the log had dropped the key |
| Durability.FollowsIff | src/commands.cpp:875-964 | for every command, the replay stays in step at every replay time exactly when the log can follow it |
| Durability.RewriteInSyncIff | src/aof.cpp:147-158 | after a rewrite the replay is in step exactly when no string has a negative expiry |
| Durability.DroppableIff | src/aof.cpp:147-199 | what a rewrite leaves out is exactly a string whose time has passed and an empty list, hash or set |
| Durability.ReplaySettles | src/commands.cpp:960-963 | the replay of a logged command evicts nothing if the live command did not |
| Durability.Timeless | src/commands.cpp:55-72 | a command that sets no relative expiry does the same at every time |
| Durability.Steady | src/aof.cpp:103-115 | replaying a log of such commands gives one and the same store at every time |
| Durability.ClientReplay | src/commands.cpp:960-963 | what replaying the log gives after one more command, at any time, and that it is safe |
| Durability.ExecAllKeepsCeiling | src/lru.cpp:49-52 | consistency and the memory limit over any sequence of commands, with the model's outcome for those that are not safe |
| Durability.RunKeeps | src/aof.cpp:69-85 | over any run the log stays a printed list of commands that recover the store |
| Durability.ClientDurableIff | src/commands.cpp:960-963 | after a harmless command the log recovers the store at every time exactly when it could follow the command |
| Durability.RewriteDurableIff | src/aof.cpp:147-158 | after a rewrite the log recovers the store exactly when no string has a negative expiry |
| Durability.CrashKeeps | src/aof.cpp:103-115 | a server started from a log that ends with a complete command goes on with a log that recovers it, whatever the crash has cut off |
| Durability.RunIsDurable | src/aof.cpp:103-123 | durability of whole runs, from the log's bytes back to the live data, at any time, crashes included |
| Torn.TornRunIsDurable | src/aof.cpp:69-85 | a log cut at any byte since it was last started afresh recovers the store after some step, the last one whose logging is complete |
| Torn.LeftIsSafe | src/aof.cpp:103-115 | whatever a crash leaves of the log can be replayed without a fault and without touching a lost node |
| Torn.CrashAppendableIff | src/aof.cpp:37 | what a crash leaves can go on being written and read back exactly when it ends with a complete command, as it does when nothing is lost |
| Torn.TornEndIsFatal | src/parser_resp.cpp:28 | torn after one byte, the log ends every further replay in an exception at the next command |
| Torn.TornEndIsForged | src/parser_resp.cpp:48-71 | torn inside a DEL, the log replays a deletion nobody sent and loses the command appended to it, without any fault |
| Divergence.RelativeIsLost | src/commands.cpp:61-66 | a concrete run after which the log does not recover the store: a time to live starts again at replay |
| Divergence.LazyExpiryIsLost | src/commands.cpp:101-104 | a concrete run: the log brings back an expired key that GET has deleted |
| Divergence.NegativeExpiryIsLost | src/aof.cpp:155-158 | a concrete run: a rewrite makes a string with a negative expiry everlasting |
| Divergence.OverwriteIsLost | src/commands.cpp:364-382 | a concrete run: the second of two HSETs changes a value and is not logged |
| Exact.UnchangedIff | src/lru.cpp:83-88 | an effect leaves the store as it is, order included, exactly when it writes what is there to the most recent key, or touches it, or removes nothing |
| Exact.SameAlwaysIff | src/commands.cpp:55-72 | a logged command leaves the same store at every time exactly when it sets no relative expiry, or sets it on a new key too large to stay |
| Exact.ExactIff | src/commands.cpp:960-963 | after a command the log gives back the very same store at every time exactly when the command is one it repeats, evictions or not |
| Exact.RestoredIff | src/aof.cpp:139-201 | a rewrite gives back the very same store exactly when every key is kept and every value reloads as it was |
| Exact.RunIsExact | src/aof.cpp:103-123 | through any evictions, rewrites and crashes, a run of steps the log repeats is replayed to the same keys, values and recency order |
| Exact.EvictionIsLost | src/commands.cpp:106 | a concrete run: a read decides which key is evicted, and the replay evicts the other |
| Laws.SpellingIgnored | src/commands.cpp:877-879 | a name spelled in any mixture of cases does and replies the same |
| Laws.SetWithTime | src/commands.cpp:50-89 | the last time option that takes part decides the expiry: 1000 n from now for EX, n from now for PX, n for PXAT; reply and success |
| Laws.SetWithoutTime | src/commands.cpp:50-89 | without a time option the stored string is everlasting |
| Laws.SetRefused | src/commands.cpp:84-88 | a number that cannot be read refuses the SET, which changes nothing |
| Laws.GetLaw | src/commands.cpp:91-119 | GET replies with the text, nil or the wrong type; touches, or deletes what has expired |
| Laws.SetThenGet | src/commands.cpp:50-119 | what SET with seconds stores is replied until exactly that many have passed |
| Laws.PlainSetThenGet | src/commands.cpp:50-119 | what a plain SET stores is replied at any time |
| Laws.PushLaw | src/commands.cpp:121-169 | the list with the arguments at its end, in order of arrival, and its new length as the reply |
| Laws.PopLaw | src/commands.cpp:229-293 | one item, or as many as asked for, or all there are, replied in the order they came out; the rest stays |
| Laws.PopRefused | src/commands.cpp:237-241 | more than one count is refused |
| Laws.HSetLaw | src/commands.cpp:336-383 | every field named keeps the last value given, others stay, the reply is the growth |
| Laws.HSetRefused | src/commands.cpp:337-353 | an odd number of arguments, or another type, changes nothing |
| Laws.HGetLaw | src/commands.cpp:385-414 | the field, nil, or the wrong type; the key moves only when the field is there |
| Laws.HDelLaw | src/commands.cpp:456-490 | the fields not named stay, the reply is the loss |
| Laws.HDelElsewhere | src/commands.cpp:462-489 | no key gives 0, another type is refused |
| Laws.SAddLaw | src/commands.cpp:513-554 | the union, and the reply is the growth |
| Laws.SDelLaw | src/commands.cpp:802-832 | the difference, and the reply is the loss |
| Laws.DelLaw | src/commands.cpp:321-334 | exactly the keys named are gone, and the reply is their number |
| Laws.ReadLaw | src/commands.cpp:179-189 | LRANGE, LLEN and HGETALL make the key the most recent if it has their type, and change nothing else |
| Laws.FlushLaw | src/commands.cpp:835-853 | FLUSHDB empties the store if its first argument is --sure, and is refused otherwise |
| Laws.OtherLaw | src/commands.cpp:889-957 | every other name or number of arguments leaves the store alone |
| Laws.UnnamedLaw | src/commands.cpp:889-957 | a command never gives a new value to a key it does not name |
| Laws.UnnamedGet | src/commands.cpp:91-119 | GET of a key that a command neither names nor evicts replies as before |
| Laws.RewriteLaw | src/aof.cpp:139-201 | after a rewrite and a replay: every list, hash and set with contents and every string whose time has not passed, with equal contents, in the same order |
| Laws.SeesTheSame | src/commands.cpp:91-119 | stores in step give the same texts to GET and HGET at any later time |
| Laws.ClientsSeeTheSame | src/aof.cpp:103-123 | durability as clients see it, over whole runs |
| Laws.CostLaw | src/store.hpp:28-85 | the bytes of a key in closed form, for every type and both forms of a hash |
| PubSub.Registry.IsSubscriber | src/commands.cpp:881 | the lookup creates an entry for an unknown descriptor |
| PubSub.Registry.Connect | src/main.cpp:138 | a fresh client entry |
| PubSub.Registry.Disconnect | src/pubsub.cpp:112-118 | the descriptor leaves both indexes |
| PubSub.Registry.Subscribe | src/pubsub.cpp:12-33 | channel by channel, up to the limit |
| PubSub.Registry.Unsubscribe | src/pubsub.cpp:35-73 | named channels, or all; the flag falls with the last one |
| PubSub.Registry.Publish | src/pubsub.cpp:75-110 | sends once to every subscriber that is a client, counts them, forgets the others |
| PubSub.Reach | src/pubsub.cpp:95-102 | the loop splits the subscribers into those sent to, once each, and the dead |
| PubSub.SubscribeTakesPrefix | src/pubsub.cpp:16-21 | exactly a prefix of the channels is taken, all of them or up to the first new one at the limit |
| PubSub.UnsubscribeMirror | src/pubsub.cpp:59-65 | exactly the named channels are gone, and the indexes mirror each other |
| PubSub.DisconnectMirror | src/main.cpp:147-150 | no trace of the descriptor in either index |
| PubSub.AfterMirror | src/pubsub.cpp:12-118 | each event keeps the mirror, the flag and the limit of 128 |
| PubSub.AfterOthers | src/pubsub.cpp:12-118 | what happens to one client leaves the others connected and subscribed as they were |
| PubSub.MirrorAlways | src/pubsub.cpp:12-118 | over every interleaving of events the indexes mirror each other |
| PubSub.ReusedDescriptorIsClean | src/main.cpp:138 | a descriptor handed out after any events has no subscription, whatever its last owner did |
| PubSub.PublishReaches | src/pubsub.cpp:92-107 | a publish reaches exactly the live subscribers and its cleanup list is empty |
| Server.DumpNode | src/aof.cpp:143-199 | the command for one node, or none when expired or empty |
| Server.RewriteAof | src/aof.cpp:141-201 | the walk from tail to head writes the program of all kept keys |
| Server.Server.Register | src/commands.cpp:944-949 | dispatch of SUBSCRIBE, UNSUBSCRIBE and PUBLISH, and to whom a message is sent |
| Server.Server.ExecuteAndLog | src/commands.cpp:960-963 | store, truncation by FLUSHDB, and append, which a replay skips |
| Server.Server.HandleCommand | src/commands.cpp:875-964 | the pub/sub gate, then registry, store and log; the reply, and to whom a message is sent |
| Server.Server.Connect | src/main.cpp:138 | a fresh client with a fresh parser, store and log untouched |
| Server.Server.Disconnect | src/main.cpp:147-150 | a client leaves both indexes and takes its parser along, store and log untouched |
| Server.Server.RewriteLog | src/aof.cpp:206-212 | the log becomes the rewritten program at once |
| Server.Server.HandleByte | src/parser_resp.cpp:60-63 | a completed command is handled before the next byte |
| Server.Server.ParseAndExecute | src/parser_resp.cpp:14-72 | one read: exactly the completed commands are handled in order, and the parser resumes where it stopped |
| Server.Server.Receive | src/main.cpp:151-153 | a read goes through the client's own parser; no other client's parser moves |
| Server.ReplayIsExec | src/aof.cpp:113-115 | handling a log for descriptor -1 executes it on the store, gates nothing, logs nothing, and only looks the descriptor up |
| Server.ReadsJoin | src/parser_resp.cpp:14-72 | two reads of a client leave the whole server as one read of both does |
| Server.HandlingIsRunning | src/commands.cpp:875-964 | store and log after the commands of a read are those of the run of the commands that pass the gate |
| Server.ServingIsRunning | src/commands.cpp:875-887 | store and log of a server, through any connects, disconnects, reads, rewrites and failures, are those of the run of the commands that pass parsers and gate |
| Server.ServingMirrors | src/main.cpp:138-150 | through all of these the subscription indexes of the server mirror each other |
| Server.NewcomerStartsClean | src/main.cpp:138 | a client that connects has a reset parser and no subscription, whatever its descriptor's last owner left |
| Server.ReplayAof | src/aof.cpp:103-123 | a new server that reads the log has handled exactly its complete commands, for descriptor -1, in order |
| Server.Reopen | src/aof.cpp:103-220 | rewrite, restart and replay in memory: the new server holds the kept keys, in order |
| Server.Recover | src/aof.cpp:103-123 | a new server started from what is left of the log is the server after the failure, and agrees with the lost one when the whole log is left |
| Gate.ClosedLaw | src/commands.cpp:881-888 | a listening client is refused every name but PING, SUBSCRIBE and UNSUBSCRIBE, and nothing happens |
| Gate.OpenLaw | src/commands.cpp:889-964 | every command of any other client is executed, logged and answered |
| Gate.SubscribeLaw | src/pubsub.cpp:12-33 | SUBSCRIBE adds the channels it names, up to 128, and nothing else changes |
| Gate.UnsubscribeLaw | src/pubsub.cpp:35-73 | UNSUBSCRIBE, open to listeners, leaves the channels not named, or none if none is named; without channels the client no longer listens |
| Gate.PublishLaw | src/pubsub.cpp:75-110 | a message goes to exactly the clients subscribed to the channel |
| Gate.PublishRefused | src/commands.cpp:948 | with another number of arguments it goes to nobody |
| Gate.CompactLaw | src/aof.cpp:125-220 | a rewrite concerns the log alone |
| Gate.SetAfterUnsubscribing | src/commands.cpp:881-888 | a run from an empty server: subscribe, a SET refused, unsubscribe, the same SET executed |

## Left out

- Sockets, epoll, accept, recv, send and server start-up (src/main.cpp): only connecting and disconnecting remain, as steps of the registry.
- Files, paths, buffering, flush timing, rename errors and the five-second check (src/aof.cpp:20-35, 87-101, 222-251): the log is its bytes, and a rewrite is a separate step that may happen at any point.
- The rewrite that replay_aof itself may start after a large replay (src/aof.cpp:119-122) is such a step and is not part of ReplayAof.
- Capacity that a string keeps after being assigned a shorter value: capacity is that of a fresh copy.
- Integer overflow of `int` counters, of `int delta` in SADD and SDEL, and of the clock plus a time to live.
- Several clock readings within one read: ParseAndExecute handles all commands of one call at one time.
- Texts of error messages and reply framing beyond the bulk-string encoder; LRANGE, LLEN and HGETALL are modelled for what they do to recency, not for what they reply.
- PING, ECHO, COMMAND, MEMSTATS, HLEN, SCARD, SISMEMBER, SMISMEMBER, SMEMBERS, SINTER, SUNION and SDIFF change nothing in the store and are one case of the dispatch.
- Replies of SUBSCRIBE and UNSUBSCRIBE: they go to the client only. A client entry is modelled in two parts, its subscriptions in the registry and its parser in the server.
- Replay equality beyond what LogFollows allows (relative expiries, lazy deletions of logged keys, overwriting HSETs), and after evictions beyond what Repeats allows: the code does not provide it, as ClientDurableIff and ExactIff show.
- UpdateLru: takes string values only, because SET is its only caller, and requires the key to survive its own growth.
- GenericPop: requires a count of at least 0 where a list is there, because the loop at src/commands.cpp:270 does not stop for a negative one.
- ExecKeepsCeiling: for a command that is not safe it speaks of the model's outcome, because the source then uses a freed node and promises nothing.
- ExecAllKeepsCeiling: the same, for a sequence of commands.
- CommandSet: requires the key to survive its own growth, because the source touches the node after the eviction loop; PutSafeIff says when it does.
- GenericPush: requires its list to survive the push.
- WriteHash: requires its hash to survive the write.
- CommandSAdd: requires its set to survive the additions.
- CreateHash: requires the new hash to survive its own arrival and its first write; CreateSafeIff says when it does.
- CommandHSet: requires what CreateHash and WriteHash require.
- Execute: requires a safe command in this sense, and with it ExecuteAndLog; HandleCommand, HandleByte, ParseAndExecute and ReplayAof require it of the commands the gate lets through.
