# praetor core in Dafny

A model of the data-manipulating core of praetor, an IRC bot written in C,
with proofs of what that core promises and of where it falls short.

- **IRC wire codec** (`src/ircmsg.c`, constants from `include/ircmsg.h`),
  module `IrcMsg` in `ircmsg.dfy`.
  - The six builders: JOIN, NICK, PASS, PONG, PRIVMSG and USER, each cut to
    the 512-byte line limit of RFC 2812 section 2.3.
  - `ircmsg_parse`: `strtok_r` as glibc does it, the prefix split into
    nick, user and host, the argument loop, and the case-insensitive command
    dispatch.
  - The parser exists twice: `SplitAsWritten` / `ParseAsWritten` follow the
    code, and `Split` / `Parse` repair it. Every builder is proved to round
    trip through the repaired parser once `Body` has stripped the CR LF; the
    parser itself keeps it (`IrcMsg.CrLfKept`).
- **Outbound queue** (`src/queue.c`), module `Queue` in `queue.dfy`.
  - The queue is the sequence of its items plus the separate `size` counter.
  - Proved: FIFO order, and how the counter relates to the items.
- **Two chained hash tables**, both with Jenkins one-at-a-time hashing on
  `bv32` (module `Jenkins` in `jenkins.dfy`).
  - `chains.dfy` holds the bucket-array theory both share: every mapping sits
    in bucket `hash(key) % bucket_count`, keys are unique, and the array is
    abstracted to a `map<seq<bv8>, V>`.
  - `src/htable.c` (module `Htable`) links only occupied entries.
  - `src/hashtable.c` (module `Hashtable`) embeds each chain's first link in
    the bucket array and leaves empty links behind on removal.
  - The `.75` load threshold is the integer test `4 * count > 3 * buckets`.
- **Watch list** (`watch_add` / `watch_remove` of `src/nexus.c`), module
  `Nexus` in `nexus.dfy`. The `pollfd` array is a sequence; a descriptor of -1
  marks a cleared slot.
- **`rdigit` and `strrepl`** (`src/util.c`, identical in `src/util/util.c`),
  module `Util` in `util.dfy`.
  - The value `random()` returned is a parameter.
  - The generator `f` is the sequence of characters its successive calls
    return.

Allocation failures are boolean (or small enumerated) parameters that choose
the failing path. This applies where the return code is contractual:
`htable_add` -2, the `hashtable.c` -1 paths, `watch_add` -1,
`queue_enqueue` -1, the key lists, and the rehash allocations. The NULL that
`htable_create` (both tables) and `queue_create` return when memory runs out
is not modelled (see "Left out").

Where the source and its documentation disagree, the model follows the code:
- The builders truncate an overlong line and return it; they do not fail.
- A trailing argument with spaces is glued as written (finding 4 below).
- `include/ircmsg.h` says the parser takes a line with or without its
  terminating CR LF. The code strips nothing: the CR LF stays glued to the
  last argument (`IrcMsg.CrLfKept`).
- The parser decodes only PING and PRIVMSG. Every other command is UNKNOWN,
  except JOIN, PART and QUIT, which leave the message type unset.
- `hashtable.c` returns -2 for a duplicate key, where `include/hashtable.h`
  documents 1.
- `queue_get_size` reports a counter that dequeues never lower, where
  `include/queue.h` says it is the number of items present.

## Model

| member | source | states |
|---|---|---|
| Jenkins.HashLoop | src/htable.c:37-50 | the left-to-right loop plus the final avalanche computes the one-at-a-time hash with 32-bit wrap-around |
| Jenkins.Hash | src/htable.c:37-50 | the reference one-at-a-time hash; the empty key hashes to 0, and `HashLoop` proves the source's loop computes it |
| Jenkins.HashOfA | src/htable.c:37-50 | the hash of the one-byte key "a" is the published value 0xca2e9442 |
| Jenkins.SignednessMatters | src/hashtable.c:98-109 | on a signed-`char` target, hashing through `const char*` sign-extends bytes of 0x80 and above: key 0xFF hashes to 0xae65a494 there and to 0xc7b20f1d through `uint8_t` |
| Jenkins.AsciiKeysHashAlike | src/hashtable.c:98-109 | on 7-bit keys the signed and unsigned readings give the same hash |
| Chains.Bucket | src/htable.c:168 | the bucket index `hash % bucket_count` is always below `bucket_count` |
| Chains.FindContents | src/htable.c:273-282 | walking the key's own chain finds exactly the value the abstract map holds for the key, or nothing |
| Chains.Insert | src/htable.c:168-199 | adding a new key to its chain, in a new last link or in an empty one, keeps placement and uniqueness, adds exactly that mapping and counts one more entry |
| Chains.Delete | src/htable.c:231-256 | unlinking an entry, or leaving its link empty, keeps placement and uniqueness, drops exactly that key and counts one entry fewer |
| Chains.LiveKeysContents | src/htable.c:303-317 | the keys listed bucket by bucket are distinct, are exactly the mapped keys, and number the stored entries |
| Htable.Create | src/htable.c:52-78 | NULL exactly for zero buckets; otherwise `size` empty chains, a valid table, no mappings, counter 0 |
| Htable.Lookup | src/htable.c:263-271 | a NULL table, a NULL key or a zero-length key finds nothing |
| Htable.LookupCorrect | src/htable.c:273-282 | on a valid table the chain walk returns the mapped value of the key, or NULL when it is unmapped |
| Htable.MappingCountCorrect | src/htable.c:361-363 | on a valid table the counter is the number of mappings |
| Htable.MappingCount | src/htable.c:361-363 | on a valid table the counter it reports is the number of mappings |
| Htable.GetKeys | src/htable.c:285-300 | NULL for a NULL table, a zero counter or a failed allocation |
| Htable.GetKeysCorrect | src/htable.c:302-327 | on a valid non-empty table the list holds every mapped key once and nothing else, `mapping_count` of them |
| Htable.Link | src/htable.c:149-199 | a NULL table yields -1; any failure leaves the table as it was; the bucket array keeps its size |
| Htable.LinkCorrect | src/htable.c:168-202 | linking a new key adds exactly its mapping, keeps the table valid and counts it |
| Htable.AddRejects | src/htable.c:149-161 | a NULL table, a NULL or empty key or a NULL value yields -1 and no change |
| Htable.AddDuplicate | src/htable.c:163-166 | a key already mapped yields -1 and keeps the existing mapping |
| Htable.AddOutOfMemory | src/htable.c:172-191 | a failed entry allocation yields -2 and no change |
| Htable.AddCorrect | src/htable.c:149-214 | a new key yields 0, its mapping added and every other kept, the counter one higher, and the buckets doubled exactly when the load passes three quarters and the rehash can allocate |
| Htable.Add | src/htable.c:149-214 | a NULL table yields -1; a failed add, -1 or -2, leaves the table as it was; an add whose rehash cannot allocate keeps the bucket count |
| Htable.AddAsWritten | src/htable.c:149-214 | as written, an add whose link fails is the corrected add |
| Htable.AddAsWrittenAgrees | src/htable.c:149-214 | adding a new key as written is undefined exactly when the rehash can allocate and the mappings pass one and a half per bucket; otherwise it is the corrected add |
| Htable.NestedRehashAsWritten | src/htable.c:125-140 | past that load the add as written is undefined, while the corrected add doubles the buckets and keeps every mapping |
| Htable.AddWithoutRehash | src/htable.c:201-207 | an add whose rehash cannot allocate gives the same valid table as written and corrected: one mapping more, the same buckets |
| Htable.NestedRehashExample | src/htable.c:125-144 | for any three distinct keys: two adds to a one-bucket table with failing rehashes, then a third whose rehash allocates, is undefined as written; corrected it gives two buckets holding the three mappings |
| Htable.Rehash | src/htable.c:109-147 | a failed rehash returns -1 and leaves the table as it was |
| Htable.RehashFails | src/htable.c:111-122 | a rehash whose allocations fail returns -1 with the table unchanged |
| Htable.ReinsertStep | src/htable.c:125-131 | one turn of the re-add loop links the listed key into the temporary table with the value looked up in the old one |
| Htable.ReinsertCorrect | src/htable.c:124-131 | re-adding distinct keys into a table lacking them adds exactly their mappings and counts each |
| Htable.Reinsert | src/htable.c:124-131 | the corrected re-add loop keeps the temporary table's bucket count; `ReinsertCorrect` states its mappings |
| Htable.ReinsertAsWritten | src/htable.c:124-131 | as written, when defined, the re-add loop keeps the temporary table's bucket count |
| Htable.ReinsertAsWrittenAgrees | src/htable.c:124-131 | the loop as written is the corrected one until the re-added entries pass three quarters of the temporary table, and undefined from then on |
| Htable.RehashCorrect | src/htable.c:109-147 | a successful rehash keeps every mapping and multiplies the bucket count by the scale |
| Htable.RehashAsWritten | src/htable.c:109-147 | as written, a rehash that cannot allocate returns -1 with the table unchanged, and any non-zero result is that |
| Htable.RehashAsWrittenAgrees | src/htable.c:109-147 | with its allocations succeeding, the rehash as written is undefined exactly when the mappings pass three quarters of the scaled bucket count, and the corrected rehash otherwise |
| Htable.RemoveAsWritten | src/htable.c:216-261 | every failure is -1 with no change |
| Htable.Remove | src/htable.c:216-261 | the corrected removal: every failure is -1 with no change |
| Htable.UnlinkCorrect | src/htable.c:226-256 | as written, removing a present key unlinks exactly its entry but leaves `mapping_count` one above the entries |
| Htable.RemoveAbsent | src/htable.c:226-260 | an absent key yields -1 and no change, as written and corrected |
| Htable.RemoveShape | src/htable.c:231-256 | the corrected removal leaves a valid table without the key's mapping |
| Htable.LookupOthers | src/htable.c:263-283 | two valid tables whose maps differ only at one key agree on every other lookup |
| Htable.RemoveCorrect | src/htable.c:216-261 | corrected removal of a present key yields 0, a valid table, that key's lookup NULL and every other lookup as before |
| Htable.RemoveThenGetKeysExits | src/htable.c:255-323 | as written, after a removal `htable_get_keys` counts fewer keys than `mapping_count` and calls `_exit` |
| Htable.RemoveThenGetKeysExitsExample | src/htable.c:319-323 | one add then one remove on a one-bucket table makes the next key listing end the process |
| Hashtable.Decrement | src/hashtable.c:243 | `size--` on a `size_t`: one lower, wrapping to the largest value at 0 |
| Hashtable.Increment | src/hashtable.c:193 | `size++` on a `size_t`: one higher, wrapping to 0 past the largest value, and undone by `size--` |
| Hashtable.Create | src/hashtable.c:74-93 | NULL exactly for zero buckets; otherwise `size` empty embedded links, a valid table, no mappings |
| Hashtable.Match | src/hashtable.c:222-229 | the first link passing the length-and-bytes test, and none before it passes |
| Hashtable.MatchIsPosition | src/hashtable.c:223-226 | for a non-empty probe only occupied links holding the probe pass the test |
| Hashtable.LookupAsWritten | src/hashtable.c:215-219 | a NULL table finds nothing |
| Hashtable.LookupCorrect | src/hashtable.c:220-230 | on a sound table the lookup returns the mapped value, or NULL for a miss |
| Hashtable.LookupAgrees | src/hashtable.c:215-231 | the lookup as written and the corrected one agree on every non-empty key |
| Hashtable.DataWrite | src/hashtable.c:150-161 | 0 exactly when the key copy is allocated, and then the link holds key and value; otherwise -1 and the link stays empty |
| Hashtable.FirstVacant | src/hashtable.c:170-180 | the first empty link of a chain, with every link before it occupied |
| Hashtable.Place | src/hashtable.c:163-190 | placement leaves a well-formed table with the same bucket count and counter, on success and on failure |
| Hashtable.PlaceAsWritten | src/hashtable.c:163-190 | as written, placement leaves a well-formed table with the same bucket count and counter, returns 0, -1 or -2, and -2 changes nothing |
| Hashtable.Store | src/hashtable.c:169-190 | storing returns 0 or -1 and keeps the table well formed, with its bucket count and counter |
| Hashtable.PlaceAsWrittenAgrees | src/hashtable.c:165 | for a key a sound table lacks, the duplicate test as written lets it through as the corrected one does |
| Hashtable.PlaceFits | src/hashtable.c:169-190 | with allocations succeeding, a new key is stored, adding exactly its mapping |
| Hashtable.PlaceFails | src/hashtable.c:182-190 | a failed node or key allocation yields -1 and keeps every mapping |
| Hashtable.PlaceShape | src/hashtable.c:169-190 | the key lands in the first empty link of its chain, or in a new last link when there is none; other links and chains are untouched |
| Hashtable.AddDuplicate | src/hashtable.c:165-168 | corrected, a key already mapped, the empty key included, yields -2 and no change |
| Hashtable.AddDuplicateAsWritten | src/hashtable.c:165-168 | as written the same holds for non-empty keys only |
| Hashtable.EmptyKeyTwiceAsWritten | src/hashtable.c:165-180 | in a chain of an empty link then "", the lookup as written reports NULL for "", so the add writes "" into the empty link and the chain holds it twice; the corrected add returns -2 |
| Hashtable.EmptyKeyTwiceReachable | src/hashtable.c:163-251 | that chain arises from a new one-bucket table by adding "a" and "" and removing "a", with every rehash failing |
| Hashtable.AddOutOfMemory | src/hashtable.c:175-190 | an allocation failure yields -1 with mappings, counter and bucket count kept |
| Hashtable.AddCorrect | src/hashtable.c:163-208 | a new key yields 0, adds exactly its mapping, counts it, and doubles `bucket_count` exactly when the load passes three quarters and the rehash can allocate |
| Hashtable.Add | src/hashtable.c:163-208 | the result is 0, -1 or -2; a failure keeps the counter and the bucket count, and -2 changes nothing; with the rehash failing, a success counts one more in the same buckets |
| Hashtable.AddAsWritten | src/hashtable.c:163-208 | as written, a failure is -1 or -2 and keeps the counter |
| Hashtable.WrappedCounterAsWritten | src/hashtable.c:192-205 | after the zero-length removal leaves the counter at `SIZE_MAX` on a new one-bucket table, the next add wraps it to 0, skips the rehash, and leaves one entry in one bucket under a counter of 0 |
| Hashtable.AddAsWrittenAgrees | src/hashtable.c:163-208 | adding a new key as written is undefined exactly when it is placed, the rehash can allocate, and the entries pass one and a half per bucket; otherwise it is the corrected add |
| Hashtable.NestedRehashAsWritten | src/hashtable.c:132-146 | past that load the add as written is undefined, while the corrected add doubles `bucket_count` and keeps every mapping |
| Hashtable.AddWithoutRehash | src/hashtable.c:192-203 | an add whose rehash cannot allocate gives the same valid table as written and corrected: one mapping more, the same buckets |
| Hashtable.NestedRehashExample | src/hashtable.c:132-146 | adding "a" and "b" to a one-bucket table with failing rehashes, then "c" with one that allocates, is undefined as written; corrected it gives two buckets holding the three mappings |
| Hashtable.LoadCheckCorrect | src/hashtable.c:192-205 | the load check keeps the mappings, counts the new one, and doubles the bucket count only on a successful rehash |
| Hashtable.LoadCheck | src/hashtable.c:192-205 | the table stays well formed; the bucket count is kept or doubled; below the threshold, or with the rehash failing, only the counter rises |
| Hashtable.LoadCheckAsWritten | src/hashtable.c:192-205 | as written, below the threshold only the counter rises, wrapping as a `size_t`; at `SIZE_MAX` it wraps to 0 and no rehash happens |
| Hashtable.LoadCheckFailureRestores | src/hashtable.c:199-203 | a failed rehash restores `bucket_count` and the counter |
| Hashtable.Reinsert | src/hashtable.c:132-145 | the re-add loop keeps the table well formed and its bucket count |
| Hashtable.ReinsertAsWritten | src/hashtable.c:132-145 | as written, when defined, the re-add loop keeps the table well formed and its bucket count |
| Hashtable.ReinsertAsWrittenAgrees | src/hashtable.c:132-145 | the loop as written is the corrected one until the re-added entries pass three quarters of the new bucket count, and undefined from then on |
| Hashtable.RehashAsWritten | src/hashtable.c:126-148 | as written, a rehash whose allocations fail returns -1; one that returns 0 leaves a well-formed table with the doubled `bucket_count` it was given |
| Hashtable.Rehash | src/hashtable.c:126-148 | the corrected rehash returns 0 or -1, and on -1 the table is as it was |
| Hashtable.ReinsertStep | src/hashtable.c:132-145 | one re-add places a key of the old array with its value and counts it |
| Hashtable.ReinsertCorrect | src/hashtable.c:132-145 | re-adding distinct old keys adds exactly their mappings and counts them |
| Hashtable.RehashCorrect | src/hashtable.c:126-148 | a successful rehash keeps every mapping and the count in an array of twice the buckets |
| Hashtable.RehashAsWrittenAgrees | src/hashtable.c:126-148 | with its allocations succeeding, the rehash as written is undefined exactly when the entries pass three quarters of the doubled bucket count, and the corrected rehash otherwise |
| Hashtable.ArrayLostAsWritten | src/hashtable.c:127-131 | as written, a failed array allocation leaves no bucket array but the old `bucket_count` |
| Hashtable.ArrayLostExample | src/hashtable.c:192-203 | the first add to a one-bucket table whose rehash cannot allocate loses the array as written and keeps it corrected |
| Hashtable.RemoveAsWritten | src/hashtable.c:233-251 | as written, 0 or -1 with no change |
| Hashtable.Remove | src/hashtable.c:236-250 | corrected, 0 or -1 with no change |
| Hashtable.RemoveAgrees | src/hashtable.c:237-238 | the removal as written and the corrected one agree on every non-empty key |
| Hashtable.RemoveAbsent | src/hashtable.c:248-250 | an absent key yields -1 and no change |
| Hashtable.RemoveShape | src/hashtable.c:239-243 | removing a present key empties its link: the table stays valid, the mapping is gone, the counter is one lower, no chain shrinks |
| Hashtable.LookupOthers | src/hashtable.c:215-231 | two sound tables whose maps differ only at one key agree on every other lookup |
| Hashtable.RemoveCorrect | src/hashtable.c:233-251 | removing a present key yields 0, its lookup NULL, every other lookup unchanged and the counter one lower |
| Hashtable.RemoveEmptyKeyAsWritten | src/hashtable.c:236-245 | as written, the zero-length key matches a leading empty link: 0 and the counter decremented |
| Hashtable.RemoveEmptyKeyExample | src/hashtable.c:243 | on a new one-bucket table the zero-length removal wraps the counter to the largest `size_t`; corrected it is -1 |
| Hashtable.GetKeys | src/hashtable.c:268-278 | NULL for a zero counter or a failed allocation; a list returned is never empty |
| Hashtable.GetKeysCorrect | src/hashtable.c:279-305 | on a valid non-empty table one node per stored key, each key once, `size` of them |
| Queue.Create | src/queue.c:25-37 | no items and counter 0 |
| Queue.GetSize | src/queue.c:109-111 | the counter, not the number of items: `CounterCountsEnqueues` and `CounterDriftsAsWritten` state its value |
| Queue.Enqueue | src/queue.c:54-77 | a failed allocation is -1 and no change; otherwise the value is appended behind the unchanged items and the counter goes up by one |
| Queue.DequeueAsWritten | src/queue.c:79-89 | NULL and no change on an empty queue; otherwise the head item comes off the front, the rest keep their order, and the counter stays |
| Queue.Dequeue | src/queue.c:84-88 | the same unlink with the counter lowered by one |
| Queue.Peek | src/queue.c:91-100 | NULL for an empty queue or a failed copy |
| Queue.PeekIsNextDequeue | src/queue.c:91-107 | a peek that can allocate returns the item the next dequeue returns |
| Queue.EnqueueAllItems | src/queue.c:61-74 | enqueueing values appends them in order and counts each |
| Queue.DrainItems | src/queue.c:79-89 | dequeueing until empty returns the items front to back |
| Queue.FifoOrder | src/queue.c:54-89 | items come out in the order they went in, after those already queued |
| Queue.EnqueueAfterDrain | src/queue.c:65-68 | once the queue has drained, the next item is its head and its tail |
| Queue.CounterCountsEnqueues | src/queue.c:74 | as written the counter counts successful enqueues, whatever was dequeued |
| Queue.CounterDriftsAsWritten | src/queue.c:79-89 | as written, one enqueue and one dequeue leave an empty queue of reported size 1 |
| Queue.CounterCountsItems | include/queue.h:92-95 | with the corrected dequeue, a counter that starts equal to the number of items stays equal to it after any sequence of enqueues and dequeues |
| Nexus.FirstFree | src/nexus.c:38-45 | the first slot holding -1, with none before it, or none at all |
| Nexus.Removed | src/nexus.c:59-67 | every slot holding the descriptor becomes (-1, 0, 0), every other is kept, the size is kept |
| Nexus.WatchAdd | src/nexus.c:37-57 | the loop reuses the first cleared slot, or grows the array by one; on success some slot holds the descriptor with POLLIN and all other slots are unchanged; a failed growth is -1 and no change |
| Nexus.WatchRemove | src/nexus.c:60-66 | the loop clears every slot holding the descriptor, after which it is no longer watched |
| Nexus.AddWatches | src/nexus.c:37-56 | a successful add watches the descriptor along with everything watched before; -1 exactly when no slot is free and growth fails |
| Nexus.RemoveUnwatches | src/nexus.c:59-67 | removal unwatches exactly that descriptor and never shrinks the array |
| Nexus.RemoveAbsentIsNoop | src/nexus.c:60-65 | removing a descriptor no slot holds changes nothing |
| Nexus.RemoveIdempotent | src/nexus.c:61-65 | removing twice is removing once |
| Nexus.RemoveThenAddReuses | src/nexus.c:40-43 | after a removal, the next add reuses a cleared slot and the array does not grow |
| Util.RDigit | src/util.c:17-19 | every value `random()` can return gives a character '0'..'9' |
| Util.RDigitOnto | src/util/util.c:5-7 | every digit is produced for some value of `random()` |
| Util.Strlen | src/util.c:23 | the scan's end: the first NUL, with no NUL before it |
| Util.StrRepl | src/util.c:21-31 | the loop leaves the buffer and count that the position-wise definition gives |
| Util.Replace | src/util.c:21-31 | the position-wise reading of `strrepl`: the buffer keeps its size, a position not holding `i` keeps its character, and the NUL ending the scan stays |
| Util.OnlyTargetsChange | src/util.c:24-25 | only positions holding `i` before the NUL can change; the buffer keeps its size |
| Util.ReplaceAll | src/util.c:22-30 | without `first`, the count is the number of `i` before the NUL, and the k-th of them takes the k-th generated character |
| Util.ReplaceFirst | src/util/util.c:12-15 | with `first`, only the first occurrence is replaced, by the first generated character, and the count is 1 |
| Util.ReplaceNone | src/util/util.c:9-18 | with no `i` before the NUL, nothing changes and the count is 0 |
| Util.NulNeverReplaced | src/util/util.c:11 | the NUL ending the scan is never replaced |
| Util.DigitsReplaceAll | src/util.c:17-31 | replacing a non-digit with `rdigit` output keeps the string's length and leaves no occurrence, so a second call replaces nothing |
| IrcMsg.Truncate | src/ircmsg.c:320-337 | the line is cut to its first 512 characters; it is kept whole exactly when it fits |
| IrcMsg.Join | src/ircmsg.c:313-338 | the JOIN line is at most 512 bytes; `JoinRoundTrip` states its text |
| IrcMsg.Nick | src/ircmsg.c:340-358 | the NICK line is at most 512 bytes; `NickRoundTrip` states its text |
| IrcMsg.Pass | src/ircmsg.c:360-378 | the PASS line is at most 512 bytes; `PassRoundTrip` states its text |
| IrcMsg.Pong | src/ircmsg.c:380-408 | the PONG line is at most 512 bytes; `PongRoundTrip` states its text |
| IrcMsg.Privmsg | src/ircmsg.c:410-428 | the PRIVMSG line is at most 512 bytes; `PrivmsgRoundTrip` states its text |
| IrcMsg.User | src/ircmsg.c:430-448 | the USER line is at most 512 bytes; `UserRoundTrip` states its text |
| IrcMsg.Fits | src/ircmsg.c:333-337 | a formatted line with room to spare is returned whole, CR LF included |
| IrcMsg.CrLfKept | include/ircmsg.h:89-90 | the parser, as written and repaired, keeps a terminating CR LF glued to the last argument of a NICK line |
| IrcMsg.TokSpec | src/ircmsg.c:51 | `strtok_r` yields NULL exactly for text of delimiters alone; otherwise delimiters, a token free of them, then the end or one delimiter and the rest |
| IrcMsg.Tok | src/ircmsg.c:51 | a token found is never empty; `TokSpec` states the rest |
| IrcMsg.TokWord | src/ircmsg.c:157 | a word free of delimiters is one token and the scan resumes after its delimiter |
| IrcMsg.PrefixAsWritten | src/ircmsg.c:69-130 | a parsed prefix always has a sender, and a user only together with a host |
| IrcMsg.ParsePrefix | src/ircmsg.c:69-130 | the prefix parse agrees with the code wherever the code is defined, and refuses the prefix otherwise |
| IrcMsg.PrefixBang | src/ircmsg.c:69-99 | the '!' form: a missing host fails, otherwise sender, user and host are the three tokens |
| IrcMsg.PrefixFull | src/ircmsg.c:69-99 | `nick!user@host` yields all three parts |
| IrcMsg.PrefixHost | src/ircmsg.c:102-121 | `nick@host` yields sender and host with no user |
| IrcMsg.PrefixSender | src/ircmsg.c:123-130 | a prefix with no separator is the sender alone |
| IrcMsg.PrefixIncomplete | src/ircmsg.c:77-93 | a '!' without a user, or a user without a host, refuses the line |
| IrcMsg.NoUser | src/ircmsg.c:77-81 | as written, `nick!` fails for want of a user |
| IrcMsg.NoHost | src/ircmsg.c:89-93 | as written, `nick!user` fails for want of a host |
| IrcMsg.BangOnlyPrefixAsWritten | src/ircmsg.c:69-71 | as written, a prefix made only of '!' hands NULL to `strlen`; corrected it is refused |
| IrcMsg.Args | src/ircmsg.c:155-193 | never more than 15 parameters |
| IrcMsg.ArgsStep | src/ircmsg.c:157-190 | one turn of the argument loop: a middle token is stored and the loop goes on; a trailing one ends it with the rest of the line |
| IrcMsg.ArgsUnwords | src/ircmsg.c:155-193 | the arguments read back from words are all of them, cut at 15, the trailing one with its spaces |
| IrcMsg.ArgsAsWrittenUnwords | src/ircmsg.c:156-193 | as written the loop reads back all the words, cut at `sizeof(argv)`, when the trailing one is a single word |
| IrcMsg.ArgsAsWritten | src/ircmsg.c:155-193 | as written the loop stores at most `sizeof(argv)` arguments, 120, not 15 |
| IrcMsg.Split | src/ircmsg.c:51-193 | a repaired split has at most 15 parameters and a non-empty command |
| IrcMsg.SplitUnwords | src/ircmsg.c:51-193 | a line of words splits into its command and its first 15 parameters |
| IrcMsg.SplitAsWrittenUnwords | src/ircmsg.c:51-156 | as written the same line splits into all its parameters when there are at most 15, and overruns `argv` when there are more |
| IrcMsg.SplitAsWritten | src/ircmsg.c:27-193 | as written a line that splits has a non-empty command and at most 15 parameters; more parameters are undefined |
| IrcMsg.SplitPrefixed | src/ircmsg.c:57-141 | a prefixed line splits like the bare line, carrying the parsed prefix |
| IrcMsg.Dispatch | src/ircmsg.c:199-246 | PING needs 1 or 2 arguments, PRIVMSG exactly 2, both fail otherwise; JOIN, PART and QUIT succeed with the type unset; every other command is UNKNOWN; the fields are the line's |
| IrcMsg.ParseAsWritten | src/ircmsg.c:27-286 | as written the parse is undefined exactly when the split is; a parsed message carries the network and a non-empty command |
| IrcMsg.Parse | src/ircmsg.c:27-286 | a line the repaired split refuses is refused; a parsed message carries the network and a non-empty command |
| IrcMsg.DispatchIgnoresCase | src/ircmsg.c:199-241 | the command is matched regardless of ASCII case |
| IrcMsg.DispatchPrivmsg | src/ircmsg.c:216-234 | a PRIVMSG with two arguments becomes the target and the text, not a highlight and not private |
| IrcMsg.DispatchPong | src/ircmsg.c:244-246 | PONG is UNKNOWN to the parser |
| IrcMsg.NickRoundTrip | src/ircmsg.c:347 | a NICK line that fits splits back into NICK and the nick |
| IrcMsg.PassRoundTrip | src/ircmsg.c:367 | a PASS line splits back into the password, spaces and all |
| IrcMsg.JoinRoundTrip | src/ircmsg.c:321-326 | a JOIN line splits back into the channels, and the keys when given |
| IrcMsg.JoinKeysWords | src/ircmsg.c:325 | the keyed JOIN format is three words |
| IrcMsg.JoinKeysBody | src/ircmsg.c:325 | the keyed JOIN line without its CR LF is three words |
| IrcMsg.JoinKeysRoundTrip | src/ircmsg.c:325 | a keyed JOIN splits back into JOIN, channels and keys |
| IrcMsg.JoinChannelsRoundTrip | src/ircmsg.c:322 | a JOIN without keys splits back into JOIN and the channels |
| IrcMsg.PongBody | src/ircmsg.c:388-393 | the PONG line is the command and the server as words, the second server trailing |
| IrcMsg.PongRoundTrip | src/ircmsg.c:388-393 | a PONG line splits back into the server, and the second server when given |
| IrcMsg.UserTail | src/ircmsg.c:437 | the mode, `*` and the real name of USER are two words and a trailing parameter |
| IrcMsg.UserWords | src/ircmsg.c:437 | the USER format is four words and a trailing parameter |
| IrcMsg.UserBody | src/ircmsg.c:430-448 | the USER line without its CR LF is those words and the trailing real name |
| IrcMsg.UserRoundTrip | src/ircmsg.c:430-448 | a USER line splits back into the user name, the mode, `*` and the real name |
| IrcMsg.PrivmsgBody | src/ircmsg.c:417 | the PRIVMSG line is the command and target as words and the text trailing |
| IrcMsg.PrivmsgSplit | src/ircmsg.c:410-428 | a PRIVMSG line splits back into the target and the text |
| IrcMsg.PrivmsgRoundTrip | src/ircmsg.c:162-183 | the repaired parser reads back the PRIVMSG the bot sends with the same target and text, spaces included |
| IrcMsg.PrivmsgRoundTripAsWritten | src/ircmsg.c:164-174 | as written the round trip holds for text without a space |
| IrcMsg.TrailingGluedAsWritten | src/ircmsg.c:177-180 | as written, a trailing `:a b` is read as `:ab` |
| IrcMsg.TrailingKept | src/ircmsg.c:162-165 | corrected, the same line delivers `a b` |
| IrcMsg.TrailingSplitAsWritten | src/ircmsg.c:164-183 | as written the split glues the trailing argument, keeping its ':' |
| IrcMsg.TrailingSplit | src/ircmsg.c:164-165 | corrected, the split keeps the rest of the line after the ':' whole |
| IrcMsg.TrailingGluedStep | src/ircmsg.c:177-182 | the loop step that glues a trailing argument to the rest of the line |
| IrcMsg.HelloWorldAsWritten | src/ircmsg.c:179-180 | `PRIVMSG #test :hello world` reaches the bot as `:helloworld` |
| IrcMsg.HelloWorld | src/ircmsg.c:165 | corrected, it reaches the bot as `hello world` |
| IrcMsg.TooManyParamsAsWritten | src/ircmsg.c:156 | as written, more than 15 middle parameters overrun `argv`; corrected the first 15 are kept |
| IrcMsg.TooManyParamsRepaired | src/ircmsg.c:35 | the repaired split keeps the first 15 parameters of any longer line |
| IrcMsg.SixteenParamsAsWritten | src/ircmsg.c:156-190 | a command with sixteen parameters overruns `argv` as written |
| IrcMsg.BangPrefixAsWritten | src/ircmsg.c:69-75 | a line whose prefix is made only of '!' is undefined as written and refused corrected |
| IrcMsg.BlankLineFails | src/ircmsg.c:51-55 | an empty or all-space line fails |
| IrcMsg.BareColonFails | src/ircmsg.c:58-63 | a bare ':' prefix fails |
| IrcMsg.PrefixWithoutCommandFails | src/ircmsg.c:136-140 | a prefix with no command after it fails |
| IrcMsg.PingParses | src/ircmsg.c:199-215 | a PING with the server as its trailing parameter parses with that server and no second one |
| IrcMsg.PongIsUnknown | src/ircmsg.c:244-246 | the PONG the bot sends parses as an UNKNOWN command |

## Left out

- `ircmsg_free`, `htable_destroy`, `htable_key_list_free`, `free_buckets`,
  `queue_destroy` and every `free` are left out: memory release has no
  observable result in a value model.
- Out-of-memory in `ircmsg_parse` and the builders is left out. Every
  checked allocation (`src/ircmsg.c` 44-222 and the builders) only yields
  NULL through `fail_oom`. The two allocations of the trailing argument
  (`src/ircmsg.c` 168 and 177) are not checked: when they fail, the
  `strcpy`/`strncpy` after them write through NULL, which is undefined
  behaviour, not a NULL result. The model assumes those two succeed.
- The builders' `snprintf` result below zero is left out: it is an encoding
  error that cannot arise for `char` strings.
- IrcMsg.Join, IrcMsg.Nick, IrcMsg.Pass, IrcMsg.Pong, IrcMsg.Privmsg and
  IrcMsg.User state only the 512-byte bound. Their exact text is stated by
  the Body and RoundTrip lemmas about them, for lines that fit.
- The `msg_dup` copy in `ircmsg_parse` is left out. It is not NUL-terminated
  when `len` is the exact length; the model reads the line as a C string.
- The `malloc(strlen(network))` off-by-one of the network copy is left out:
  the model copies the network name as it is.
- `is_hilight` and `is_pm` are always false, as the parser sets them.
- The unset `type` of JOIN, PART and QUIT is the payload `Unset`: the code
  leaves it as `malloc` returned it.
- The load factor is the integer comparison `4 * count > 3 * buckets`.
  `htable_set_load_threshold`, `htable_set_loadfactor_threshold`,
  `htable_get_load_factor` and `htable_get_load_threshold` are left out:
  their values are floating point.
- Hashtable.AddCorrect, Hashtable.LoadCheckCorrect, Hashtable.RehashCorrect,
  Hashtable.Reinsert, Htable.AddCorrect, Htable.RehashCorrect and
  Htable.Reinsert state the corrected rehash, whose re-add loop does not
  re-check the load. As written both tables can rehash again from inside
  that loop (findings 8 and 9). The AsWritten members stop at undefined
  behaviour there. What follows is not modelled: in `hashtable.c` the loop
  bound `bucket_count/2` and `free_buckets(tmp_buckets, bucket_count/2)`
  then walk 2n links of an n-link array; in `htable.c`
  `htable_destroy(tmp_table)` walks 2n chains of an n-chain array.
- Hashtable.Add and Hashtable.AddAsWritten take values that are never NULL.
  `hashtable.c` accepts a NULL value, which then looks absent to the lookup
  and the duplicate test, so its key can be added twice; no caller passes
  NULL.
- Htable.Create, Hashtable.Create and Queue.Create never fail for want of
  memory. The source returns NULL then; nothing else in the model depends
  on it.
- The `deep` flag of `hashtable.c` `htable_get_keys` is left out: copies and
  borrowed pointers hold the same bytes, so the key list is the same.
- The `size_t` overflow of `bucket_count * scale`, of `htable.c`'s
  `mapping_count`, of the corrected tables' counters and of the queue's
  `size` counter is left out. The table counters count entries actually
  stored, far below 2^64. The queue counter as written counts successful
  enqueues, and a wrap would take 2^64 of them. The `hashtable.c` counter
  as written wraps both ways (Hashtable.Decrement, Hashtable.Increment),
  because the zero-length removal drives it to `SIZE_MAX`.
- Hashtable.AddAsWrittenAgrees, Hashtable.NestedRehashAsWritten and
  Hashtable.AddWithoutRehash take a counter below `SIZE_MAX`: at `SIZE_MAX`
  the add as written wraps the counter (Hashtable.WrappedCounterAsWritten)
  while the corrected add does not.
- Every `char` of the IRC module stands for one byte; the byte bounds of the
  builders are stated in characters on that reading.
- Jenkins.SignednessMatters and the `hashtable.c` hash assume a target
  whose plain `char` is signed (x86, x86-64); on AArch64, ARM and PowerPC
  Linux `char` is unsigned and that hash is the `htable.c` one.
- The queue's `head`/`tail` pointers are left out. The list from `head` is
  the sequence, so a stale `tail` after a drain is not modelled. Its one
  consequence, that the next enqueue becomes the head, is proved.
- `run()` in src/nexus.c (the `poll` loop) is left out: it is I/O.
- `random()` is a parameter, and the generator `f` is the sequence of its
  results.
- The `watch_add(fds[0], false)` call in src/plugin.c does not match the
  one-argument `watch_add` and is left out.
- src/util/hashtable.c and src/util/hashtable.h, an earlier copy of
  `hashtable.c`, are left out. Their only caller is the test loop at the end
  of `main` in src/main.c (lines 96-101), which adds one key to a fresh
  table and looks it up; `Hashtable` covers that in the later version.
- Logging is left out everywhere.

## Findings

| source | as written | input that shows it | evidently intended | confidence | as-written member | corrected member |
|---|---|---|---|---|---|---|
| src/htable.c:255 | `htable_remove` unlinks the entry but never decrements `mapping_count` | add one key to a one-bucket table, remove it, list the keys: 0 keys against a counter of 1, and `_exit(-1)` | the counter drops with the unlink | not executed | Htable.RemoveThenGetKeysExitsExample | Htable.RemoveCorrect |
| src/hashtable.c:128-131 | a failed `calloc` of the new array returns -1 with `bucket_array` already NULL; the caller restores only `bucket_count` and `size` | the first add to a one-bucket table whose rehash array cannot be allocated | the old array is put back | not executed | Hashtable.ArrayLostExample | Hashtable.LoadCheckCorrect |
| src/hashtable.c:237-243 | the link test passes an empty link for a zero-length key, so removing `""` "removes" an empty link and decrements `size` | remove the empty key from a new one-bucket table: 0, and `size` wraps to 2^64 - 1 | only occupied links match; the result is -1 | not executed | Hashtable.RemoveEmptyKeyExample | Hashtable.RemoveCorrect |
| src/ircmsg.c:177-180 | a trailing argument with spaces is stored with its ':' and without the space after its first word | `PRIVMSG #test :hello world` yields the text `:helloworld` | the text after the ':' with its spaces, `hello world` | not executed | IrcMsg.HelloWorldAsWritten | IrcMsg.PrivmsgRoundTrip |
| src/ircmsg.c:156 | the argument loop runs to `sizeof(argv)` (120 on LP64) and writes past the 15 slots of `argv` | a command followed by sixteen middle parameters | stop at 15 parameters | not executed | IrcMsg.SixteenParamsAsWritten | IrcMsg.TooManyParamsRepaired |
| src/queue.c:79-89 | `queue_dequeue` never decrements `size`, so `queue_get_size` is not the number of items present | enqueue one item, dequeue it: an empty queue whose size is 1 | the counter drops with each dequeue | not executed | Queue.CounterDriftsAsWritten | Queue.CounterCountsItems |
| src/ircmsg.c:69-75 | a prefix of '!' alone makes `strtok_r` return NULL, which is handed to `strlen` | the line `:! PING` | refuse the prefix like a missing user or host | not executed | IrcMsg.BangPrefixAsWritten | IrcMsg.ParsePrefix |
| src/htable.c:125-140 | the re-add loop of `htable_rehash` goes through `htable_add`, whose load check can rehash the temporary table itself; the swap then puts the grown array under `bucket_count * scale`, and `htable_destroy(tmp_table)` walks more chains than the old array holds | a one-bucket table: add two keys whose rehashes cannot allocate, then a third whose rehash can | re-add the keys without a load check, into a table already sized | not executed | Htable.NestedRehashExample | Htable.AddCorrect |
| src/hashtable.c:132-146 | the re-add loop of `htable_rehash` calls `htable_add`, which can double `bucket_count` again; the loop bound and `free_buckets(tmp_buckets, bucket_count/2)` then read past the old array | add "a" and "b" to a one-bucket table whose rehashes fail, then "c" with a rehash that allocates | re-add the entries without a load check | not executed | Hashtable.NestedRehashExample | Hashtable.AddCorrect |
| src/hashtable.c:165 | the duplicate test is `htable_lookup`, which stops at an empty link for the zero-length key, so "" can be stored twice | a one-bucket table whose rehashes fail: add "a", add "", remove "a", add "" again | the add returns -2 for a key already present | not executed | Hashtable.EmptyKeyTwiceAsWritten | Hashtable.AddDuplicate |
