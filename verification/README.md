# Nyet: a verified model of the DNS proxy's core

Nyet answers DNS queries on a home network. It walks a suffix tree of blocked, allowed and
reviewed names, keeps two caches in front of the tree and of the upstream resolver, asks a
Pi-hole once about every name it has never seen, and reloads its lists while it runs. This
project models that core in Dafny and proves what holds of it: of each operation, of whole
runs, and of the interleavings its locks allow. `dafny verify dfyconfig.toml` checks all of it.

The code that works in place is modelled in place: tree nodes with growable child arrays,
cache slots, hash chains, token buckets, packet buffers and the edit-distance table are
objects, arrays and loops, each proved against a specification that is a plain value. What
the source promises is then proved about those values.

## The parts

* **Names and labels** (`Labels`, `Names`). The byte order of labels is a total order that is
  zero only on equal labels. The right-to-left tokeniser gives the non-empty dot-separated
  labels in lower case, last one first, and its cap of 128 labels drops none of a name of up to
  256 bytes.
* **The tree** (`Forest`, `Verdict`, `RadixTree`). The heap tree is represented by a map from
  paths to cells. An insert that returns 0 is a map update of exactly one path. An insert that
  fails at any allocation leaves the map alone, except that a failed entry allocation on an
  existing node loses that node's entry. Sorting is invisible to the map. Binary search and
  linear scan give the same child. A lookup gives the deepest ALLOWED entry on the name's path,
  else the deepest BLOCKED, else the deepest REVIEW, and changes no verdict.
* **The caches** (`ProbeTable`, `VerdictCache`, `AnswerCache`, `SharedReaders`). Both caches
  share one discipline: a key is looked for along its own probe order, which is the whole table
  in the verdict cache and eight cyclic slots in the answer cache. Probing finds a key exactly
  when a full scan would, in every reachable table. Over any run, with arbitrary clock
  readings, a hit is the latest accepted insert, and it lasts exactly as long as the TTL stored with
  it. Lookups that share the lock are interleaved access by access; one that has it to itself is
  the sequential lookup.
* **The wire format** (`Question`, `AnswerWire`, `WireLaws`). The question parser accepts exactly
  the packets that spell a host name, in letters of either case, fitting its buffer (RFC 1035
  sections 3.1 and 4.1.2), and the tree then walks exactly the labels on the wire. The answer walk
  yields the first eight matching records of the longest well-formed prefix (sections 4.1.3 and
  4.1.4), and reading back a response built from the cache gives what was cached.
* **The proxy** (`AskOnce`, `AskedCache`, `Decisions`, `ProxyModel`, `ProxyLaws`, `Proxy`). Queries,
  the ends of gravity checks and reloads are steps of a state machine. Over every run whose reloads
  are safe for the names under check, the fast path of `check_domain` agrees with a fresh walk of
  the tree, and a cached reply is never for a name the tree has as blocked or under review; an
  unsafe reload can always break the agreement. What a client gets, byte by byte, is said in terms
  of the entries on the name's path and the answers stored for it: the sinkhole exactly for blocked
  names, a stored answer exactly where one may be served, and else what came from upstream. The
  class `Proxy` ties the tree, the caches and the asked cache together, and each of its operations
  is a step of the machine.
* **The protocols** (`Gravity`, `RateLimit`). The ask-once protocol over all interleavings of
  workers and check threads, and what the two levels of token buckets allow: no more than their
  bounds, and nothing less.
* **The scripts** (`EditDistance`, `EditTriangle`, `FuzzyMatch`, `BlockFile`, `Rollup`,
  `RollupLimits`). The edit distance is the least cost of an edit script. The rollup of a block list,
  from the physical lines of the file to the lines read back afterwards, keeps its coverage under a
  stated condition on the file's ending and the accepted parents.

## Where the code falls short of its comments

Each of these comes with an input or a run that shows it, and with the exact condition under which
the code does what it says.

* `src/nyet.c:1040-1042` says a collision of two sources in one bucket is never more permissive. It
  is, exactly if the source's own bucket would not have refilled by then (`RateLimit.CollisionIff`);
  a run from the start gets there (`RateLimit.CollisionRefills`). The bound per bucket counts owner
  changes.
* A refill of a full global bucket after a gap longer than 10,737,415 seconds overflows an `int`
  (`RateLimit.OneSecondTooMany`); `RateLimit.OverflowBounds` is exact for both buckets.
* A reload while a gravity check is in flight can leave the verdict cache disagreeing with the tree:
  `ProxyModel.ReloadBreaksFreshStart` is a run of four steps from a fresh start, without a failure.
  `Decisions.SafeForIff` says exactly when a table lets the promotion of a name keep every decision,
  in runs whose promotions lose no entry and in runs where they may. Reloads to such tables keep
  caches and tree in agreement (`ProxyModel.StepKeeps`), and for every other table some outcome
  breaks it (`ProxyModel.UnsafeReloadDisagrees`).
* Served answers are for allowed names only if the tree could be told of the name. The empty name
  has no place in the tree, and for any other the REVIEW entry may fail to be allocated: then a second
  query is answered from the cache with the name still unmatched (`ProxyModel.UnflaggedIsServed`,
  `ProxyModel.EmptyNameIsServed`). Where the tree's inserts succeed, they are for allowed names
  (`ProxyModel.ServedAreAllowed`); and a name the tree has as BLOCKED or REVIEW is never served,
  whatever fails (`ProxyModel.ServedNeverBlocked`).
* A failed allocation in `queue_gravity_check`, or a thread that cannot be made, leaves the name
  PENDING for good: `Gravity.ThreadlessIsStuck` is a run that ends so, and from then on nothing claims
  or settles the name (`Gravity.StuckForGood`). The names left so are exactly those for which a thread
  could not be made (`Gravity.StuckIff`); every pending name is being settled exactly if every thread
  could be made (`Gravity.PendingIsInProgress`).
* `answer_cache`'s count drifts below the number of valid slots when two lookups drop the same
  expired slot (`SharedReaders.TwoReadersCountTwice`). It is exact exactly if nothing was dropped
  twice since the last clear (`SharedReaders.CountIsExactIff`).
* `src/nyet.c:588-591` says `parse_answer_records` leaves its output untouched on failure, and fails
  for a TTL only if every matching record has TTL 0. It fails if one has, or if all have 2^32-1, and
  the records found have been written by then (`AnswerWire.ZeroTtlWritesARow`);
  nothing is written exactly if no readable record matches (`AnswerWire.RowsWrittenOnFailure`).
* The rollup writes the kept lines with `writelines`, which adds no newline. A list whose last line
  has none can come out with two lines run together, and the second one's domain lost
  (`RollupLimits.GluedParentIsLost`). `Rollup.EndsSafelyIff` gives the condition on the list and the
  answers under which the file holds the lines as written. Otherwise `Rollup.SwallowedLines` says
  what it still blocks, which can by chance be all of it (`RollupLimits.GluedIntoParent`).
* A rollup into a parent made of dots only, such as `.` for `x..`, loses its children
  (`RollupLimits.DotsBlockNothing`); `Rollup.ParentCoversIff` is exact.
* `scripts/deep_inspect.py:95` gives the distance of metrix and metrics as 1. It is 2
  (`EditTriangle.MetrixIsTwoSteps`).

## Model

| member | source | states |
|---|---|---|
| Labels.CompareZero | src/radix_tree.c:41-48 | `label_compare` is zero exactly on equal labels |
| Labels.LabelOrder | src/radix_tree.c:41-48 | the order is total and transitive, with no label below itself |
| Labels.FirstDifference | src/radix_tree.c:41-48 | the first differing byte decides, and a label comes after its proper prefixes |
| Names.LabelsRtlIsSplit | src/radix_tree.c:251-287 | scanning a name from its end finds exactly its non-empty dot-separated pieces, last one first |
| Names.ScanIsCapped | src/radix_tree.c:251-287 | the loop with its cap of 128 labels collects the first 128 of them |
| Names.CapNeverBites | src/radix_tree.c:244-287 | for every name of at most 256 bytes the cap drops no label |
| Names.LowerAllIs | src/radix_tree.c:259-264 | lower-casing keeps every byte up to the case of letters and leaves no capital, and only the lower-cased name does both |
| Names.AlikeSamePath | src/radix_tree.c:251-287 | names that differ in the case of letters only have the same path |
| Names.SplitDomainRtl | src/radix_tree.c:251-287 | the tokeniser's label array is the capped path of the name, without capitals, with -1 for an empty name or one of 512 bytes and more; every access stays in its buffer |
| RadixTree.FindChild | src/radix_tree.c:60-91 | in a sorted node by binary search and in an unsorted one by scanning, the child found is the one node the tree has for that label, or none |
| RadixTree.AppendChild | src/radix_tree.c:135-146 | a full child array grows to four or to twice its length, and no other one grows; when it cannot, nothing changes; otherwise the child is last and the node counts as unsorted |
| RadixTree.InsertPath | src/radix_tree.c:148-242 | on the heap: 0 and the tree with the path set, or -1 and the tree with at most one sorted flag cleared, or, when the replacing entry could not be allocated, that path's entry gone |
| RadixTree.Tree.Insert | src/radix_tree.c:302-315 | `radix_insert` sets the path of the name's labels, -2 for a name without labels or a tree without a root |
| RadixTree.Tree.InsertLive | src/radix_tree.c:340-376 | the same on the published tree, with its own error codes |
| RadixTree.SortChildrenRecursive | src/radix_tree.c:98-106 | every child array at or below a node is sorted in place, the rest of the heap is not touched |
| RadixTree.Tree.TakeOver | src/radix_tree.c:324-338 | publishing and swapping hand over the builder's table unchanged, with every node sorted and ascending, and leave the builder empty |
| RadixTree.WalkLookup | src/radix_tree.c:395-440 | the walk that remembers the best entry so far stops at the winner of the closed form |
| RadixTree.Tree.Lookup | src/radix_tree.c:378-473 | returns the winner of the closed form, already counted, and changes only that entry's hit counter and last_seen |
| Forest.InsertIsMapUpdate | src/radix_tree.c:148-242 | an insert keeps the shape of the tree and updates its table at exactly one path |
| Forest.FailedInsertMeaning | src/radix_tree.c:161-231 | an insert that fails at any allocation keeps the shape and the table, but for the entry a failed entry allocation loses |
| Forest.InsertMeaning | src/radix_tree.c:148-242 | any outcome of an insert is the map operation of that outcome |
| Forest.SortForestShape | src/radix_tree.c:98-106 | sorting leaves the table alone, and every child array below strictly ascending and marked sorted |
| Forest.PartSortedShape | src/radix_tree.c:60-106 | trees that differ in which nodes are sorted have the same table |
| Verdict.WinnerStatus | src/radix_tree.c:395-440 | a name is matched if its path has an entry, ALLOWED if it has an ALLOWED one, BLOCKED if it has a BLOCKED one and no ALLOWED one, and conversely; and the winner is the deepest entry of its status |
| Verdict.TouchCounts | src/radix_tree.c:442-460 | a lookup counts one hit on the winner and sets its time, hands that entry back, and changes nothing else |
| Verdict.SubdomainsOfBlocked | src/radix_tree.c:378-473 | everything under a blocked name is blocked unless an ALLOWED entry lies on its own path, and then it is allowed |
| Verdict.LookupKeepsVerdicts | src/radix_tree.c:442-460 | no lookup changes the winner, the status or the TTL of any later lookup |
| Verdict.WinnerStops | src/radix_tree.c:395-440 | where the walk runs out of nodes it has already seen the winner |
| ProbeTable.ProbeIsScan | src/answer_cache.c:145-198 | under the invariant, probing a key's own slots finds it exactly when scanning every slot would, and in the same place |
| ProbeTable.HitIffLive | src/answer_cache.c:145-198 | a lookup hits exactly when the table holds the key unexpired, returns what is stored there and renews its timestamp |
| ProbeTable.HitIffInTime | src/dns_cache.c:117-140 | while no entry outlives the 64-bit clock: a lookup hits exactly if the key is stored and was last touched no longer than its TTL in seconds ago |
| ProbeTable.InsertThenLookup | src/answer_cache.c:98-298 | what was inserted at t0 for ttl seconds is found up to t0 + ttl * 10^9 and no more after that |
| ProbeTable.InsertLosesOverdue | src/answer_cache.c:229-298 | an insert loses only entries past their TTL, or one least recently touched of a probe order of entries within theirs |
| ProbeTable.PruneRemovesOverdue | src/dns_cache.c:261-281 | a prune removes exactly the entries past their TTL |
| ProbeTable.InsertKeepsInv | src/answer_cache.c:200-298 | an accepted insert keeps keys unique, in their probe order and stored with their own hash |
| ProbeTable.InsertEffect | src/answer_cache.c:229-298 | an insert loses no live entry but one with the least timestamp of its probe order, and that only when every slot there is live and the key is not in the table |
| ProbeTable.RunKeeps | src/answer_cache.c:145-360 | over every run with arbitrary clock readings the invariant holds and every slot stores its key's latest insert |
| ProbeTable.HitIsLatest | src/dns_cache.c:104-281 | a hit returns exactly the payload of the latest accepted insert for that key since the last clear and invalidation |
| ProbeTable.InvalidatedIsGone | src/answer_cache.c:307-334 | after an invalidation no slot of the table has the key |
| VerdictCache.VerdictCache.Lookup | src/dns_cache.c:104-151 | a lookup of the verdict cache is a probe of the whole table and hits exactly what is within its TTL; an expired match is a miss and stays; the counters follow |
| VerdictCache.VerdictCache.Insert | src/dns_cache.c:153-226 | refresh, first free slot or least recently touched slot of the whole table; rejects TTL 0 and names over 253 bytes and then changes nothing; count is the number of valid slots |
| VerdictCache.VerdictCache.Invalidate | src/dns_cache.c:228-250 | the entry of the name is gone, and the result tells whether there was one |
| VerdictCache.VerdictCache.Clear | src/dns_cache.c:252-259 | every slot is empty and the count is 0 |
| VerdictCache.VerdictCache.PruneExpired | src/dns_cache.c:261-281 | exactly the entries past their TTL are gone, and their number is returned |
| AnswerCache.AnswerCache.Lookup | src/answer_cache.c:145-198 | a lookup examines eight cyclic slots and hits exactly what is within its TTL; an expired match is dropped; count follows the number of valid slots |
| AnswerCache.AnswerCache.Insert | src/answer_cache.c:200-298 | refresh, first free slot or least recently touched slot of the window; accepts one to eight records of one to sixteen bytes with a TTL for a name of up to 95 bytes, and otherwise changes nothing |
| AnswerCache.AnswerCache.Invalidate | src/answer_cache.c:307-334 | the A and the AAAA entry of the name are gone, and the result tells whether there was one |
| AnswerCache.AnswerCache.Clear | src/answer_cache.c:336-343 | every slot is empty, the count is 0, and it is exact again |
| AnswerCache.AnswerCache.DropAgain | src/answer_cache.c:173-180 | a lookup that drops a slot another one has dropped lowers the count by one more, and every other operation keeps what the count is short by |
| AnswerCache.AnswerCache.PruneExpired | src/answer_cache.c:345-360 | exactly the entries past their TTL are gone, and their number is returned |
| AnswerCache.NoAnswerAfterInvalidate | src/answer_cache.c:300-334 | no slot anywhere holds an A or AAAA answer for the name afterwards, and every other key is where it was |
| AnswerCache.BoundedProbeIsFullScan | src/answer_cache.c:145-298 | in every table reachable from the empty one, eight slots find a key exactly when a full scan would, and every entry sits in its window with its own hash, once |
| SharedReaders.SoloIsLookup | src/answer_cache.c:153-197 | the accesses of a lookup that meets no other make up the sequential lookup: slots, result and count |
| SharedReaders.ReadersOnlyAge | src/answer_cache.c:153-193 | between operations that run alone no timestamp goes back and no dropped slot comes to life again, in any interleaving of lookups |
| SharedReaders.LookupsOnlyAge | src/answer_cache.c:153-193 | over every interleaving of lookups no timestamp goes back and no dropped slot comes to life again |
| SharedReaders.CountIsExactIff | src/answer_cache.c:173-180 | whenever the lock is free the count is the number of valid slots less the drops since the last clear that met a slot already dropped, so it is exact exactly if there were none |
| SharedReaders.VerdictCountExact | src/dns_cache.c:114-146 | the verdict cache's count is always exact |
| SharedReaders.TwoReadersCountTwice | src/answer_cache.c:173-180 | two lookups of one expired slot end with the count one below the number of valid slots |
| Question.ParseQuery | src/nyet.c:455-509 | accepts exactly the packets that spell a host name fitting the buffer, and then leaves its dotted form, without capitals, and its type; all accesses stay in bounds |
| Question.AcceptedIff | src/nyet.c:455-509 | a packet with labels up to a zero byte is accepted exactly if they are letters of either case, digits and hyphens, the zero byte is at offset 268 at most (267 after one label) and a type follows; and then it asks for the labels in lower case |
| Question.CaseDoesNotMatter | src/nyet.c:475-493 | packets whose names differ in the case of letters only ask for the same |
| Question.AsksOnce | src/nyet.c:455-509 | a packet asks for at most one name and type |
| Question.WireLabelsReachTree | src/nyet.c:455-509 | the tree is walked with exactly the packet's labels in lower case, last one first |
| Question.HostPathInjective | src/radix_tree.c:251-287 | two parsed names with the same path are the same name |
| AnswerWire.SkipDnsName | src/nyet.c:571-581 | the loop finds the position after a name, or that it runs past the packet |
| AnswerWire.SkipsSpelledName | src/nyet.c:571-581 | on an accepted question the skipper and the parser agree on the name's end exactly when no label has 192 bytes or more |
| AnswerWire.CollectIsFirstEight | src/nyet.c:616-642 | the loop's collection is the first eight matching records of the longest well-formed prefix of the section |
| AnswerWire.ParseAnswerRecords | src/nyet.c:592-650 | for every byte string: those records with their exact least TTL, or failure exactly on a bad header or question, no match, or a least TTL of 0 or 2^32-1; the buffer's rows hold the records collected, and every other row and byte what it held before; all accesses stay in bounds |
| AnswerWire.RowsWrittenOnFailure | src/nyet.c:588-591 | on failure no row is written exactly if no readable record matches; otherwise the least TTL was 0 or 2^32-1 |
| AnswerWire.ZeroTtlWritesARow | src/nyet.c:588-591 | a reply with one matching record of TTL 0 fails and has written its record |
| AnswerWire.CreateCachedAnswerResponse | src/nyet.c:659-692 | 0 if the response does not fit, otherwise the request with flags and count over it and one answer per record behind it |
| AnswerWire.CreateBlockedResponse | src/nyet.c:538-563 | byte for byte the cached-answer response for one 0.0.0.0 A record with the given TTL |
| WireLaws.ResponseBytes | src/nyet.c:659-692 | every byte of a response: the request with flags 81 80 and the count over it, and each record with pointer, type, class IN, TTL, length and data |
| WireLaws.SinkholeBytes | src/nyet.c:511-563 | the blocked response is the request and one A record 0.0.0.0 with that TTL |
| WireLaws.ReplyReads | src/nyet.c:592-642 | a reply without an error to one question is read as its records, of whatever types and classes |
| WireLaws.CollectedPicks | src/nyet.c:616-642 | of those, exactly the first eight of the queried type, class IN and that type's length are collected, whatever stands between them |
| WireLaws.CacheableIs | src/nyet.c:644-649 | the collected data is cached for the least of the TTLs, and nothing is if there is none, one of them is 0 or all are 2^32-1 |
| WireLaws.ErrorsAreNotCached | src/nyet.c:592-597 | nothing is cached of a reply that is too short or reports an error |
| AnswerWire.CachedAnswerRoundTrip | src/nyet.c:592-692 | reading back a response built from a cached answer gives the same count, width, TTL and record bytes |
| AnswerWire.AskedQueryRoundTrip | src/nyet.c:455-692 | in particular for every query the parser accepts that ends after its question and whose labels are below 192 bytes |
| AskedCache.AskedCache.TryClaim | src/nyet.c:233-265 | a name is claimed exactly if it is not there and memory suffices; the chains hold the updated map |
| AskedCache.AskedCache.MarkDone | src/nyet.c:277-297 | success marks the name DONE, failure unlinks its node, and every other name stays, through the pointer-to-pointer walk |
| Decisions.AtIs | src/nyet.c:775-790 | what a fresh lookup says of a name, status by status, and which entry's TTL it carries |
| Decisions.ReviewChange | src/nyet.c:968-970 | setting or losing a REVIEW entry changes no BLOCKED or ALLOWED decision |
| Decisions.GravityInsertKeepsIff | src/nyet.c:1331-1341 | blocking a name without a TTL keeps every decision exactly if the name was undecided, blocked for the default TTL, or allowed from above |
| Decisions.LosingKeepsIff | src/radix_tree.c:203-231 | losing a name's entry keeps every decision exactly if it had none or only a REVIEW one, was allowed from above, or had a block under another with the same response TTL |
| Decisions.SafeIff | src/nyet.c:1331-1341 | both keep every decision exactly if the name is safe, which is a condition on its own path |
| Decisions.SafeForIff | src/nyet.c:1331-1341 | the exact condition for promotions that lose no entry and for those that may |
| ProxyLaws.ReplyMeans | src/nyet.c:1895-2030 | a query gets the sinkhole exactly if a BLOCKED and no ALLOWED entry is on its path, for the deepest one's TTL or a minute; a stored answer exactly if it is an address query for a name that is ALLOWED or has no entry, and an answer within its TTL is stored and fits; and else what came from upstream |
| ProxyLaws.RepliesOverRuns | src/nyet.c:1895-2030 | so it is over every run from a fresh start |
| ProxyLaws.OneReply | src/nyet.c:1895-2030 | each reply has one cause |
| ProxyLaws.QueryEffects | src/nyet.c:1914-1933 | a name without an entry on its path gets a REVIEW entry and is asked about once if a permit is free; any other is counted exactly if no verdict on it is cached within its TTL |
| ProxyLaws.QueryStores | src/nyet.c:1943-2045 | what comes from upstream for a servable address query is found from then on until its least TTL has passed; other queries store nothing |
| ProxyLaws.CheckCaches | src/nyet.c:806-824 | a block is cached for the TTL of its response, an ALLOWED for five minutes, nothing else |
| ProxyLaws.FinishMeans | src/nyet.c:1326-1376 | only a listed name is promoted: its path gets a BLOCKED entry without a TTL, all below it is blocked but for ALLOWED entries, its address answers are gone and no others; any other result leaves tree and caches alone |
| ProxyModel.CheckDomainIsLookup | src/nyet.c:731-826 | whatever is cached, `check_domain` gives the matched flag, status and response TTL of a fresh lookup, and keeps the invariant |
| ProxyModel.MeetKeeps | src/nyet.c:1918-1932 | flagging an unmatched name and asking the Pi keeps the invariant, and a flagged name is matched from then on |
| ProxyModel.PromotionKeeps | src/nyet.c:1331-1341 | a promotion, its allocations failing or not, keeps every decision a cache may hold and the safety of all other names under check |
| ProxyModel.StepSound | src/nyet.c:731-2154 | every query, gravity completion and reload, to whatever table, keeps the part of the invariant that does not speak of checks in flight |
| ProxyModel.StepKeeps | src/nyet.c:731-2154 | with reloads that are safe for every name under check that is short enough to be cached, the whole invariant is kept; where no promotion loses an entry, it is enough that promotions are harmless |
| ProxyModel.VerdictsCoherentOverRuns | src/nyet.c:731-826 | over every run, whatever the clocks read and whichever allocations fail, `check_domain` and a fresh lookup agree on every name; the same with fewer conditions on reloads where no promotion loses an entry |
| ProxyModel.ServedAreAllowed | src/nyet.c:1943-1967 | over every run in which the tree's allocations succeed, a reply from the answer cache is for a name the tree allows before and after |
| ProxyModel.ServedNeverBlocked | src/nyet.c:1943-1967 | over every run, any allocation failing and the empty name included, a reply from the answer cache is never for a name the tree has as BLOCKED or REVIEW |
| ProxyModel.EmptyNameServedUnmatched | src/nyet.c:1943-1967 | the empty name's cached answers are served although it is never matched |
| ProxyModel.UnflaggedIsServed | src/nyet.c:1918-1967 | from a fresh state, a second query for any unmatched name whose REVIEW entry could not be set, or for the empty name, is answered from the cache |
| ProxyModel.EmptyNameIsServed | src/nyet.c:1943-1967 | the same with the bytes of a query for the root name, and no failure |
| ProxyModel.UnsafeReloadDisagrees | src/nyet.c:2143-2154 | in every state with a check in flight and for every table unsafe for its name, one query and an outcome of that check leave the verdict cache and the tree disagreeing |
| ProxyModel.ReloadBreaksFreshStart | src/nyet.c:2143-2154 | a run from a fresh start, for every unmatched name that can be cached: met, blocked by a reload for ten minutes, asked for again and found listed, its cached verdict is not the tree's |
| Proxy.Proxy.CheckDomain | src/nyet.c:731-826 | on the heap, over the tree and the verdict cache: exactly the step of the model |
| Proxy.Proxy.ProcessRequest | src/nyet.c:1860-2075 | from datagram to datagram: unparsed or rate-limited packets change nothing and are not answered; otherwise the new state is the model's, and while the caches agree with the tree the reply has its cause in the entries on the name's path and the stored answers; its bytes are in the buffer |
| Proxy.Proxy.QueueGravityCheck | src/nyet.c:1381-1412 | without a permit the claim is given back; without a thread the permit is; otherwise a check is in flight |
| Proxy.Proxy.FinishGravityCheck | src/nyet.c:1326-1376 | the promotion of a listed name and of no other, the dropped answers, the mark and the released permit |
| Proxy.Proxy.Reload | src/nyet.c:2143-2154 | afterwards the tree is the new table and both caches are empty; where the table is safe for the names under check, the whole invariant is kept |
| Gravity.StepKeeps | src/nyet.c:1326-1412 | every step of every thread keeps the protocol's invariant |
| Gravity.Safety | src/nyet.c:1381-1412 | free permits and permits held make eight; every running check is for a pending name, no two for one; every pending name has exactly one claimant unless its thread could not be made |
| Gravity.DoneStays | src/nyet.c:277-297 | an answered name stays answered and is never claimed again |
| Gravity.FailureFrees | src/nyet.c:1371-1394 | an unreachable Pi and a full semaphore make the name claimable again |
| Gravity.AnswerSettles | src/nyet.c:1358-1371 | either answer of the Pi makes the name DONE |
| Gravity.SkippedIff | src/nyet.c:1381-1394 | a check is skipped exactly if all eight permits are held |
| Gravity.OneCheck | src/nyet.c:1326-1412 | a run of one check from claim to released permit, for each result |
| Gravity.AskedOnce | src/nyet.c:233-297 | over every run and interleaving no name is answered twice |
| Gravity.StuckIff | src/nyet.c:1397-1411 | over every run from the start, the pending names that nobody settles are exactly those for which a thread could not be made |
| Gravity.PendingIsInProgress | src/nyet.c:1381-1412 | every pending name is being settled exactly if every thread could be made |
| Gravity.StuckForGood | src/nyet.c:1397-1411 | such a name stays pending over every further run, and is never claimed |
| Gravity.ThreadlessIsStuck | src/nyet.c:1397-1411 | a run from the start that ends so: claim, permit, no thread, permit given back |
| RateLimit.RateLimiter.Allow | src/nyet.c:1044-1089 | the in-place update of both buckets, with the machine's 32-bit arithmetic, is the step function |
| RateLimit.OverflowBounds | src/nyet.c:1056-1081 | no refill overflows an `int` exactly if the gap is at most 10,737,415 seconds for the global bucket and 214,748,362 for a source's |
| RateLimit.OneSecondTooMany | src/nyet.c:2199-2213 | one second more and a full global bucket is refilled to a negative count |
| RateLimit.GlobalKeeps | src/nyet.c:1044-1060 | the global bucket stays between zero and its maximum, whatever the sources and their buckets do |
| RateLimit.BucketKeeps | src/nyet.c:1062-1089 | a bucket stays between zero and the maximum, is untouched by calls of other buckets, and pays for every call it allows |
| RateLimit.GlobalBound | src/nyet.c:1019-1060 | in any seconds t0..t1 of any run at most 500 + 200 (t1 - t0) calls are allowed, from any sources |
| RateLimit.BucketBound | src/nyet.c:1006-1089 | and at most 20 (1 + owner changes) + 10 (t1 - t0) through one bucket, whatever happens in the others |
| RateLimit.BoundsFromStart | src/nyet.c:2199-2213 | both bounds hold from the state the program starts in |
| RateLimit.AllowedIff | src/nyet.c:1051-1085 | a call is allowed exactly if the refilled global bucket has something left, and its own bucket is new to the source or has something left after its refill |
| RateLimit.BudgetsAfter | src/nyet.c:1051-1085 | what is left in both buckets after the call, and that no other bucket is touched |
| RateLimit.FirstSecondAllowed | src/nyet.c:1019-1085 | in the first second, up to 500 calls with up to 20 from each source, in buckets of their own, are allowed one and all |
| RateLimit.RefusedAtTheBound | src/nyet.c:1051-1060 | over every run from the start: a call whose own bucket has something left is refused only if the calls allowed since some moment have used up 500 and 200 for every second since |
| RateLimit.CollisionIff | src/nyet.c:1040-1074 | after a colliding source has taken its bucket over, a source finds 20 tokens; that is more than it would have had alone exactly if its own bucket would not have been full by then |
| RateLimit.CollisionRefills | src/nyet.c:1067-1074 | from the start: a source that has used up its tokens is refused, and is allowed in the same second once a colliding source has called |
| EditDistance.DamerauLevenshtein | scripts/deep_inspect.py:94-113 | the filled table's last cell is the recursive distance |
| EditDistance.DistanceIsOptimal | scripts/deep_inspect.py:94-113 | the distance is the least cost of all scripts of keep, change, delete, insert and neighbour-swap steps from one text to the other |
| EditDistance.Symmetric | scripts/deep_inspect.py:94-113 | it is symmetric |
| EditDistance.DistanceBounds | scripts/deep_inspect.py:94-113 | it is zero exactly on equal texts, and between the difference of the lengths and the longer length |
| EditTriangle.TriangleWithoutSwaps | scripts/deep_inspect.py:94-113 | the triangle inequality holds where both ways have a cheapest script without a swap |
| EditTriangle.TwiceTheTriangle | scripts/deep_inspect.py:94-113 | for all texts the distance is at most twice the sum of the two ways |
| EditTriangle.NoTriangle | scripts/deep_inspect.py:94-113 | and not at most the sum: ca, ac, abc |
| EditTriangle.MetrixIsTwoSteps | scripts/deep_inspect.py:95 | the distance of metrix and metrics is 2, not 1 |
| FuzzyMatch.FuzzySubstringScore | scripts/deep_inspect.py:115-155 | no window of any stem scores more than the result, and what is reported is a window of the reported stem that scores exactly that |
| FuzzyMatch.ScoreMeans | scripts/deep_inspect.py:130-148 | a window scores 100 as the stem itself, and with more than three tenths of the trigrams in common 85 one edit away and 65 two edits away from a stem of six or more; nothing else |
| FuzzyMatch.SimilarIs | scripts/deep_inspect.py:136-137 | the similarity test is the ratio of common to all trigrams exceeding 0.3 |
| FuzzyMatch.FullMarksIffOccurs | scripts/deep_inspect.py:115-155 | the score is 100 exactly if some stem occurs in the name as it stands |
| BlockFile.ParseMeans | scripts/clean_blocklist.py:110-125 | a line of two columns or more is read as its second column in lower case, split at dots, and a TTL only from the digits of the seventh of eight columns |
| BlockFile.JoinedText | scripts/clean_blocklist.py:247-248 | the file holds the written bytes one line after the other, as physical lines of which only the last may lack its newline |
| BlockFile.JoinedIff | scripts/clean_blocklist.py:247-248 | a file written line by line reads back as those lines exactly if each but the last has its newline |
| BlockFile.JoinedLists | scripts/clean_blocklist.py:247-248 | what reads back otherwise: exactly the domains of the lines that start where they were written, each with all that runs on into it |
| Rollup.ParentLineParses | scripts/clean_blocklist.py:203-206 | a parent's line reads back as the parent with its TTL |
| Rollup.OptimizeBlocklist | scripts/clean_blocklist.py:85-250 | from file to file: the file afterwards holds the lines as written exactly if the list ends safely; then, where accepted parents have a label or their children have none, what it blocks is what the old one did plus everything at or under an accepted parent; candidates' children are disjoint and with the untouched rows are all domains; parents are unprotected, have three lines below them and come longest first; no further candidate is left |
| Rollup.LongestFirstOrdered | scripts/clean_blocklist.py:133-137 | parents are taken longest first, equal lengths in the order they came |
| Rollup.EndsSafelyIff | scripts/clean_blocklist.py:99-248 | every written line but the last has its newline exactly if the list's last line has one or is passed over, or names a child of an accepted parent, or a child of the last candidate that no other line names |
| Rollup.SwallowedLines | scripts/clean_blocklist.py:247-248 | whatever the ending, the file blocks exactly what the lines do that start where they were written, each with all that runs on into it |
| RollupLimits.GluedParentIsLost | scripts/clean_blocklist.py:203-248 | three children and an open line of another domain: accepting the parent leaves only that other domain blocked |
| RollupLimits.GluedIntoParent | scripts/clean_blocklist.py:203-248 | with the parent's own line as the open one, lines run together and coverage is kept |
| RollupLimits.DotsBlockNothing | scripts/clean_blocklist.py:63-78 | for x.. y.. and z.. the candidate is the dot alone, and accepting it leaves a list that blocks nothing |
| Rollup.ParentBlocks | scripts/clean_blocklist.py:63-78 | a parent blocks whatever an entry below it blocks |
| Rollup.ParentCoversIff | scripts/clean_blocklist.py:201-215 | a parent covers all its children exactly if it has a label, or its children have none |
| Rollup.TreeBlocksIffListBlocks | scripts/clean_blocklist.py:85-231 | the coverage the rollup keeps is what the tree decides for a table of such rows |

## Left out

- Sockets, completion ports, HTTP, thread creation, files, arguments, logging and the console. Packets, gravity results, clock readings, scores and new tables are inputs of the operations.
- The choice between the two upstreams, its timeouts and the match of transaction ids: what came back, if anything, is an input.
- The parts of a check result that only reach the log (matched name, source column, score), and the counters behind the log lines.
- The rate limiter's answer is an input of `Proxy.Proxy.ProcessRequest`; the limiter itself is `RateLimit`.
- The heuristic score and its word trie; the score is an opaque number kept in the entry.
- Writing `learned.tsv` and `review.tsv`, and parsing a block list file; a reload takes the table it would load.
- Finer interleavings of requests with gravity completions and reloads in the proxy's state machine: each is one atomic step there. In the code a late REVIEW insert can replace a promotion, and a lookup that straddles a swap and the clear can leave an old verdict cached.
- ProxyModel.VerdictsCoherentOverRuns: is about runs whose reloads are safe for the names under check; the others are what `ProxyModel.UnsafeReloadDisagrees` is about.
- ProxyModel.ServedNeverBlocked: the same.
- ProxyLaws.ReplyMeans: is about states in which the caches agree with the tree, which safe reloads keep.
- ProxyLaws.RepliesOverRuns: the same.
- ProbeTable.HitIffInTime: is about entries whose time stamp and TTL together stay below 2^64 nanoseconds.
- RateLimit.FirstSecondAllowed: is about sources other than 0.0.0.0, whose address is what an untouched bucket holds, and about distinct sources in distinct buckets.
- Locks themselves. Operations under an exclusive lock are atomic; lookups under the shared lock are interleaved in `SharedReaders`, where an operation that runs alone is any change that moves the count by as much as the number of valid slots, as the operations of `AnswerCache.AnswerCache` do whatever its count is short by.
- Running without one or both caches after a failed allocation at start-up.
- The hash functions, which are arbitrary functions, and the clock, which is an arbitrary reading at each use; masking with a power of two is written as a remainder.
- Freeing memory, memory layout and alignment, and the statistics counters under races. `realloc` and `malloc` either succeed or fail without a reason.
- The library sort: a selection sort of child arrays stands for `qsort`, an insertion into a sorted list for Python's `sorted`.
- The bytes of an invalid cache slot, except in `SharedReaders`.
- Rows of a block list with an action other than B. In the rollup, white space around a line and a domain, other line ends than `\n`, letters and digits beyond ASCII; an accepted or declined candidate is an input, and so is the time.
- What the loader skips besides (comments, empty and over-long columns): the coverage statements are about the domains that the rollup itself reads.
- The trigram ratio is compared as whole numbers instead of floating point; `canonicalize`, the exact-stem search, suffix and vendor lists of `assess_domain` are not modelled.
- Requests with further sections behind the question: the builders append behind the whole request, so the round trip is about requests that end with their question.
- ProxyModel.ServedAreAllowed: is about runs in which the tree's inserts succeed and about non-empty names; the two exceptions are stated.
- RateLimit.GlobalBound: is about a clock that does not go back and gaps of the global bucket within the overflow bound, where the 32-bit refill is exact.
- RateLimit.BucketBound: the same, for the gaps of that bucket.
