# RustScale core verification

A Dafny model of the five places in RustScale where a mistake is hardest to see, with proofs of what
they are for. `dafny verify dfyconfig.toml` checks everything.

**The ART route table** (`crates/art`): longest-prefix match over a path-compressed trie of 8-bit
strides. `Stride.dfy` is the 512-entry array of one stride, `Prefix.dfy` the bit arithmetic of
addresses and prefixes, `Trie.dfy` insertion with splitting and deletion with compaction on trie values,
`Lookup.dfy` the optimistic descent, `Canonical.dfy` the uniqueness of shapes and which strides there are,
`RouteTable.dfy` the table with its route map, value slots and free list and every history of
operations. `StrideTable.dfy` and `RoutingTable.dfy` are the mutable tables themselves: arrays of
entries and children updated in place, descents as loops, each method proved against the function on
values, up to whole histories. Main results: `RouteTable.LookupAfterHistory`, `RouteTable.HistoriesCanonical`,
`Canonical.DeleteUndoesInsert`, `Canonical.StridesExactly`, `RouteTable.StridesLinear`, `Trie.InsertIntoCorrect`,
`Trie.DeleteFromCorrect`, `Stride.InsertCaches`, `Stride.DeleteCaches`.

**The transactional updater** (`crates/clientupdate/src/install.rs`): `FaultyFs.dfy` is a file system in
which a schedule decides which operations break and what debris they leave, and which records every
state it passes through; `Receipt.dfy` is the ownership receipt; `Installer.dfy` is the update. Main
results: `Installer.ApplyArchiveTransaction`, for every schedule: all or nothing, recoverable in every
recorded state, and successful exactly when the update is installable and none of its operations broke,
the binaries then being the two payloads and the receipt naming their digests; `Receipt.ParsesExactly`, the
texts that are receipts;
`Installer.UpdateWithoutFaults` and `Installer.UpdateWithOneFault`, what that means for a schedule with no
fault and with any single one. Tests for symbolic links have a schedule of their own, because for a
regular file a broken one answers like a working one.

**The audit queue** (`crates/auditlog`): `AuditStore.dfy` has the store operations, `AuditMachine.dfy` the
protocol as atomic steps at lock and await boundaries, `AuditLogger.dfy` the methods and the delivery
loop. Main results over every run: `AuditMachine.NoEventLost`, `AuditMachine.RemovedForGood`,
`AuditMachine.AttemptsBounded` (with `AuditLoggers.SendsUnbounded` for why its condition is needed),
`AuditMachine.SendDecides`, `AuditMachine.NoLostWakeUp`, `AuditMachine.FlushWithinReach`,
`AuditLoggers.BackoffDoubles` and `AuditLoggers.QueueDrains`.

**The ts2021 session and the map stream** (`crates/controlclient`): `NoiseCrypto.dfy`,
`NoiseSymmetric.dfy` and `NoiseHandshake.dfy` are the handshake over any hash, curve and cipher that
satisfy `NoiseCrypto.Lawful`; `NoisePattern.dfy` interprets the IK pattern from its token lists, from
initialisation through writing and reading at both ends, sharing only primitives, the prologue and numbers
with the code; `NoiseRecords.dfy` has records and pumps, `NoiseSession.dfy` a session from the first message
on; `MapFrames.dfy` the length-prefixed map stream. Main results: `NoiseHandshake.HandshakeAgreement`,
`NoisePattern.InitiationIsIk`, `NoisePattern.ServerIsIk`, `NoisePattern.FinishIsIk`,
`NoiseSymmetric.PrologueExactly`, `NoiseCrypto.HmacExactly`, `NoiseRecords.StreamFidelity`,
`NoiseRecords.PumpsUntil`, `NoiseSession.Converse`, `MapFrames.ReaderIsDecoder`, `MapFrames.EventsExactly`.

**Two parsers with their printers**: `Tar.dfy` (`crates/clientupdate/src/archive.rs`), and `Dns.dfy` with
`DnsMessages.dfy` (`crates/appc/src/observe.rs`); both check text with `Utf8.dfy`. Main results:
`Tar.ArchiveRoundTrip` and `Tar.AcceptsExactly`, both equivalences, the second down to the octets of every
header; `Dns.NameReadsExactly`, which octets are which name; `Dns.BuildParse`; `DnsMessages.MessageParses` and
`DnsMessages.MessageCutOff`, what becomes of whole messages and of messages cut off;
`DnsMessages.MeaningExactly`; `Utf8.ValidExactly`.

Formats are pinned down octet by octet, in numbers and texts written out in the statements, so that a reader
and a writer cannot agree on the wrong thing: `Tar.ReadsHeaderExactly`, `Receipt.ParsesExactly`,
`DnsMessages.BuilderWrites`, `NoiseHandshake.InitiationOctets`, `NoiseHandshake.ResponseOctets`,
`NoiseHandshake.ErrorOctets`, `NoiseRecords.FrameOctets`, `NoiseRecords.NonceOctet`, `MapFrames.FrameOctets`,
`Wire.BeOctet`, `Wire.LeOctet`.

Octets are integers from 0 to 255, shifts are divisions and multiplications by powers of two, and
truncations of lengths to 8, 16 or 32 bits are written out. Where an operation changes state in place it
is a method of a class with a `modifies` clause; the functions of the same name on values are its
specification, and the properties are proved about those.

Where the code falls short of a law, the exact extent is stated. A map payload of 2^32 octets or more is
framed with its length modulo 2^32 and never decodes to itself (`MapFrames.EncodeDecode`, an
equivalence). The DNS builder counts records and data octets in 16 bits: `Dns.BuildParse` says what is
read for every number of records, and `Dns.OversizedTargetMisread` and `Dns.OversizedTargetUnnoticed`
what becomes of data that does not fit. The HKDF loop advances its one-octet block counter after the
last block too. Without overflow checks, as in the workspace's release profile, that increment is never
read and every length comes out as defined (`NoiseCrypto.ComputeHkdf`); with them the loop stops from the
255th block on (`NoiseCrypto.ComputeHkdfChecked`). Both callers ask for two blocks.

## Model

| member | source | states |
|---|---|---|
| Stride.PrefixIndexUnderHost | crates/art/src/stride_table.rs:151-157 | a prefix position lies above a host position in the 512-entry tree exactly when address and host agree on the leading bits, and its depth is the prefix length |
| Stride.Nearest | crates/art/src/stride_table.rs:138-148 | the reference for what an entry caches: a routed position above or at `i` below which no other routed position above `i` lies |
| Stride.CachesRoots | crates/art/src/stride_table.rs:131-136 | the local comparison with the parent entry recovers exactly the set of routed positions from the cached array |
| Stride.AllotRegion | crates/art/src/stride_table.rs:138-148 | the walk with its early cut-off rewrites exactly the positions connected to its start through the old route, and no other |
| Stride.RegionOf | crates/art/src/stride_table.rs:138-148 | in a correctly cached array that connected region is the set of positions whose nearest routed position would be the start |
| Stride.InsertCaches | crates/art/src/stride_table.rs:89-101 | inserting a route id no other position has makes every entry the route of its nearest routed ancestor, for the extended set |
| Stride.DeleteCaches | crates/art/src/stride_table.rs:103-113 | deleting any routed position does the same for the remaining set, the parent entry taking over the region |
| Prefix.XorLeadingZeros | crates/art/src/lib.rs:521-525 | the leading zeros of an exclusive or of two octets are at least k exactly when their top k bits agree; it is zero exactly when they are equal |
| Prefix.MaskByte | crates/art/src/lib.rs:62-66 | and-ing with the shifted mask clears exactly the low bits |
| Prefix.MaskedProperties | crates/art/src/lib.rs:56-70 | masking keeps every significant bit, zeroes every host bit, and masking twice is masking once |
| Prefix.ContainsAgrees | crates/art/src/lib.rs:80-90 | containment holds exactly when the families agree and the first `bits` bits agree one by one |
| Prefix.ComputeCommonBits | crates/art/src/lib.rs:514-530 | the loop over octets computes the shared-prefix length in an octet, at most 128 |
| Prefix.CommonBitsIsLongest | crates/art/src/lib.rs:514-530 | that length is at least k exactly when the first k bits agree, for every k up to the cap |
| Prefix.BoundaryStem | crates/art/src/lib.rs:487-489 | cutting a masked prefix at an octet boundary gives a masked prefix that fixes exactly those octets |
| Prefix.StemContains | crates/art/src/lib.rs:491-493 | a stride prefix contains an address exactly when its octets are a prefix of the address |
| Prefix.SplitStridesProperties | crates/art/src/lib.rs:495-512 | the split point lies at or below the common parent and strictly above both prefixes, all octets before it are shared, and beyond one stride the next octets differ |
| Prefix.SplitProperties | crates/art/src/lib.rs:495-512 | the intermediate prefix is masked, aligned, strictly between parent and old child, and the two slots named differ whenever both are used for children |
| Prefix.KeyOfContains | crates/art/src/lib.rs:356-367 | the trie position of a prefix (fixed octets and stride index) determines its length and which addresses it contains |
| Prefix.KeyOfInjective | crates/art/src/lib.rs:356-367 | different masked prefixes of a family have different trie positions |
| Trie.StrideInsertCorrect | crates/art/src/stride_table.rs:89-101 | inserting into one stride changes the route of exactly one key, reports what that key had, and keeps the trie well formed with its count right |
| Trie.StrideDeleteCorrect | crates/art/src/stride_table.rs:103-113 | deleting from one stride removes exactly one key and reports its route; without one nothing changes |
| Trie.SetChildCorrect | crates/art/src/stride_table.rs:67-73 | setting a child changes exactly the keys that descend through its slot and keeps the child count right |
| Trie.DeleteChildCorrect | crates/art/src/stride_table.rs:75-80 | deleting a child removes exactly the keys that descend through its slot |
| Trie.LeafCorrect | crates/art/src/lib.rs:378-384 | a new leaf stride is well formed and routes exactly one key |
| Trie.SplitCorrect | crates/art/src/lib.rs:389-408 | a split keeps every key of the old child, adds the new one, and its stride lies strictly between parent and old child in bits |
| Trie.InsertBelowCorrect | crates/art/src/lib.rs:356-417 | insertion below any stride keeps well-formedness and compactness and changes exactly the key of the prefix |
| Trie.InsertIntoCorrect | crates/art/src/lib.rs:356-417 | from the root: the new key maps to the new id, every other key keeps its route, and the reported previous route is the one found before |
| Trie.OnlyChild | crates/art/src/lib.rs:445-469 | a stride without routes and with one child routes exactly what that child routes, which fits into the slot of its parent |
| Trie.CleanChildCorrect | crates/art/src/lib.rs:445-469 | dropping or bypassing a stride that neither routes nor branches changes no key and keeps well-formedness |
| Trie.DeleteBelowCorrect | crates/art/src/lib.rs:419-443 | deletion below any stride removes exactly the key of the prefix, with compaction on the way back |
| Trie.DeleteFromCorrect | crates/art/src/lib.rs:419-443 | from the root: exactly that key is gone, its route is reported, and a prefix that is not there leaves the trie equal |
| Trie.TwoPasses | crates/art/src/lib.rs:419-469 | removing first and compacting the recorded path afterwards is the same as compacting on the way back up |
| Trie.CleanPathCounted | crates/art/src/lib.rs:445-469 | compaction along a recorded path keeps the counters in step with the slots |
| Lookup.MatchesGood | crates/art/src/lib.rs:238-263 | every noted stride is masked and aligned and lies along the descent, and there are at most sixteen, so the fixed buffer never overflows |
| Lookup.OptimisticDescent | crates/art/src/lib.rs:238-263 | descending without checking containment and filtering afterwards gives the same route as checking at every step |
| Lookup.HostEntry | crates/art/src/stride_table.rs:115-120 | a host entry is empty exactly when no routed position covers the host, and otherwise shows the deepest that does |
| Lookup.GetIsLongest | crates/art/src/lib.rs:238-263 | the trie lookup returns the route of a covering key longer than every other covering key, and none exactly when no key covers the address |
| Canonical.KeysDetermineShape | crates/art/src/lib.rs:356-469 | well-formed tries with the same keys have the same stride prefixes, child slots and rooted positions, all the way down |
| Canonical.ShapeAndRoutesDetermine | crates/art/src/lib.rs:356-469 | with the same routes too, two tries of the same shape are equal |
| Canonical.RoutesDetermineTrie | crates/art/src/lib.rs:356-469 | a well-formed trie is the only one with its routes |
| Canonical.DeleteUndoesInsert | crates/art/src/lib.rs:356-469 | deleting a freshly inserted prefix gives back the very trie it was inserted into |
| Canonical.KeySetIsFind | crates/art/src/lib.rs:356-469 | counting keys stride by stride counts exactly the keys that are found |
| Canonical.StridesBelow | crates/art/src/stride_table.rs:122-129 | every compact subtree has fewer strides than twice its keys |
| Canonical.StridesBounded | crates/art/src/lib.rs:331-333 | a whole trie has at most one stride more than twice its keys |
| Canonical.StridesExactly | crates/art/src/lib.rs:356-469 | which strides there are besides the root: one for the octets of every routed key and one wherever two routed keys part, and no other |
| Canonical.NumStridesCounts | crates/art/src/stride_table.rs:122-129 | the count is the number of those: no two strides stand for the same octets |
| RouteTable.AllocateCorrect | crates/art/src/lib.rs:335-344 | allocation hands out an id no installed prefix has, keeps ids live, distinct and apart from the free list, and grows the slots only when all are live |
| RouteTable.ReleaseCorrect | crates/art/src/lib.rs:346-350 | releasing a live id empties its slot and puts it on the free list, keeping the partition |
| RouteTable.InsertIndexes | crates/art/src/lib.rs:218-233 | trie and route map stay in step on insertion, and the trie never reports a route to replace, so the insertion assertion cannot fire |
| RouteTable.InsertCorrect | crates/art/src/lib.rs:218-233 | insertion is map insertion on the masked prefix and returns the replaced value; slots are the maximum of before and live |
| RouteTable.RemoveCorrect | crates/art/src/lib.rs:283-293 | the trie gives back exactly the id the route map has, so the deletion assertion cannot fire |
| RouteTable.DeleteCorrect | crates/art/src/lib.rs:283-293 | deletion is map removal of the masked prefix and returns the value it held |
| RouteTable.NaiveGetUnique | crates/art/src/tests.rs:11-17 | the scan over a prefix map for the longest containing prefix has one answer |
| RouteTable.GetIsNaive | crates/art/src/lib.rs:238-263 | on every valid table the lookup is that scan over its contents |
| RouteTable.StepCorrect | crates/art/src/lib.rs:218-317 | every operation keeps the table valid and acts on its contents as on a map |
| RouteTable.Run | crates/art/src/lib.rs:218-350 | after every history the table is valid, its contents are those of the map history, and its slots number exactly the peak of live prefixes since the last clear |
| RouteTable.LookupAfterHistory | crates/art/src/lib.rs:218-293 | after every history of insert, delete and clear, lookup returns the value of the longest installed prefix containing the address, or none exactly when there is none |
| RouteTable.HistoriesCanonical | crates/art/src/lib.rs:356-469 | any two histories that end with the same prefixes give tries of the same shape in both families, whatever ids and values |
| RouteTable.StridesLinear | crates/art/src/lib.rs:331-333 | across both families there are at most 2 + 2 n strides for n installed prefixes |
| StrideTables.StrideTable.constructor | crates/art/src/stride_table.rs:41-50 | a new stride in memory stands for the empty stride of its prefix |
| StrideTables.StrideTable.Allot | crates/art/src/stride_table.rs:138-148 | the recursive in-place walk leaves the array equal to the walk on values |
| StrideTables.StrideTable.Insert | crates/art/src/stride_table.rs:89-101 | in-place insertion into entries and counter refines insertion on values and leaves the tables below alone |
| StrideTables.StrideTable.Delete | crates/art/src/stride_table.rs:103-113 | in-place deletion refines deletion on values; without a route nothing is written |
| StrideTables.StrideTable.SetChild | crates/art/src/stride_table.rs:67-73 | the slot and counter are updated in place, the other subtrees keep their contents and stay disjoint |
| StrideTables.StrideTable.DeleteChild | crates/art/src/stride_table.rs:75-80 | the slot is emptied in place and the counter never underflows |
| StrideTables.StrideTable.TakeFirstChild | crates/art/src/stride_table.rs:82-87 | takes the child out of the first occupied slot, which exists when the counter is positive, and leaves the counter alone |
| StrideTables.StrideTable.Split | crates/art/src/lib.rs:389-408 | the new intermediate table with the old child hung below it refines the split on values |
| StrideTables.StrideTable.InsertHere | crates/art/src/lib.rs:372-409 | the last step of an insertion, into the stride, a new leaf or a split, refines insertion on values |
| StrideTables.StrideTable.InsertionPoint | crates/art/src/lib.rs:365-416 | the descent loop ends at a table of the path where insertion happens, every table on the way having been passed for the reasons the value-level insertion has |
| StrideTables.StrideTable.InsertInto | crates/art/src/lib.rs:356-417 | the whole loop with its in-place updates refines insertion on values; only tables of this trie are written |
| StrideTables.StrideTable.DeletionPoint | crates/art/src/lib.rs:419-437 | the descent loop finds the stride that would hold the prefix and records the slots taken, or shows deletion changes nothing |
| StrideTables.StrideTable.RemoveRoute | crates/art/src/lib.rs:419-443 | the first pass removes the route in place along the recorded path and refines the first pass on values |
| StrideTables.StrideTable.DeleteHere | crates/art/src/lib.rs:438-441 | the last step of a deletion refines deletion on values at the stride found, and writes nothing when the prefix is not there |
| StrideTables.StrideTable.Bypass | crates/art/src/lib.rs:462-467 | the only child of a child takes its place, in place, apart from everything else in the table |
| StrideTables.StrideTable.CleanSlot | crates/art/src/lib.rs:445-469 | drops or bypasses a child in place exactly as compaction on values |
| StrideTables.StrideTable.CleanEmptyStrides | crates/art/src/lib.rs:445-469 | compacts the recorded path in place, innermost first, as on values |
| StrideTables.StrideTable.DeleteFrom | crates/art/src/lib.rs:419-443 | both passes in place refine deletion on values |
| StrideTables.StrideTable.NumStrides | crates/art/src/stride_table.rs:122-129 | the recursive count over the in-memory tables is the count on values |
| RoutingTables.RoutingTable.constructor | crates/art/src/lib.rs:199-208 | a new table stands for the empty table |
| RoutingTables.RoutingTable.Clear | crates/art/src/lib.rs:313-315 | clearing gives the empty table again |
| RoutingTables.RoutingTable.Allocate | crates/art/src/lib.rs:335-344 | slots and free list are updated in place as on values |
| RoutingTables.RoutingTable.Insert | crates/art/src/lib.rs:218-233 | the in-place insertion, including both families' tries, refines insertion on values, for every valid prefix, masked or not |
| RoutingTables.RoutingTable.Delete | crates/art/src/lib.rs:283-293 | the in-place deletion refines deletion on values |
| RoutingTables.RoutingTable.CollectMatches | crates/art/src/lib.rs:238-256 | the descent loop fills a sixteen-place array with exactly the matches of the descent on values, never beyond its end |
| RoutingTables.RoutingTable.Get | crates/art/src/lib.rs:238-263 | descent and backward scan return the table lookup, the slot read always being live |
| RoutingTables.RoutingTable.GetPrefix | crates/art/src/lib.rs:274-279 | the value of exactly this prefix, masked first |
| RoutingTables.RoutingTable.Len | crates/art/src/lib.rs:319-321 | the number of installed prefixes |
| RoutingTables.RoutingTable.NumStrides | crates/art/src/lib.rs:331-333 | the count over both families, with its linear bound |
| RoutingTables.RoutingTable.Replay | crates/art/src/lib.rs:218-317 | running any history of insert, delete and clear on the mutable table leaves the table on values of that history |
| RoutingTables.RoutingTable.LookUpAfter | crates/art/src/lib.rs:218-293 | so its lookup after any history is the scan for the longest installed prefix |
| AuditStore.DedupProperties | crates/auditlog/src/lib.rs:405-413 | deduplication keeps exactly one transaction of every id |
| AuditStore.DedupFront | crates/auditlog/src/lib.rs:405-413 | the copy that stands first wins: a front with distinct ids survives whole, of the rest only other ids |
| AuditStore.SortByTimeProperties | crates/auditlog/src/lib.rs:405-413 | the sort orders by time, is a permutation, and keeps the order of equal times |
| AuditStore.ComputeDeduplicateAndSort | crates/auditlog/src/lib.rs:405-413 | the filtering loop and sort give distinct ids in time order and lose no id |
| AuditStore.AppendProperties | crates/auditlog/src/lib.rs:368-381 | appended transactions replace stored ones of the same id, every other stored one stays, and the list stays proper |
| AuditStore.MarkDoneProperties | crates/auditlog/src/lib.rs:383-402 | marking done removes exactly the completed ids and keeps the list proper |
| AuditMachine.ConservedStep | crates/auditlog/src/lib.rs:184-350 | every atomic step of every thread keeps each accepted event stored or finished, removed events gone, and the flusher alone |
| AuditMachine.AttemptedStep | crates/auditlog/src/lib.rs:300-350 | every step keeps the count of outcomes covered by the retry counts, unless a store write failed or the final flush was cut off |
| AuditMachine.WakesUpStep | crates/auditlog/src/lib.rs:184-297 | every step keeps the wake-up invariant and the back-off between half a second and ten |
| AuditMachine.InvariantRun | crates/auditlog/src/lib.rs:184-413 | all three invariants hold after every run, and removal is permanent along it |
| AuditMachine.NoEventLost | crates/auditlog/src/lib.rs:229-350 | in every interleaving an accepted event is in the store or has received its final outcome |
| AuditMachine.RemovedForGood | crates/auditlog/src/lib.rs:300-402 | an event once removed is finished and never in the store again, whatever follows |
| AuditMachine.FinishedIsGone | crates/auditlog/src/lib.rs:313-349 | without store failures a finished event has left the store as soon as its flush has marked it |
| AuditMachine.AttemptsBounded | crates/auditlog/src/lib.rs:313-349 | without store failures no event receives more than max(1, limit) outcomes over a run |
| AuditMachine.SendDecides | crates/auditlog/src/lib.rs:335-345 | in every run a send finishes its event exactly when it was delivered, refused for good or out of retries, and otherwise keeps it with one retry more; undisturbed, a finished event is never sent again |
| AuditMachine.StoreProper | crates/auditlog/src/lib.rs:368-413 | after every run the stored list has distinct ids and is ordered by time |
| AuditMachine.NoLostWakeUp | crates/auditlog/src/lib.rs:184-297 | an idle worker without a timer and with events in the store has a token waiting, or an enqueuer or the starting thread is still about to send one |
| AuditMachine.FlushWithinReach | crates/auditlog/src/lib.rs:229-297 | from every reachable state with an idle worker and a non-empty store a flush begins within three steps of the worker or of one caller already on its way |
| AuditMachine.ReappendWins | crates/auditlog/src/lib.rs:345-381 | re-appending replaces each stored copy by one with at least its retry count and drops nothing |
| AuditLoggers.LoopIsRun | crates/auditlog/src/lib.rs:313-345 | the delivery loop over the snapshot and the machine's send steps leave the same completed and retained lists, for every outcome list |
| AuditLoggers.SendsUnbounded | crates/auditlog/src/lib.rs:250-349 | why the bound needs every flush to record what it did: with failing removals, failing re-appends of a retryable event, or final flushes cut off by their time-out, any number of sends of one event can happen |
| AuditLoggers.FlushIsRun | crates/auditlog/src/lib.rs:300-350 | a whole flush that has the store to itself is a run of the machine: same store, flush over, and the timer set by what the method returns, for every outcome list, cancellation, missing transport and store failure |
| AuditLoggers.CompletedExactly | crates/auditlog/src/lib.rs:335-345 | an event of the snapshot is completed exactly when it was delivered, refused for good, or has no retry left; otherwise it is kept with one retry more |
| AuditLoggers.FlushDecides | crates/auditlog/src/lib.rs:300-350 | what a flush leaves of each event: gone exactly when its outcome is final or its retries are used up, one retry more after a retryable error, unchanged when the flush did not get to it |
| AuditLoggers.BackoffDoubles | crates/auditlog/src/lib.rs:287-296 | over any number of flushes the k-th failure in a row arms min(500 * 2^(k-1), 10000) milliseconds, and a success disarms the timer |
| AuditLoggers.QueueDrains | crates/auditlog/src/lib.rs:300-350 | whatever the outcomes, max(1, limit) whole flushes with a working store and nothing enqueued in between leave the store empty |
| AuditLoggers.Logger.AppendToStore | crates/auditlog/src/lib.rs:368-381 | the read-modify-write succeeds exactly when there is nothing to do or the store works; it leaves the merged list then and the old one otherwise |
| AuditLoggers.Logger.MarkTransactionsDone | crates/auditlog/src/lib.rs:383-402 | the filtering loop removes exactly the completed ids, under the same condition |
| AuditLoggers.Logger.Deliver | crates/auditlog/src/lib.rs:313-345 | the loop splits the snapshot for every outcome list: event by event completed exactly when delivered, refused for good or out of retries, otherwise kept with one retry more; the whole rest is kept on cancellation |
| AuditLoggers.Logger.FlushOnce | crates/auditlog/src/lib.rs:300-350 | one flush leaves the store and returns the result that the machine run gives, with every way to fail: load, transport, mark and re-append; when it succeeds, exactly the events with a final outcome or no retry left are gone |
| Receipt.ReceiptRoundTrip | crates/clientupdate/src/install.rs:354-396 | the receipt that is written parses back to the two digests, and is 223 octets long, within the limit it is read with |
| Receipt.ParsesExactly | crates/clientupdate/src/install.rs:354-379 | a receipt is accepted, with these digests, exactly when it is the four lines with their fixed texts in order, each ended by a newline or a return and a newline, the last perhaps by nothing |
| FaultyFs.FileSystem.IsRegularFile | crates/clientupdate/src/install.rs:117-119 | answers yes exactly when nothing breaks and the path is a regular file |
| FaultyFs.FileSystem.IsSymlink | crates/clientupdate/src/install.rs:121-123 | answers yes exactly when the test works and the path is a symbolic link, so for a regular file a broken test answers like a working one |
| FaultyFs.FileSystem.Store | crates/clientupdate/src/install.rs:151-168 | an operation that breaks leaves debris in its own file only and counts as a fault; one that works leaves what was asked |
| FaultyFs.FileSystem.WriteNew | crates/clientupdate/src/install.rs:151-163 | succeeds exactly when nothing breaks and no file was there, and touches one path |
| FaultyFs.FileSystem.Copy | crates/clientupdate/src/install.rs:165-168 | succeeds exactly when nothing breaks and the source is a regular file; target gets bytes and mode |
| FaultyFs.FileSystem.SetMode | crates/clientupdate/src/install.rs:185-200 | succeeds exactly when nothing breaks and the file is regular; only the mode changes |
| FaultyFs.FileSystem.Rename | crates/clientupdate/src/install.rs:202-204 | moves exactly when nothing breaks and the file exists, otherwise changes nothing |
| FaultyFs.FileSystem.ReadLimited | crates/clientupdate/src/install.rs:140-149 | returns the bytes exactly when nothing breaks and the file is regular within the limit |
| FaultyFs.FileSystem.CreatePrivateDir | crates/clientupdate/src/install.rs:125-138 | creates exactly when nothing breaks and the directory is new; a broken creation may leave it |
| FaultyFs.FileSystem.RemoveDirAll | crates/clientupdate/src/install.rs:226-232 | touches nothing outside the directory, and removes it with all its files when nothing breaks |
| Installer.Stage | crates/clientupdate/src/install.rs:533-537 | putting an original under its staging name succeeds exactly when nothing breaks, and leaves every state recoverable |
| Installer.Restore | crates/clientupdate/src/install.rs:533-544 | restoring one target succeeds exactly when nothing breaks; the target is then exactly as it was, and never a mixture in between |
| Installer.FailAfterMutation | crates/clientupdate/src/install.rs:521-568 | rollback fails exactly when it meets a fault itself; otherwise all three targets are as they were; every recorded state is recoverable |
| Installer.PrepareOne | crates/clientupdate/src/install.rs:466-479 | backs up one target and writes its replacement; succeeds exactly when nothing breaks, the target is regular and the name is free; no target changes |
| Installer.Prepare | crates/clientupdate/src/install.rs:464-491 | all backups equal their targets, all replacements and the journal lie ready, and no recorded state touches a target |
| Installer.Journal | crates/clientupdate/src/install.rs:481-491 | succeeds exactly when nothing breaks and no journal is there; only the journal is written |
| Installer.AllRegular | crates/clientupdate/src/install.rs:332-339 | the six tests in their order refuse exactly when one breaks or a target is not a regular file |
| Installer.ValidatesExactly | crates/clientupdate/src/install.rs:326-379 | an installation is intact exactly when three regular files are within 256 MiB and 1024 octets and the receipt text names the digests of the two binaries |
| Installer.ValidateReceipt | crates/clientupdate/src/install.rs:326-352 | accepts exactly when nothing breaks and the receipt vouches for the two binaries |
| Installer.ReplaceAll | crates/clientupdate/src/install.rs:493-505 | replaces a front of the targets, all of them exactly when nothing breaks; every recorded state is recoverable |
| Installer.Commit | crates/clientupdate/src/install.rs:493-519 | succeeds exactly when nothing breaks and the new files validate; a failed rollback takes a second fault when they do, and without any fault the error is the one that says all was restored |
| Installer.NewFilesValidate | crates/clientupdate/src/install.rs:326-352 | the freshly written files pass the final receipt check exactly when they are within its size limit |
| Installer.TransactionInWorkdir | crates/clientupdate/src/install.rs:440-519 | before the first replacement targets are untouched, afterwards every state is recoverable, and the result is all or nothing; without faults it succeeds exactly when targets are regular and payloads fit |
| Installer.BinLayoutExactly | crates/clientupdate/src/install.rs:408-421 | the layout that is accepted: rustscale, rustscaled and .rustscale-install-receipt-v1 in one directory called bin |
| Installer.ApplyArchiveTransaction | crates/clientupdate/src/install.rs:398-438 | for every schedule: Ok means the two binaries hold exactly the two payloads with their old modes and the receipt parses to the digests of both, any other error all old in bytes and modes, RollbackFailed the kept directory with all backups; Ok exactly when the update is installable and none of the at most 59 operations up to the end of the transaction broke; RollbackFailed takes two broken ones |
| Installer.UpdateWithoutFaults | crates/clientupdate/src/install.rs:398-438 | on a schedule that breaks nothing an update succeeds exactly when it is installable, then the binaries are the two payloads, the receipt names their digests and nothing else on the disk changes; otherwise the error is decided by what is missing |
| Installer.UpdateWithOneFault | crates/clientupdate/src/install.rs:398-568 | whatever single operation breaks, the binaries are the two payloads with a receipt of their digests, or all targets are as they were, and no rollback is left incomplete |
| Installer.RollBackFromStop | crates/clientupdate/src/install.rs:521-568 | from every recoverable state the staged rollback brings back all three originals exactly when it meets no fault, and otherwise leaves a state it can be run on again |
| Wire.BeRoundTrip | crates/controlclient/src/controlbase.rs:547-565 | big-endian fields read back modulo their width |
| Wire.LeRoundTrip | crates/controlclient/src/client.rs:1376-1400 | little-endian sizes read back modulo their width |
| MapFrames.DecodeMapFrames | crates/controlclient/src/client.rs:1376-1391 | the loop with its cursor computes the frame list of the buffer, stopping at the first incomplete frame |
| MapFrames.DecodeOversized | crates/controlclient/src/client.rs:1394-1400 | a payload too long for the size field never comes back |
| MapFrames.EncodeDecode | crates/controlclient/src/client.rs:1376-1400 | decoding concatenated encodings returns the payload list exactly when every length is below 2^32 |
| MapFrames.Fill | crates/controlclient/src/client.rs:785-848 | buffering chunks keeps the stream and stops with enough octets or at its end |
| MapFrames.StreamMap | crates/controlclient/src/client.rs:781-871 | however the stream is cut into chunks, the buffered reader does the same things in the same order |
| MapFrames.ReaderIsDecoder | crates/controlclient/src/client.rs:781-871 | what it forwards is a front of the decoded frames, and all of them exactly when every frame is within 4 MiB, parses, and finds the receiver open |
| MapFrames.EventsExactly | crates/controlclient/src/client.rs:781-871 | the whole list of events for any frames: those welcome are forwarded in order, then too large, unparsable, nothing for a closed receiver, or the end of the stream is reported as it applies |
| MapFrames.FrameOctets | crates/controlclient/src/client.rs:1394-1400 | a frame is four size octets, least significant first, and the payload |
| NoiseCrypto.HmacExactly | crates/controlclient/src/controlbase.rs:133-162 | HMAC is that of section 2 of RFC 2104 with a 64-octet block, the inner pad being the exclusive or with 0x36, bit by bit, and the outer with 0x5c |
| NoiseCrypto.ComputeHmac | crates/controlclient/src/controlbase.rs:133-162 | filling the key block and the two pads octet by octet computes it |
| NoiseCrypto.ComputeHkdf | crates/controlclient/src/controlbase.rs:165-181 | the expansion loop with a counter that wraps, as in a release build, yields the defined output at every length; up to 255 blocks that is the output of RFC 5869 |
| NoiseCrypto.ComputeHkdfChecked | crates/controlclient/src/controlbase.rs:165-181 | with overflow checks, as in a debug build, the loop finishes exactly up to 254 blocks, and then with the same output |
| NoiseCrypto.HkdfIsNoiseHkdf | crates/controlclient/src/controlbase.rs:184-205 | cutting its 64 octets in two is the two-output HKDF of section 4.3 of the Noise Protocol Framework |
| NoiseSymmetric.DigitsExactly | crates/controlclient/src/controlbase.rs:103-108 | the version is written as the one decimal text without leading zero that says it |
| NoiseSymmetric.PrologueExactly | crates/controlclient/src/controlbase.rs:103-108 | the prologue is the fixed prefix and that text |
| NoiseSymmetric.ProloguesDiffer | crates/controlclient/src/controlbase.rs:103-108 | different versions have different prologues |
| NoiseHandshake.SymmetricState.MixDh | crates/controlclient/src/controlbase.rs:240-244 | the in-place chaining key update returns the key of MixKey over the shared secret |
| NoiseHandshake.ComputeInitiation | crates/controlclient/src/controlbase.rs:290-329 | the step-by-step client builds the 101-octet initiation of the value-level handshake |
| NoiseHandshake.ComputeServerHandshake | crates/controlclient/src/controlbase.rs:430-522 | the step-by-step server gives the reply and session, or the same error, on every message, well formed or not |
| NoiseHandshake.ComputeResponse | crates/controlclient/src/controlbase.rs:492-521 | the step-by-step response is that of the value-level handshake |
| NoiseHandshake.ComputeFinish | crates/controlclient/src/controlbase.rs:380-423 | the step-by-step client finish gives the session or the same error on every response long enough for the slices it takes |
| NoiseHandshake.ServerOpensInitiation | crates/controlclient/src/controlbase.rs:430-486 | the server learns exactly the client's machine key and is in the client's symmetric state |
| NoiseHandshake.ClientFinishesResponse | crates/controlclient/src/controlbase.rs:380-423 | from a shared symmetric state the response leads both ends to the same hash and crossed keys |
| NoiseHandshake.HandshakeAgreement | crates/controlclient/src/controlbase.rs:290-522 | for all keys, ephemerals and versions the handshake succeeds with equal hashes, client tx equal to server rx and back, and each end knowing exactly the other's public key |
| NoiseHandshake.InitiationOctets | crates/controlclient/src/controlbase.rs:290-329 | the initiation header: version, type 1, length 96, most significant octets first |
| NoiseHandshake.ResponseOctets | crates/controlclient/src/controlbase.rs:492-521 | the response: type 2, length 48, the ephemeral key and a tag, 51 octets |
| NoiseHandshake.ErrorOctets | crates/controlclient/src/controlbase.rs:524-536 | an error message: type 3, its length, its text; a text too long for the length is cut |
| NoiseHandshake.RefusalReachesClient | crates/controlclient/src/controlbase.rs:380-460 | a misframed initiation is refused with the reason for its size, type or length, and the client reads that reason; one framed rightly never is, and one that does not open is not answered |
| NoiseHandshake.FinishRefuses | crates/controlclient/src/controlbase.rs:380-400 | which replies the client refuses as no handshake message, and what it reports of an error message, whole or truncated |
| NoisePattern.StartsAlike | crates/controlclient/src/controlbase.rs:225-233 | both ends start in the state the framework prescribes for the protocol name, the prologue and the static key known beforehand |
| NoisePattern.InitiationIsIk | crates/controlclient/src/controlbase.rs:290-329 | after its header the initiation is the first message an interpreter of the IK token lists writes, from its own start, with the same transcript and chaining key |
| NoisePattern.OpensAsIk | crates/controlclient/src/controlbase.rs:461-490 | the server opens every initiation, genuine or not, exactly as that interpreter reads the first message, and learns the same key |
| NoisePattern.ResponseIsIk | crates/controlclient/src/controlbase.rs:492-521 | after its header the response is the second IK message, written by a responder in any state, with the keys and hash of the interpreter |
| NoisePattern.ServerIsIk | crates/controlclient/src/controlbase.rs:430-522 | on every initiation with a proper header the whole server side is reading the first IK message and writing the second |
| NoisePattern.FinishIsIk | crates/controlclient/src/controlbase.rs:380-423 | on every response with a proper header the client finishes exactly as the interpreter, having written the first message, reads the second |
| NoiseRecords.NonceInjective | crates/controlclient/src/controlbase.rs:540-565 | different counters give different nonces |
| NoiseRecords.NonceOctet | crates/controlclient/src/controlbase.rs:540-565 | the nonce is four zeros and the counter, most significant octet first |
| NoiseRecords.CipherState.NoncesDistinct | crates/controlclient/src/controlbase.rs:540-618 | over every sequence of calls on one cipher the nonces it has sealed or opened under are pairwise different |
| NoiseRecords.CipherState.constructor | crates/controlclient/src/controlbase.rs:574-579 | the counter starts at zero |
| NoiseRecords.CipherState.Increment | crates/controlclient/src/controlbase.rs:556-565 | the octets of the nonce count up by one |
| NoiseRecords.CipherState.Encrypt | crates/controlclient/src/controlbase.rs:581-598 | seals under the current counter, spends that nonce and advances, and refuses exactly at the last value |
| NoiseRecords.CipherState.Decrypt | crates/controlclient/src/controlbase.rs:600-617 | opens under the current counter and advances it only on success |
| NoiseRecords.FramesFit | crates/controlclient/src/controlbase.rs:650-666 | every frame is at most 4096 octets |
| NoiseRecords.FrameOctets | crates/controlclient/src/controlbase.rs:650-666 | a record is type 4, the length of the ciphertext, the ciphertext |
| NoiseRecords.ChunksFull | crates/controlclient/src/controlbase.rs:650-666 | every chunk but the last has 4077 octets |
| NoiseRecords.ReadsExactly | crates/controlclient/src/controlbase.rs:669-685 | which record is read off a stream, and which error is reported when none is |
| NoiseRecords.WriteRecord | crates/controlclient/src/controlbase.rs:650-666 | writes the frames of the chunks under consecutive counters, and succeeds exactly when enough counters are left |
| NoiseRecords.ReadPump | crates/controlclient/src/controlbase.rs:827-883 | read, check, decrypt and pass on, until anything is wrong, is the pump on values |
| NoiseRecords.PumpsFrames | crates/controlclient/src/controlbase.rs:669-685 | the pump undoes framing and sealing of any chunk list, counters in lock step |
| NoiseRecords.PumpsUntil | crates/controlclient/src/controlbase.rs:827-883 | on frames followed by anything that is no record at its place the pump passes on exactly their chunks and stops |
| NoiseRecords.WriteAll | crates/controlclient/src/controlbase.rs:650-666 | any number of writes leave on the stream the frames of all chunks the counters suffice for, succeeding exactly when that is all of them |
| NoiseRecords.StreamFidelity | crates/controlclient/src/controlbase.rs:650-685 | reading the frames of any chunks of any writes within the limit yields those chunks, and both counters end equal; all chunks together are the plaintext |
| NoiseRecords.Transfer | crates/controlclient/src/controlbase.rs:650-685 | sender and receiver together: what gets out before the counters run out is what is read, everything exactly within the nonce limit |
| NoiseSession.Converse | crates/controlclient/src/controlbase.rs:290-685 | handshake and records joined: for all keys, ephemerals and versions, what each end writes afterwards the other end reads |
| Tar.OctalRoundTrip | crates/clientupdate/src/archive.rs:212-229 | a written numeric field reads back as its value |
| Tar.ParsesOctalExactly | crates/clientupdate/src/archive.rs:212-229 | a numeric field is read, as this value, exactly when it is octal digits, or none, between NULs and spaces |
| Tar.OctalIsPositional | crates/clientupdate/src/archive.rs:212-229 | digits in front count eight times for each digit behind them |
| Tar.HeaderSumExactly | crates/clientupdate/src/archive.rs:231-245 | the checksum counts every octet, its own eight as spaces |
| Tar.ParsesNameExactly | crates/clientupdate/src/archive.rs:200-210 | a name field is read, as this name, exactly when it is the name, in UTF-8, and NULs |
| Tar.ReadsHeaderExactly | crates/clientupdate/src/archive.rs:75-88 | a header is read exactly when its checksum field says its sum, the magic is one of two, the prefix is empty, and name, size and kind stand in their places |
| Tar.TopLevelExactly | crates/clientupdate/src/archive.rs:190-198 | a name is top-level, as `top`, exactly when `top` is no path, not empty, neither of the dots, and the name is it or it behind "./" |
| Tar.PermittedExactly | crates/clientupdate/src/archive.rs:97-197 | the path rules together permit exactly the root directory and printable top-level names; a parent component cannot occur in one |
| Tar.SumFits | crates/clientupdate/src/archive.rs:231-245 | a header block sums to at most 130560, which fits seven octal digits |
| Tar.HeaderRoundTrip | crates/clientupdate/src/archive.rs:259-291 | a written header passes the checksum and magic checks and reads back as its name, size and kind |
| Tar.ParseTar | crates/clientupdate/src/archive.rs:46-143 | the loop with its offset, counters and two slots computes the verdict on every octet string |
| Tar.ParseIsJudge | crates/clientupdate/src/archive.rs:46-143 | reading a written archive gives exactly the verdict the rules give on the entries themselves |
| Tar.JudgeAccepts | crates/clientupdate/src/archive.rs:46-166 | the rules accept exactly the lists of permitted entries within the limits that fill each slot once and not emptily; entries named rustscale and rustscaled, perhaps behind "./", fill the slots |
| Tar.ArchiveRoundTrip | crates/clientupdate/src/archive.rs:46-291 | writing entries and parsing returns two given payloads exactly when all entries are the root directory or printable top-level files, within the limits, and those are the only bodies under rustscale and rustscaled, perhaps behind "./" |
| Tar.AcceptsExactly | crates/clientupdate/src/archive.rs:46-166 | every octet string, whoever wrote it, yields two payloads exactly when it is laid out, octet by octet, as headers and bodies of such entries, a terminator and zeros that hold just these payloads |
| Tar.TilingUnique | crates/clientupdate/src/archive.rs:46-143 | an octet string can be laid out as entries in one way only |
| Dns.ParseName | crates/appc/src/observe.rs:191-231 | the loop with jump flag and hop count ends on every buffer, reads the name the reference gives, and returns an offset past its start |
| Dns.CompressedNameReads | crates/appc/src/observe.rs:191-231 | labels followed by pointers read as the labels of all pieces, reading going on after the first piece, exactly up to 64 pointers; longer chains are refused |
| Dns.NameReadsExactly | crates/appc/src/observe.rs:191-231 | which octets are read as which name, both ways: pieces of labels of 1 to 191 octets of UTF-8, at most 64 pointers from one to the next, a zero at the end |
| Dns.NameFrom | crates/appc/src/observe.rs:191-231 | reading labels and following pointers, within 64 hops, always yields an offset past the start and within the buffer |
| Dns.ParseDnsResponse | crates/appc/src/observe.rs:86-189 | skipping questions and taking answers in one pass gives the reference result on every buffer |
| Dns.LabelsReadBack | crates/appc/src/observe.rs:318-329 | labels of 1 to 191 octets of UTF-8 written anywhere in a message read back as they were |
| Dns.NameReadsBack | crates/appc/src/observe.rs:318-329 | a written name reads back without its trailing dots, and reading ends just after it |
| Dns.SplitExactly | crates/appc/src/observe.rs:318-329 | the labels of a name are the one list of dotless labels that joins to it |
| Dns.TrimDotsExactly | crates/appc/src/observe.rs:146-157 | trimming takes off all the dots at the end and nothing else |
| Dns.RecordReadsBack | crates/appc/src/observe.rs:289-316 | one encoded record is taken in as what it means, at any place in the answer section, and reading goes on behind it exactly when its data fits the 16-bit length |
| Dns.RecordsReadBack | crates/appc/src/observe.rs:289-316 | reading n answers off any longer list takes in what the first n records mean |
| Dns.BuildParse | crates/appc/src/observe.rs:86-334 | parsing the output for any list of records returns exactly the CNAME and address maps its first records mean, as many as the 16-bit count says, when of those all but the last have data that fits |
| Dns.BuildParseAll | crates/appc/src/observe.rs:86-334 | up to 65535 records these are all of them |
| Dns.CountOverflow | crates/appc/src/observe.rs:331-334 | a multiple of 65536 records parses to nothing, whatever they mean |
| Dns.OversizedTargetMisread | crates/appc/src/observe.rs:289-301 | a target encoded in a multiple of 65536 octets makes the address after it disappear |
| Dns.OversizedTargetUnnoticed | crates/appc/src/observe.rs:289-301 | and yet the round trip holds when the record after it means nothing, so the fit of all data is sufficient and not necessary |
| Dns.OversizedTargetExists | crates/appc/src/observe.rs:318-329 | there are such targets, of labels of 62 and 63 octets |
| Dns.DnsBuilder.constructor | crates/appc/src/observe.rs:276-287 | a new builder has no records |
| Dns.DnsBuilder.Add | crates/appc/src/observe.rs:289-316 | appending to the buffer field by field adds one record, the 16-bit count wrapping |
| Dns.DnsBuilder.Finish | crates/appc/src/observe.rs:331-334 | patching the answer count gives the message of the records added |
| DnsMessages.QuestionsSkipped | crates/appc/src/observe.rs:96-107 | any questions are skipped: a name, a type and a class each |
| DnsMessages.AnswersRead | crates/appc/src/observe.rs:112-183 | any run of answers is taken in as what its records mean, those of other classes, types and sizes meaning nothing, and reading goes on behind it |
| DnsMessages.MessageParses | crates/appc/src/observe.rs:86-189 | a whole message, with any identifier, flags, questions, answers and further sections, answer names written out or pointing at the first question, parses to what its records mean |
| DnsMessages.MessageCutOff | crates/appc/src/observe.rs:112-139 | cut off between two answers a message parses to what came before; cut off inside one it does not parse |
| DnsMessages.QuestionsCutOff | crates/appc/src/observe.rs:98-107 | cut off among its questions a message does not parse |
| DnsMessages.MeaningExactly | crates/appc/src/observe.rs:141-181 | under every name but the root a parsed response has exactly the addresses recorded under it, in order, and a target stands for the name of the last record that aliases to it |
| DnsMessages.BuilderWrites | crates/appc/src/observe.rs:289-316 | what the builder writes for a record is an answer in that layout, with its name written out |
| DnsMessages.BuilderHeader | crates/appc/src/observe.rs:276-287 | the twelve header octets of a built message |
| Utf8.ValidExactly | crates/clientupdate/src/archive.rs:208-209 | text accepted as UTF-8 is exactly the encodings of sequences of Unicode scalar values |
| Wire.BeOctet | crates/controlclient/src/controlbase.rs:556-565 | octet by octet, big-endian puts the most significant first |
| Wire.LeOctet | crates/controlclient/src/client.rs:1394-1400 | and little-endian the least significant |

## Left out

- Text parsing and printing of addresses and prefixes, iteration order, `Clone` and `snapshot` of the route table: the exact-prefix map is a Dafny map, and these would only add easy members.
- The generic `lookup`, `is_empty` and `Default` wrappers of the route table.
- The insides of BLAKE2s, ChaCha20-Poly1305 and X25519: any functions with the lengths, the commuting exchange and the opening law of `NoiseCrypto.Lawful`, which `NoiseCrypto.LawfulExists` shows can be met together. Nothing is claimed about secrecy or attackers.
- The asynchronous record methods repeat the synchronous ones; task scheduling, the byte-channel between pump and reader, HTTP/2, TLS, dialing, early payload and time-outs in `controlclient` are left out. Random ephemerals are parameters.
- Error texts and which part of a message an error names, except for the reasons a server sends and the client reads; the client turns their octets into text, replacing what is not UTF-8.
- The commands that report binary versions: their verdict is one more operation the fault schedule decides. The contents of the journal and the marker file are not modelled, only their presence and that writing them disturbs nothing else.
- Other processes that write the three targets, and failures of the machine inside a single operation: a stop is a stop between the recorded states.
- `FaultyFs.FileSystem.RemoveDirAll`: does not model which files a broken removal leaves behind beyond that they lie in the directory.
- Windows and Homebrew installation methods, `detect_install_method`, the unique token (a parameter), gzip, URL policy and release selection.
- Concurrent callers of `flush_and_stop`, starting the logger while a final flush is under way and the reverse, profile changes, crashes of the process, and the JSON form of the stored list. Event ids are assumed fresh when enqueued, as their random part makes them.
- `AuditMachine.AttemptsBounded`: does not bound sends after a failed mark, a failed re-append or a final flush cut off by its time-out, because `AuditLoggers.SendsUnbounded` shows there is no bound after any of the three.
- `AuditLoggers.Logger.FlushOnce`: is one flush with the store to itself; enqueuers in between are steps of `AuditMachine`.
- The 64-bit overflow checks of the tar reader's sums: integers are unbounded here and the limits are reached first.
- `Dns.BuildParse`: goes one way about data that does not fit, because what is read out of place depends on the octets found there and can come out right by chance; `Dns.OversizedTargetMisread` and `Dns.OversizedTargetUnnoticed` show both. The builder is that of a build without overflow checks; with them it stops at the 65536th record.
- `DnsMessages.MessageParses`: does not cover answers whose names or targets point elsewhere than at offset 12; those are read as `Dns.NameReadsExactly` says, name by name.
- Unicode lower-casing in the DNS reader is a function parameter; the reader is otherwise octet for octet.
- The app connector around the DNS reader, C2N, metrics, the command line, bindings and tools.
