# A verified model of a small Redis server

The server keeps strings, lists, streams and sorted sets in memory, speaks RESP over its connections, logs
writes to an append-only file, copies them to replicas, and can load an RDB snapshot. This project models the
parts of it that hold state together and proves what they keep. Every file is one module; `dafny verify
dfyconfig.toml` checks all of them.

**The skip list** (`SkipListOrder`, `SkipChain`, `SkipList`, `CellWindows`, `SortedSets`). Heap nodes with
`forward` and `span` arrays, a member table and a length stand for one strictly sorted sequence of (score,
member). On each of the 32 levels `forward` is the next node tall enough and `span` the distance to it; the span
of a level's last node means nothing. Insertion and removal are proved level by level: each round of their loops
turns its level of the old chain into the same level of the new one and leaves all others. Rank and positional
lookup, the first node from a score on and the walk of a radius search are proved against the sequence. A height is
a parameter, since the server draws it at random.

**Blocking lists and streams** (`ListHandoff`, `BlockingLists`, `ListStates`, `ListStore`, `StreamIds`, `Streams`,
`StreamRuns`, `BlockedReads`, `StreamTracks`, `WaiterLine`). The store's methods are classes and methods; their interleavings are state
machines whose steps are the locked regions, the channel receives, the timers and the final drains. Every method of
the list store takes a step of `ListStates`, and each such step is, seen from any one key, a step of `BlockingLists`;
the locked regions of XADD and XREAD are steps of `BlockedReads`. Stream IDs are printed, read back and compared as the server does it, with 64-bit numbers.

**RESP, the input loop and the log** (`Bytes`, `Decimal`, `Resp`, `RespRoundTrip`, `RespGrammar`, `InputLoop`, `Database`,
`AppendLog`, `Restarts`). The formatter against the parser, with the exact error for every cut, and both against a
grammar of the bytes on the wire; the buffering loop over arbitrary chunks; replay of the log against live execution, at the first restart and at every later one.

**Transactions** (`Transactions`, `ExecRuns`, `Sessions`). Versions recorded by WATCH against writes since, modulo 2^64,
and the command queue over whole runs of WATCH, MULTI, queued and foreign writes, EXEC, DISCARD and UNWATCH.

**Replication** (`Replication`, `ReplicaCounts`, `MasterNode`). Bytes sent, consumed and acknowledged, in every
interleaving, and from which states WAIT can count a replica.

**Geo codes** (`BitNumbers`, `GeoBits`, `GeoCodes`, `GeoCells`, `GeoNeighbours`, `GeoSearch`). The bit operations on machine words, the numbers
the words stand for, positions over exact reals, and the cells of a radius search, with the rows and columns in which they lie. A shift by a variable amount is
so many shifts by one, as Go defines it.

**Snapshots** (`Rdb`, `RdbRoundTrip`, `RdbCuts`). The decoder against an encoder for the "Length Encoding" and "String
Encoding" sections of the Redis RDB file format: 6, 14 and 32-bit lengths, and integers of 8, 16 and 32 bits.

## Where the code does not do what it is for

Each of these is proved, with the condition under which the code is right and an input at which it is not.

- Adding a member again changes its score where it stands. The list stays sorted if and only if the new score stays
  between the neighbours (`SkipList.SkipList.InsertElement`, `SkipListOrder.RescoredSorted`,
  `SortedSets.RescoringUnsorts`). In a list that is out of order a removal takes the node out if and only if the search
  stops right in front of it (`SkipList.SkipList.RemoveElementByName`); otherwise the member leaves the table and its node
  stays linked (`SortedSets.RemovedMemberStaysLinked`). A member with all keys in front of it smaller and none behind it is
  found at any heights (`SkipList.SkipList.InPlaceIsFound`); with another key in front of it, it is missed in a list of one
  level (`SkipList.SkipList.FlatInFrontIff`), and with a smaller key behind it, when that one's node is the taller
  (`SkipList.SkipList.TallNodeSkips`).
- A removal never visits the top level. It is right if and only if no node of full height stands at the member or
  behind it (`SkipList.SkipList.RemoveElementByName`); otherwise a removed node stays linked
  (`SortedSets.TallNodeStaysLinked`).
- ZREM never stores the shorter length, so ZCARD is right if and only if no removal has found its member
  (`SortedSets.CountAfterRun`). Positional lookup refuses the last index. Together they decide when a range is right,
  for every length and all indices (`SortedSets.RangeRightIff`), with short forms for ranges from the front and from the
  end (`SortedSets.StaleRangeExactIff`, `SortedSets.StaleEndIff`, `SortedSets.StaleToEndIff`,
  `SortedSets.StaleSuffixIff`); after any removal that leaves two members, -1..-1 shows nothing and 0..-2 one member too
  many (`SortedSets.StaleEndsMissed`), and an emptied set shows the nameless head (`SortedSets.EmptiedSetShowsHead`).
- A push of several values serves one waiter only (`ListHandoff.PushKeepsApartIff`,
  `BlockingLists.SecondWaiterOverlooked`), and a right push hands over its value ahead of what the list still holds
  (`ListHandoff.HandoffIsPushThenPop`).
- A sequence number wraps at 64 bits (`StreamIds.AcceptedIsAbove`, `StreamRuns.RunWellFormed`, `StreamRuns.WrapReached`);
  XRANGE with a reversed range panics if and only if an entry lies between the bounds (`Streams.StreamStore.XRange`,
  `Streams.ReversedRangePanics`); a read from beyond the end of a stream can be woken to nothing
  (`BlockedReads.WakeupDeliversIffNotBeyond`, `BlockedReads.WokenForNothingRun`).
- The input loop reads on for two of the errors of an incomplete command, so a cut elsewhere in a command ends the
  connection (`InputLoop.ChunkingDoesNotMatter`, `InputLoop.CutAfterFirstByteStops`). Input that does not start with a
  star is one of the two, so it is never answered, whatever follows (`RespGrammar.NoStarReadsOn`).
- Replay logs what it replays, so the file doubles at every restart (`AppendLog.RestartRebuilds`) and restart `n + 1` runs
  the requests `2 ^ n` times over (`AppendLog.RestartsRunDoubled`). All restarts but the first survive if and only if the
  server was alive and no request pops a negative count from a list of the live database
  (`Restarts.LaterRestartsSurviveIff`); popping one from a list that is pushed only later ends the server for good
  (`Restarts.NegativePopEndsRestarts`). Beyond that, they give back a string if and only if the run sets it or never counts
  it up (but for a multiple of 2^64 times), a stream if and only if no request would be taken again, and a list if and
  only if the run's pops asked in vain for at least as many elements as it holds (`Restarts.SecondRestartIff`,
  `Restarts.EveryRestartIff`, `AppendLog.CounterGrowsByRestarting`, `Restarts.ListGrowsByRestarting`).
- A successful EXEC leaves its queue and its watched keys behind. EXEC runs the transaction that the client queued if and
  only if no non-empty EXEC has succeeded since the queue was last cleared (`ExecRuns.QueueIsTransactionIff`,
  `ExecRuns.ExecRunsTransactionIff`); the next one is aborted if and only if the queue writes a watched key
  (`ExecRuns.NextExecIff`, `Sessions.OwnWriteAbortsNextTransaction`), and otherwise runs the queue again
  (`Sessions.Session.EmptyTransactionRepeatsQueue`). A queued MULTI stops the queue: all of its writes run if and only if
  none stands behind one (`ExecRuns.WholeQueueRunsIff`, `Sessions.NestedMultiStopsQueue`).
- WATCH stops recording at the first missing key (`Transactions.WatchExactIffNoneAfterMissing`).
- Replicas count the acknowledgement requests and the master does not, and a late replica counts from its join. The next
  WAIT, whenever it starts and however long it lasts, cannot count a replica that lacks writes up to its target if and
  only if 37 bytes for each request but the last do not reach over the bytes before the replica's join, the writes since
  that request and, if nothing follows the last request on its way, the 14 bytes of the shortest write
  (`ReplicaCounts.NextWaitSafeIff`, `ReplicaCounts.CountedLackingIff`, `Replication.ShortWriteCountedInFlight`). The first
  WAIT is always safe (`ReplicaCounts.SafeUpToFirstRequest`), and never counts a replica that joined after the first write
  (`ReplicaCounts.LateJoinerNotCounted`).
- The cells of a radius search take their columns from the row of the centre: three columns for each row, whatever the
  longitude (`GeoNeighbours.NeighbourColumn`, `GeoNeighbours.VisitedIff`). The centre's own cell is among them if and only
  if its column is one of the three (`GeoNeighbours.OwnCellIff`); on the equator at 90 degrees east it is not, for any
  step from 3 on (`GeoNeighbours.OwnCellMissed`).
- A position on the northern or eastern edge comes back off the map (`GeoCodes.DecodedOnMap`).
- A snapshot that is cut short loads without an error at every record boundary; within a record, slices are completed with
  spare bytes of the read buffer, and the load panics or, in the last field of a record, ends with them
  (`RdbCuts.CutFile`, `RdbRoundTrip.CutString`).

## Model

| member | source | states |
|---|---|---|
| Bytes.LessIrreflexive | internal/store/skiplist.go:74-76 | no member string is below itself, so a key is never before itself |
| Bytes.LessTransitive | internal/store/skiplist.go:74-76 | Go's string order is transitive |
| Bytes.LessTotal | internal/store/skiplist.go:74-76 | any two member strings are equal or ordered one way |
| Bytes.LessIff | internal/store/skiplist.go:74-76 | a string is below another exactly if they agree on some first bytes and there it ends or has the smaller byte |
| SkipListOrder.BeforeTransitive | internal/store/skiplist.go:74-76 | the element order (score, then member) is transitive |
| SkipListOrder.BeforeTotal | internal/store/skiplist.go:74-76 | the element order is total |
| SkipListOrder.BeforeIff | internal/store/skiplist.go:74-76 | lower scores come first, and among equal scores the member with the smaller first differing byte, or that ends first |
| SkipListOrder.PositionSplits | internal/store/skiplist.go:96-107 | what a top-down search stops behind: in a sorted sequence, the keys before a key are exactly a prefix |
| SkipListOrder.SortedUnique | internal/store/skiplist.go:74-76 | a sorted sequence is determined by its set of elements: the skip list has one possible content |
| SkipListOrder.SortedInsert | internal/store/skiplist.go:78-126 | putting an absent key at its position keeps the sequence sorted |
| SkipListOrder.RescoredSorted | internal/store/skiplist.go:81-84 | overwriting a score in place leaves the sequence sorted if and only if the new score stays between the neighbours |
| SkipListOrder.SortedInPlace | internal/store/skiplist.go:51-59 | in a sorted sequence the keys before a member's are exactly those in front of it |
| SkipListOrder.RemoveMemberAt | internal/store/skiplist.go:45-72 | removing a member by name takes out exactly its one element |
| SkipListOrder.SortedRemove | internal/store/skiplist.go:45-72 | a removal keeps the sequence sorted |
| SkipChain.NextInserted | internal/store/skiplist.go:109-122 | how every node's successor on every level moves when a node is spliced in |
| SkipChain.LinksInserted | internal/store/skiplist.go:109-122 | the pointer and span patches of the second loop turn a right level of the old list into a right level of the new one, whatever the tail span held |
| SkipChain.LevelInserted | internal/store/skiplist.go:109-122 | ... stated on the nodes themselves: when the patched fields hold these values and the others are as they were, the level is right for the new chain |
| SkipChain.NextDeleted | internal/store/skiplist.go:61-68 | how every node's successor on every level moves when a node is taken out |
| SkipChain.LinksDeleted | internal/store/skiplist.go:61-68 | the patches of the removal loop turn a right level of the old list into a right level of the new one |
| SkipChain.LevelDeleted | internal/store/skiplist.go:61-68 | ... stated on the nodes themselves |
| SkipChain.LinkBridged | internal/store/skiplist.go:62-67 | the test for bridging is true exactly on the levels of the removed node, and both branches write the right link |
| SkipChain.LevelLeftAlone | internal/store/skiplist.go:61 | a level the loop never visits stays right if and only if no node from the removed one on reaches it |
| SkipChain.FramedInsert | internal/store/skiplist.go:124 | after an insertion the member table is exactly the nodes, each under its own name |
| SkipChain.FramedDelete | internal/store/skiplist.go:71 | after a removal the member table is exactly the remaining nodes |
| SkipList.SkipList.constructor | internal/store/skiplist.go:27-30 | a new list satisfies the whole invariant and is empty |
| SkipList.SkipList.FindElementRank | internal/store/skiplist.go:128-145 | the spans summed on the way give the member's index in the sorted sequence; an absent member gives 0 |
| SkipList.SkipList.GetElement | internal/store/skiplist.go:147-163 | the r-th element for 0 <= r <= length - 2, the head for -1, nothing from the last index on |
| SkipList.SkipList.RankOfElementAt | internal/store/skiplist.go:128-163 | rank after positional lookup is the identity wherever the positional bound allows |
| SkipList.SkipList.ElementAtRankOf | internal/store/skiplist.go:128-163 | positional lookup of a member's rank finds that member, except exactly the last one |
| SkipList.SkipList.MembersFrom | internal/store/store.go:200-208 | the range loop returns the members of the following nodes, up to a count |
| SkipList.SkipList.FirstGE | internal/store/skiplist.go:165-173 | the first node scoring at least the given score, or none |
| SkipList.SkipList.WalkWindow | internal/store/skiplist.go:197-204 | one window's walk returns, in order, exactly the members scoring inside it that pass the distance filter |
| SkipList.SkipList.WalkCells | internal/store/skiplist.go:193-206 | the walk over all cells returns the windows' members cell after cell |
| SkipList.SkipList.Locate | internal/store/skiplist.go:92-107 | in any list whose levels are right, sorted or not, the search fills each level's last node that it passes and that node's distance from the head, and stops between a smaller key and one that is not smaller |
| SkipList.SkipList.StopsAtPosition | internal/store/skiplist.go:92-107 | in a sorted list the place where the search stops is the number of smaller keys |
| SkipList.SkipList.InsertElement | internal/store/skiplist.go:78-126 | an absent member at any height: the levels stay right and exactly that pair enters, in a sorted list at its sorted place and in an unsorted one behind a smaller key and before one that is not; a present member: only its score changes, and a sorted list stays sorted if and only if the neighbours allow it |
| SkipList.SkipList.Rescore | internal/store/skiplist.go:81-84 | the overwriting branch changes one score and no level, and unsorts a sorted list exactly when the new score passes a neighbour |
| SkipList.SkipList.Add | internal/store/skiplist.go:86-124 | linking a new node in on all its levels keeps them right, sorted list or not |
| SkipList.SkipList.SearchAndSplice | internal/store/skiplist.go:90-122 | search and splice together turn all levels of the old chain into those of the new one |
| SkipList.SkipList.Splice | internal/store/skiplist.go:109-122 | the second loop makes every level right for the new chain |
| SkipList.SkipList.SpliceLevel | internal/store/skiplist.go:110-121 | one round makes its level right for the new chain and leaves all others |
| SkipList.SkipList.InsertOnLevel | internal/store/skiplist.go:110-121 | the fields one round writes, and that it writes no others |
| SkipList.SkipList.RemoveElementByName | internal/store/skiplist.go:45-72 | in every list with right levels, sorted or not: if the search stops right in front of the member, as it does in a sorted list, exactly its element goes, and all levels are right afterwards if and only if no node of full height stood at its place or behind it; otherwise the member leaves the table, and the bottom level keeps every node |
| SkipList.SkipList.NoTopLevel | internal/store/skiplist.go:32-38 | with no node of full height, a removal always keeps the invariant |
| SkipList.SkipList.UnlinkBelowTop | internal/store/skiplist.go:51-68 | search and loop of a removal make every level but the top one right if the search stops in front of the node, and leave the bottom level as it is otherwise |
| SkipList.SkipList.SearchStopsAt | internal/store/skiplist.go:51-59 | the search of a removal stops behind a smaller key and in front of one that is not smaller |
| SkipList.SkipList.InPlaceIsFound | internal/store/skiplist.go:51-59 | at any heights the search stops right in front of a member that has all smaller keys in front of it and no other |
| SkipList.SkipList.FlatInFrontIff | internal/store/skiplist.go:51-59 | with nodes of one level only, the search stops in front of a member if and only if all keys in front of it are smaller |
| SkipList.SkipList.TallNodeSkips | internal/store/skiplist.go:51-59 | with a smaller key behind it, on a node taller than all in front of that one, a member is skipped |
| SkipList.SkipList.Unsplice | internal/store/skiplist.go:61-68 | the removal loop makes the levels it visits right, and says when the top one is, if the search stopped in front of the node; otherwise it changes no bottom link |
| SkipList.SkipList.UnspliceLevel | internal/store/skiplist.go:62-67 | one round makes its level right for the shorter chain if the search stopped in front of the node, and leaves all other levels |
| SkipList.SkipList.PatchLevel | internal/store/skiplist.go:62-67 | one round changes no other level of the chain |
| SkipList.SkipList.RemoveOnLevel | internal/store/skiplist.go:62-67 | the fields one round writes, and that it writes no others |
| SkipList.SkipList.KeysDistinct | internal/store/skiplist.go:81 | no two elements share a member |
| CellWindows.BelowSplits | internal/store/skiplist.go:165-173 | scores below a bound form a prefix of the sorted sequence |
| CellWindows.CellBounds | internal/store/skiplist.go:194-196 | a code without its low bits is a cell if and only if it lies between the cell's start and the next one's |
| CellWindows.CellIsWindow | internal/store/skiplist.go:194-199 | a member's score is in a cell's window exactly if its code belongs to the cell |
| CellWindows.WindowCount | internal/store/skiplist.go:197-204 | a window's walk meets each member once or not at all, and exactly the right ones |
| CellWindows.CellsVisitOnce | internal/store/skiplist.go:193-206 | over any distinct cells each member is met exactly once if its cell is among them and it passes the filter, otherwise never |
| CellWindows.CellsVisitMembersOnly | internal/store/skiplist.go:193-206 | nothing but members is returned |
| SortedSets.StoredSet.constructor | internal/store/store.go:217-219 | the set that a first ZADD starts from |
| SortedSets.StoredSet.ZCard | internal/store/store.go:144-152 | ZCARD is the stored length, which is never below the number of members |
| SortedSets.StoredSet.ZScore | internal/store/store.go:154-168 | found exactly for members, with the member's score, in order or not |
| SortedSets.StoredSet.ZRank | internal/store/store.go:228-242 | found exactly for members, with the index in the sorted sequence |
| SortedSets.StoredSet.ZAdd | internal/store/store.go:211-226 | a new member at any height enters, at its sorted place if the set was in order, and the length grows; an old one keeps its place, and a set in order stays so if and only if the new score keeps between the neighbours; all levels stay right |
| SortedSets.StoredSet.ZRem | internal/store/store.go:129-142 | the stored length does not change; exactly the member goes from the shared nodes if the search stops in front of it, as it does in a set that is in order, and otherwise only its table entry; the set stays valid if and only if no node of full height stood at the member or behind it |
| SortedSets.StoredSet.ZRange | internal/store/store.go:170-209 | for every stored length, stale or not, exactly what is shown; the elements, their order and the table are left alone |
| SortedSets.StoredSet.Run | internal/store/store.go:129-226 | after any run of ZADDs, re-adding included as long as the neighbours allow it, and of ZREMs, the set holds exactly the map such a run leaves, sorted, and its length has grown too large by the number of removals that found their member |
| SortedSets.CountAfterRun | internal/store/store.go:129-152 | ZCARD after a run from an empty set is the number of members if and only if no removal found its member, and too large by exactly those removals |
| SortedSets.RepresentsCount | internal/store/store.go:144-152 | a sequence that stands for a map has as many elements as the map |
| SortedSets.RepresentsInsert | internal/store/store.go:211-226 | a sorted insertion is a map insertion |
| SortedSets.RepresentsRemove | internal/store/store.go:129-142 | a removal by name is a map removal |
| SortedSets.RepresentsRescored | internal/store/skiplist.go:81-84 | a score overwritten in place is a map update |
| SortedSets.StepRepresents | internal/store/store.go:129-226 | every ZADD and ZREM acts on the sequence as on the map |
| SortedSets.RangeExactUnlessAtLast | internal/store/store.go:170-209 | with a right length ZRANGE keeps its promise if and only if it need not start at the last element |
| SortedSets.StaleRangeExactIff | internal/store/store.go:186-207 | after removals, a range of two indices from the front is right if and only if it does not lie wholly behind the elements and before the stale length's last index |
| SortedSets.RangeRightIff | internal/store/store.go:170-209 | for every stored length from the number of members up and all integer indices, the shown range is the promised one if and only if the slice bounds agree or both are empty, and an empty set is asked for nothing it would show its head for |
| SortedSets.StaleEndIff | internal/store/store.go:178-208 | after removals, a range from an index of an element to the b-th from the end is right if and only if b is 1, or there is one element, or the bounds cross in the stale length too |
| SortedSets.StaleToEndIff | internal/store/store.go:178-208 | after removals, a range from an index to the end is right if and only if it starts at an element or not before the stale length's last index |
| SortedSets.StaleSuffixIff | internal/store/store.go:178-208 | after removals, the last a elements are shown if and only if a reaches the stale length, or there is one element and a is above 1 |
| SortedSets.StaleEndsMissed | internal/store/store.go:178-208 | after any removal that leaves two members, -1..-1 shows nothing in place of the last member and 0..-2 shows one member too many |
| SortedSets.RangeOfOneMissed | internal/store/store.go:199-202 | a one-element set asked from 0 to -1 should give that element and gives nothing |
| SortedSets.EmptiedSetShowsHead | internal/store/store.go:129-142 | two members added and removed, and the full range shows one nameless element, the head |
| SortedSets.TallNodeStaysLinked | internal/store/skiplist.go:61 | a removed node of full height stays linked on the top level |
| SortedSets.RescoringUnsorts | internal/store/skiplist.go:81-84 | two members, and the lower one given the higher score: it stays in front, and all levels stay right |
| SortedSets.RemovedMemberStaysLinked | internal/store/skiplist.go:45-72 | ... and removing the other one then takes it out of the table only, at any heights |
| Decimal.DigitsRoundTrip | internal/commands/commands.go:1208-1211 | digits read back as the number printed |
| Decimal.AtoiItoa | internal/resp/parser.go:22-41 | Atoi reads back every 64-bit number that %d prints |
| Decimal.NoLeadingZero | internal/commands/commands.go:1208-1211 | numbers are printed without leading zeros; 0, -1 and 907 as written |
| Decimal.AtoiValue | internal/commands/commands.go:968-972 | the number used when Atoi fails too: 64-bit always, and the number read when there is one |
| Resp.FormatPropagatedCommand | internal/commands/commands.go:1205-1215 | the written bytes are the RESP array of bulk strings of the command and its arguments |
| Resp.ReadLine | internal/resp/parser.go:61-68 | the first CRLF from a position, or none |
| Resp.ReadBulk | internal/resp/parser.go:30-56 | one bulk string, or the first of its five errors |
| Resp.ParseCommand | internal/resp/parser.go:10-59 | the loop refines the recursive parser, errors included |
| RespRoundTrip.LineAfterDigits | internal/resp/parser.go:61-68 | a length line ends at its own CRLF |
| RespRoundTrip.ParseBulkWhole | internal/resp/parser.go:30-56 | a whole bulk string is read back for arbitrary payload bytes, CRLF included |
| RespRoundTrip.ParseBulkCut | internal/resp/parser.go:30-56 | a bulk string cut anywhere fails, with exactly this error |
| RespRoundTrip.ParseEncode | internal/resp/parser.go:10-59 | parsing a formatted command with anything behind it gives back the command and consumes exactly its bytes |
| RespRoundTrip.ParseCut | internal/resp/parser.go:10-59 | every proper prefix is rejected, with exactly the error that its cut position determines |
| RespRoundTrip.EncodeInjective | internal/commands/commands.go:1205-1215 | two commands never share an encoding, and none is a prefix of another's |
| RespGrammar.AtoiIff | internal/resp/parser.go:22-44 | a number is read exactly from an optional sign and digits that spell a 64-bit number |
| RespGrammar.AtoiErrors | internal/commands/commands.go:968-972 | an unreadable count is the nearest 64-bit number when its digits are too large, and 0 otherwise |
| RespGrammar.ParseBulkIff | internal/resp/parser.go:30-56 | a bulk string is read exactly from byte 36, a spelled length, 13 10, that many bytes and 13 10 |
| RespGrammar.LengthErrors | internal/resp/parser.go:41-56 | with a readable length: which error comes when, and when the slice panics |
| RespGrammar.ParseIff | internal/resp/parser.go:10-59 | the parser takes so many bytes for a command exactly if they are byte 42, a spelled count, 13 10 and that many bulk strings, the command's parts |
| RespGrammar.PrintedForm | internal/commands/commands.go:1205-1215 | a command is printed as these literal bytes around its printed lengths and its parts, in order |
| RespGrammar.PingOnWire | internal/commands/commands.go:1205-1215 | a PING is printed as those 14 bytes and read from them |
| InputLoop.Connection.HandleIncomingStream | internal/commands/commands.go:1131-1163 | commands handled, bytes counted and the reason to stop are those of the specification loop |
| InputLoop.CutRetries | internal/commands/commands.go:1144-1155 | a partial command makes the loop read on if and only if it is cut before its current payload has arrived |
| InputLoop.LoopOnWire | internal/commands/commands.go:1131-1163 | whatever the chunks, a prefix of the sent commands is handled; all of them, with the right byte total, if and only if every cut is good; otherwise it stops early with a parse error |
| InputLoop.ChunkingDoesNotMatter | internal/commands/commands.go:1131-1163 | the same commands and byte count as unchunked, if and only if every cut falls at a command boundary or before a payload has arrived |
| InputLoop.CutAfterFirstByteStops | internal/commands/commands.go:1146 | any command cut after its first byte ends the connection unhandled |
| RespGrammar.CountedAreHandled | internal/commands/commands.go:1131-1163 | of any input in any chunks, well formed or not, the bytes counted are the start of the input and are exactly commands, those handled |
| RespGrammar.NoStarReadsOn | internal/commands/commands.go:1146-1154 | input that does not start with a star is read to its end without handling anything |
| RespGrammar.NoCountStops | internal/commands/commands.go:1146-1157 | a star without a readable count ends the connection at once |
| StreamIds.ConvertPrinted | internal/store/store.go:570-591 | a printed ID is read back |
| StreamIds.ConvertIff | internal/store/store.go:570-591 | an ID is read exactly from two spelled numbers with one dash between them, a star in the second place standing for -1 |
| StreamIds.PrintedLooksLike | internal/store/store.go:567 | 907-12 is printed so, and a star is the byte 42 |
| StreamIds.NegativeSequenceUnreadable | internal/store/store.go:570-591 | an ID printed with a negative sequence number can never be read again |
| StreamIds.ConvertedParts | internal/store/store.go:570-591 | whatever is read, neither part is below its least value |
| StreamIds.AcceptedIsAbove | internal/store/store.go:527-568 | an accepted ID is well formed and above the stream's last if and only if the sequence number did not wrap at 64 bits, with any clock |
| StreamIds.ExplicitIdAccepted | internal/store/store.go:546-567 | a complete ID is accepted as it is if and only if it is above 0-0 and above the last, with the right error otherwise |
| StreamIds.GeneratedIsLeast | internal/store/store.go:534-559 | a generated ID is the least allowed one with its milliseconds |
| StreamIds.ClockedIsLeast | internal/store/store.go:534-543 | a bare star, when no number wraps, is given the least ID that is above the last and has at least the clock's milliseconds |
| StreamIds.HalfGivenIff | internal/store/store.go:546-567 | milliseconds with a star keep their milliseconds and are accepted if and only if some sequence number is allowed with them |
| Streams.StreamGrows | internal/store/store.go:504-511 | appending keeps a stream ordered if and only if the new ID is well formed and above the last |
| Streams.BetweenIsSlice | internal/store/store.go:630-648 | the entries within bounds are the slice between two search results |
| Streams.AfterIsSuffix | internal/store/store.go:688-691 | the entries after a cursor are a suffix |
| Streams.StreamStore.XAdd | internal/store/store.go:487-515 | exactly one entry is appended and all waiters of the key are taken, or nothing changes; order is kept if and only if no wrap |
| Streams.StreamStore.BinarySearch | internal/store/store.go:637-642 | the search splits an ordered stream at the target and says whether it is there |
| Streams.StreamStore.XRange | internal/store/store.go:598-628 | exactly the entries from start to end, in order; it panics if and only if an entry lies strictly between a reversed end and start |
| Streams.ReversedRangePanics | internal/store/store.go:598-628 | an entry at 5-0 and the range from 9-0 to 1-0: the panic is reached |
| Streams.SignsCoverAll | internal/store/store.go:607-612 | a minus and a plus cover every entry of a stream in order, and do not reach the panic |
| Streams.StreamStore.IndexRange | internal/store/store.go:630-648 | the two indices bound exactly the entries in range |
| Streams.StreamStore.ResolveStartIDs | internal/store/store.go:668-679 | a dollar sign means the last ID, or 0-0 |
| Streams.StreamStore.CollectEntries | internal/store/store.go:681-710 | for every stream in order, exactly its entries after the cursor, streams without news left out |
| Streams.StreamStore.UnreadInOrder | internal/store/store.go:681-710 | the streams are collected in the order in which they are named |
| Streams.StreamStore.RegisterWaiter | internal/store/store.go:722-725 | the channel is at the end of every named key's waiters |
| Streams.StreamStore.RemoveWaiterFromKeys | internal/store/store.go:756-766 | the channel's first place is gone from each named key and no other waiter moves |
| StreamTracks.StartTracks | internal/store/store.go:44-53 | an empty store is the empty interleaving of reads and additions |
| StreamTracks.AddEntry | internal/store/store.go:487-522 | the locked part of XADD, when no number wraps, is the step that adds its ID, and the waiters it returns are those the step takes over |
| StreamTracks.UnreadIff | internal/store/store.go:681-715 | a read collects something if and only if the interleaving has something new for it |
| StreamTracks.ReadOrBlock | internal/store/store.go:665-727 | the first locked part of XREAD delivers, or blocks exactly when registering is possible and is that step; with dollar signs only it never delivers |
| StreamTracks.DollarStart | internal/store/store.go:669-676 | a dollar sign is the last ID of a stream with entries, and 0-0 otherwise |
| StreamTracks.DollarsCollectNothing | internal/store/store.go:669-715 | a read with dollar signs only finds nothing in any valid store |
| StreamTracks.DollarsThenAdd | internal/store/store.go:487-739 | ... and after one XADD that wraps no number collects exactly the new entry, once for each mention of its stream, and nothing if the ID was rejected |
| StreamTracks.FinishRead | internal/store/store.go:735-739 | the locked part after a wakeup is the finishing step, and delivers exactly when it does |
| StreamTracks.GiveUpRead | internal/store/store.go:741-753 | the locked part after a timeout is the step that gives up, and delivers exactly when it does |
| StreamTracks.UnlockedTracks | internal/store/store.go:513-522 | sends, receives and timers leave the store alone |
| StreamRuns.RunWellFormed | internal/store/store.go:487-591 | over every run of XADDs with any clock, IDs are strictly increasing and above 0-0 if and only if no sequence number wrapped |
| StreamRuns.WrapReached | internal/store/store.go:534-559 | for every millisecond and every clock up to it, an entry with the greatest sequence number and then a bare star: the wrap is reached and the stream is out of order |
| StreamRuns.ReceivedIsPrefix | internal/store/store.go:665-720 | what a client that reads on from its last ID has received is always a prefix of what was there to receive |
| StreamRuns.EveryEntryExactlyOnce | internal/store/store.go:665-720 | received and not yet received together are every entry after the cursor, each once, in order, under any interleaving with XADDs |
| BlockedReads.InvAlongRun | internal/store/store.go:513-522 | the registration invariant holds in every interleaving of adds, sends, registrations, wakeups and timeouts |
| BlockedReads.NoLostWakeup | internal/store/store.go:712-754 | a waiting reader with an entry above its cursor always has its wakeup sent or being sent |
| BlockedReads.WakeupDeliversIffNotBeyond | internal/store/store.go:734-739 | a wakeup always delivers an entry if and only if no cursor was beyond its stream's last ID at registration |
| BlockedReads.WokenForNothingRun | internal/store/store.go:734-739 | for every registration beyond a last ID, a run in which the reader wakes to nothing |
| BlockedReads.SlotAfter | internal/store/store.go:517-522 | a channel holds a message exactly from a send to the next receipt |
| BlockedReads.Lifecycle | internal/store/store.go:734-753 | what each step makes of a reader: woken or timed out, then returned with or without entries |
| BlockedReads.RegisterAtEnd | internal/store/store.go:722-725 | a reader stands at the end of each line, once for each mention of its key |
| BlockedReads.LeaveTakesOwn | internal/store/store.go:756-766 | leaving takes one of its places for each mention of a key, and nobody else's |
| WaiterLine.RemoveFirstKeeps | internal/store/store.go:431-444 | removing one waiter keeps every other |
| WaiterLine.RemoveFirstAt | internal/store/store.go:434-439 | cutting at the first match is that removal |
| ListHandoff.HandoffIsPushThenPop | internal/store/store.go:447-473 | handing a value to a waiter equals pushing and popping the head, returned length included, if and only if it was a left push or the list holds nothing else than that value |
| ListHandoff.PushKeepsApartIff | internal/store/store.go:453-471 | a push keeps waiters and elements apart if and only if it carries one value or at most one client waits |
| BlockingLists.StepConserves | internal/store/store.go:394-473 | every atomic step keeps the multiset of values |
| BlockingLists.SendNeverBlocks | internal/store/store.go:459 | the first waiter's slot is always free, and that waiter has waited longest |
| BlockingLists.StepKeeps | internal/store/store.go:394-473 | every atomic step keeps the waiter and slot invariant |
| BlockingLists.InvAlongRun | internal/store/store.go:394-473 | the invariant holds in every interleaving |
| BlockingLists.NothingLost | internal/store/store.go:394-473 | in every interleaving pushed values are list contents, slots and returned values, and a client that gave up left no value behind |
| BlockingLists.BlockedIsRegistered | internal/store/store.go:404-417 | a blocked client without a value is registered |
| BlockingLists.FifoAlongRun | internal/store/store.go:300-473 | with single-value pushes a key with waiters has an empty list throughout, and right pushes are given up in push order |
| BlockingLists.SecondWaiterOverlooked | internal/store/store.go:453-471 | two waiters and a push of two values leave one waiter beside a nonempty list |
| ListStore.ListStore.CheckForBlockingClients | internal/store/store.go:447-473 | with waiters and a value the handoff takes the push step of the specification, on this key only, and keeps the invariant; it panics if and only if there are waiters and no value, and without waiters changes nothing |
| ListStore.ListStore.constructor | internal/store/store.go:44-53 | an empty store satisfies the invariant |
| ListStore.ListStore.TakeFirst | internal/store/store.go:453-457 | the first waiter leaves its line, and no other key changes |
| ListStore.ListStore.PutRest | internal/store/store.go:460-471 | the values behind the first join the list at the right end |
| ListStore.ListStore.RPush | internal/store/store.go:300-312 | a right push is the push step, handoff and length included, and keeps the invariant; it panics if and only if clients wait and no value is given |
| ListStore.ListStore.LPush | internal/store/store.go:348-362 | a left push is the push step with the values reversed, and keeps the invariant; it panics if and only if clients wait and no value is given |
| ListStore.ListStore.LPop | internal/store/store.go:372-392 | exactly the first elements, up to the count, are taken, and the invariant kept; it panics if and only if the count is negative and the list exists |
| ListStore.ListStore.BLPopEnter | internal/store/store.go:394-407 | the head is taken, or a channel never used before joins the end of the line; the invariant is kept |
| ListStore.ListStore.RemoveWaiter | internal/store/store.go:431-444 | one waiter leaves, others keep their order and the invariant is kept |
| ListStates.PushKeepsValid | internal/store/store.go:447-473 | in every valid store the first waiter's slot is free, so the locked send never blocks, and a push keeps waiting channels known, unfilled, and distinct within and across keys |
| ListStates.PopKeepsValid | internal/store/store.go:372-392 | a pop keeps that invariant |
| ListStates.BlockKeepsValid | internal/store/store.go:404-407 | a client that starts to wait keeps that invariant |
| ListStates.LeaveKeepsValid | internal/store/store.go:431-444 | a client that leaves its line keeps that invariant |
| ListStates.TakeKeepsValid | internal/store/store.go:414-428 | a client that takes its value keeps that invariant |
| ListStates.StartTracks | internal/store/store.go:44-53 | an empty store is valid, and each of its keys is the empty interleaving |
| ListStates.PushTracks | internal/store/store.go:447-473 | a push step of the store is the push step of its key's interleaving |
| ListStates.PopTracks | internal/store/store.go:372-392 | a pop step of the store is the pop step of its key's interleaving |
| ListStates.PopAtOnceTracks | internal/store/store.go:397-402 | a BLPOP that finds the list filled is that step of its key's interleaving |
| ListStates.BlockTracks | internal/store/store.go:404-407 | a BLPOP that blocks is that step of its key's interleaving, and always possible there |
| ListStates.ExpireTracks | internal/store/store.go:417-420 | a timer that fires is that step, and changes nothing in the store |
| ListStates.LeaveTracks | internal/store/store.go:431-444 | leaving the line is that step of the key's interleaving |
| ListStates.TakeTracks | internal/store/store.go:414-428 | receiving and draining are those steps, with the same value |
| ListStates.PushElsewhere | internal/store/store.go:447-473 | a push to one key is no step of any other key's interleaving |
| ListStates.ElsewhereTracks | internal/store/store.go:394-473 | nor is any other step that leaves the key and its clients' slots alone |
| Database.ClockDoesNotMatter | internal/store/store.go:534-559 | the logged commands, bare-star XADD aside, do the same at any time |
| Database.NameSurvives | internal/commands/commands.go:1241 | a name logged in capitals is dispatched as before |
| Database.CommandNames | internal/commands/commands.go:108-123 | the names of the logged commands and of the two time units, letter by letter |
| Database.CasesAre | internal/commands/commands.go:1097 | folding exchanges the 26 letters of the two cases and leaves every other byte |
| Database.PanicsIff | internal/commands/commands.go:918-1080 | a logged command ends the server if and only if arguments are missing, or a negative count is popped from a list that is there |
| Database.SetEffects | internal/store/store.go:244-262 | SET stores the value and touches no other key, unless its time to live is unreadable |
| Database.IncrEffects | internal/commands/commands.go:824-838 | INCR stores the successor, 1 for a missing key, and touches no other key |
| Database.PushEffects | internal/store/store.go:300-312 | RPUSH puts its values behind the list in their order, LPUSH in front of it one by one |
| Database.PopEffects | internal/commands/commands.go:964-977 | LPOP takes as many elements as asked from the front, or one, or all there are |
| Database.StreamEffects | internal/commands/commands.go:918-932 | XADD appends the entry under the ID it is given, or changes nothing |
| Database.FieldsAre | internal/commands/commands.go:920-923 | every name has the value behind its last mention, and no other name is there |
| AppendLog.Handler.HandleModifyingCmd | internal/commands/commands.go:1239-1249 | a command's log line is appended to the file |
| AppendLog.Handler.FlushWriteCmdsToAOF | internal/commands/commands.go:1217-1232 | all buffered lines, in order, and the buffer emptied |
| AppendLog.Handler.HandleCommands | internal/commands/commands.go:1097-1129 | one logged request of a client outside MULTI acts on database and file as the specification step |
| AppendLog.Handler.RebuildState | internal/commands/commands.go:1254-1295 | the replay loop is the recursive replay of the file's bytes |
| AppendLog.LoggedFormRunsAlike | internal/commands/commands.go:1241-1245 | the logged form of a request does what the request did |
| AppendLog.LogRebuilds | internal/commands/commands.go:1234-1295 | the log is the stream of the logged requests up to one that panics, and running those once from an empty store gives the live database, or panics at the same place, at any clock |
| AppendLog.Served | internal/commands/commands.go:1234-1250 | the log file is exactly the stream of the requests that were served, a panicking one included |
| AppendLog.LoggedAs | internal/commands/commands.go:1239-1247 | a request is logged with its name in capitals and its arguments as they are; any other command is not logged |
| AppendLog.ReplayOfWire | internal/commands/commands.go:1283-1292 | replaying the bytes of commands is running the commands, whatever follows them |
| AppendLog.RestartRebuilds | internal/commands/commands.go:1254-1295 | a restart rebuilds exactly the live database and leaves the file twice as long; it panics if and only if the requests did |
| AppendLog.RestartOf | internal/commands/commands.go:1254-1295 | ... and behind a request that panicked the rest of the file does not matter |
| AppendLog.RestartsRunDoubled | internal/commands/commands.go:1247-1249 | after n + 1 restarts the database is that of the requests run 2 ^ n times over, and the server lives if and only if it survives those |
| AppendLog.SecondRestart | internal/commands/commands.go:1247-1249 | the second restart comes to the database of having run everything twice, or panics as that does |
| AppendLog.CounterGrowsByRestarting | internal/commands/commands.go:1247-1249 | a counter incremented once reads 2 after two restarts |
| Restarts.StringBackIff | internal/store/store.go:781-806 | running the requests over again gives back a string value if and only if they set the key, or count it up a multiple of 2^64 times |
| Restarts.CountsUp | internal/store/store.go:781-806 | a key that is never set holds the number of its INCRs, wrapping at 64 bits |
| Restarts.AllPassed | internal/store/store.go:527-568 | after any run each stream's last ID is at or above every complete ID asked for, and its milliseconds not below any asked for |
| Restarts.TakesIff | internal/store/store.go:527-568 | such a stream takes a request again if and only if its ID is the milliseconds of the last ID and a star, and a sequence number is left |
| Restarts.RunAgain | internal/store/store.go:527-568 | a stream stays as it is over a second run if and only if no request is taken again, and otherwise only grows |
| Restarts.MissedAlong | internal/store/store.go:300-392 | a run over a list that is there ends longer than one from nothing by what its pops leave of it, and with the same list if they leave nothing |
| Restarts.ListBackIff | internal/store/store.go:300-392 | running the requests over again gives back a list if and only if their pops, run from nothing, asked in vain for at least as many elements as it holds |
| Restarts.SurvivesIff | internal/store/store.go:372-392 | a request survives in a store if and only if it does in an empty one and does not pop a negative count from a list that is there |
| Restarts.EachSurvived | internal/commands/commands.go:964-977 | of a run that survived, each request survives in an empty store, and each list pushed to is there in the end |
| Restarts.SurvivesAgainIff | internal/store/store.go:372-392 | where all its lists exist, a run survives if and only if none of its requests pops a negative count from one |
| Restarts.LaterRestartsSurviveIff | internal/commands/commands.go:1254-1295 | every restart but the first survives if and only if the server was alive and no request pops a negative count from a list of the live database |
| Restarts.NegativePopEndsRestarts | internal/commands/commands.go:1254-1295 | LPOP k -1, then RPUSH k v: harmless live and at the first restart, and no later restart survives |
| Restarts.RunAgainGivesBack | internal/commands/commands.go:1254-1295 | what running the requests again gives back, key by key: string, stream and list, each if and only if its condition on the requests holds |
| Restarts.SecondRestartGivesBack | internal/commands/commands.go:1254-1295 | the second restart, if it survives, gives back of each key exactly that |
| Restarts.SecondRestartIff | internal/commands/commands.go:1254-1295 | the second restart survives with the whole database, versions aside, if and only if the server was alive, no request pops a negative count from a list of the live database, and these conditions hold for every key |
| Restarts.EveryRestartIff | internal/commands/commands.go:1254-1295 | all restarts survive with the whole database under the same condition and no other |
| Restarts.DoubledGivesBack | internal/commands/commands.go:1254-1295 | what comes back once comes back however often the requests are run |
| Restarts.ListGrowsByRestarting | internal/commands/commands.go:1254-1295 | a list with one pushed value holds it twice after two restarts |
| Transactions.WriteVersion | internal/store/store.go:244-263 | a write that touches a key moves its version by one, wrapping, and no other write does |
| Transactions.VersionsCount | internal/store/store.go:244-263 | after any writes a key's version is the old one plus the number of writes that touched it, modulo 2^64 |
| Transactions.ChangedIffTouched | internal/store/store.go:822-833 | the check sees a change if and only if some recorded key was written since a number of times that is not a multiple of 2^64 |
| Transactions.WritesSeenIff | internal/store/store.go:822-833 | a check that sees nothing sees something after fewer than 2^64 writes if and only if one of them touches a recorded key |
| Transactions.RecordedKeys | internal/store/store.go:808-820 | WATCH records exactly the keys up to the first missing one |
| Transactions.SeenIffRecordedTouched | internal/store/store.go:781-833 | with fewer than 2^64 writes, EXEC aborts if and only if a recorded key was written, creation of a missing one included |
| Transactions.WatchExactIffNoneAfterMissing | internal/store/store.go:812-819 | the check is exact for the keys the client named if and only if no key named behind the first missing one escapes recording |
| ExecRuns.InvAlongRun | internal/commands/commands.go:755-833 | in every run of WATCH, MULTI, UNWATCH, EXEC, DISCARD, own and foreign writes, the queue is the leftovers followed by what was queued since MULTI, and recorded versions plus writes since are the present versions |
| ExecRuns.CheckDetectsWrites | internal/store/store.go:822-833 | in every such run, EXEC's check sees a change if and only if some recorded key was written a number of times that is not a multiple of 2^64 since it was recorded |
| ExecRuns.QueueIsTransactionIff | internal/commands/commands.go:778-816 | inside MULTI the queue is exactly what the client queued since MULTI if and only if no non-empty EXEC has succeeded since the queue was last cleared |
| ExecRuns.ExecRunsTransactionIff | internal/commands/commands.go:800-805 | EXEC runs exactly the writes queued since MULTI under that same condition and no other |
| ExecRuns.ExecDoes | internal/commands/commands.go:800-815 | a successful EXEC runs the writes up to the first queued MULTI, queues the rest again, and leaves queue and watched keys unless an UNWATCH ran, which also empties the reply |
| ExecRuns.WholeQueueRunsIff | internal/commands/commands.go:1120-1126 | all queued writes are run if and only if none stands behind a queued MULTI |
| ExecRuns.NextExecIff | internal/commands/commands.go:794-815 | after a successful EXEC of plain writes, a transaction that adds nothing is aborted if and only if that queue writes a watched key, and otherwise runs it again |
| ExecRuns.ExecAnswers | internal/commands/commands.go:778-816 | which of its four answers EXEC gives, and that all but a full run leave the database alone |
| Sessions.StringStore.Set | internal/store/store.go:244-263 | SET without expiry is the specification's write |
| Sessions.StringStore.INCR | internal/store/store.go:781-806 | INCR is the specification's write, fails exactly when it touches nothing, and returns what it stored |
| Sessions.StringStore.Watch | internal/store/store.go:808-820 | exactly the keys up to the first missing one are recorded |
| Sessions.StringStore.CheckWatchedKeysForChange | internal/store/store.go:822-833 | true exactly if a recorded key exists with another version |
| Sessions.Session.DiscardCmd | internal/commands/commands.go:767-776 | DISCARD is its step; outside MULTI nothing happens |
| Sessions.Session.WatchCmd | internal/commands/commands.go:1115-1119 | WATCH is its step; refused inside MULTI, otherwise recorded |
| Sessions.Session.ExecuteBuiltIn | internal/commands/commands.go:1100-1129 | the dispatcher on SET, INCR, MULTI and UNWATCH: queued inside MULTI, run outside, replies kept while EXEC collects them |
| Sessions.Session.ExecCmd | internal/commands/commands.go:778-816 | EXEC is its step: refused, empty, aborted with everything cleared, or the queue through the dispatcher; of a queue of plain writes everything is run, in order, and queue and watched keys are left behind |
| Sessions.Session.RunQueue | internal/commands/commands.go:800-815 | the loop sends every entry of the queue, as it stands at the start, through the dispatcher |
| Sessions.Session.EmptyTransactionRepeatsQueue | internal/commands/commands.go:800-815 | whatever is watched, a following MULTI and EXEC runs the whole old queue again, or is aborted if that queue wrote a watched key |
| Sessions.OwnWriteAbortsNextTransaction | internal/commands/commands.go:794-815 | WATCH k, MULTI, SET k, EXEC, MULTI, SET x, EXEC by the only client: the second EXEC is aborted |
| Sessions.NestedMultiStopsQueue | internal/commands/commands.go:1120-1126 | MULTI, SET a, MULTI, SET b, EXEC: b is not set, and waits in the queue again |
| Replication.GetAckSize | internal/commands/commands.go:577 | the request for an acknowledgement is 37 bytes |
| Replication.GetAckBytes | internal/commands/commands.go:577 | ... and these bytes, letter by letter |
| Replication.InvAlongRun | internal/commands/commands.go:557-720 | offsets, links and acknowledgements agree in every interleaving |
| Replication.AckMeansConsumed | internal/commands/commands.go:700-718 | an acknowledged offset is the write bytes consumed plus 37 for each earlier request; less those, reaching a target means everything up to the target was consumed |
| Replication.ShortWriteCountedInFlight | internal/commands/commands.go:593-650 | for every write of at most 37 bytes, a run in which it is counted while still on its way |
| ReplicaCounts.SmallestWrite | internal/commands/commands.go:1205-1215 | no write that the master survives is shorter than 14 bytes on the wire |
| ReplicaCounts.AskedFromStart | internal/commands/commands.go:557-720 | in every reachable state each acknowledgement answers one of the requests sent, and was given when exactly the writes before that request were consumed |
| ReplicaCounts.CountedIff | internal/commands/commands.go:557-565 | from any state, some continuation up to the next WAIT counts a replica if and only if it was asked, and 37 bytes for each request but the last reach over the bytes before its join and those sent since the last request |
| ReplicaCounts.CountedLackingIff | internal/commands/commands.go:557-565 | ... and counts it for a write it lacks if and only if they reach over 14 bytes more, or no more when a write sent after the last request is still on its way |
| ReplicaCounts.NextWaitSafeIff | internal/commands/commands.go:593-650 | the next WAIT to ask the replica, whenever it starts and however long it lasts, never counts it while it lacks writes up to its target, if and only if that condition fails now |
| ReplicaCounts.WaitSafe | internal/commands/commands.go:593-650 | a WAIT that starts while the condition fails is safe for all of its life |
| ReplicaCounts.UnansweredFrom | internal/commands/commands.go:700-718 | while writes before a request are missing, an acknowledgement reaches no further than 37 bytes for each request before that one allow |
| ReplicaCounts.Settle | internal/commands/commands.go:567-585 | from any state, a run in which every request on its way is answered and noted |
| ReplicaCounts.SafeUpToFirstRequest | internal/commands/commands.go:593-650 | a WAIT before which at most one request was sent never counts a replica that has not consumed everything up to its target |
| ReplicaCounts.LateJoinerNotCounted | internal/commands/commands.go:665-690 | a replica that joined after the first write and was asked at most once is not counted, however much it has consumed |
| MasterNode.MasterNode.PropagateToReplicas | internal/commands/commands.go:1191-1203 | every replica gets the encoding, and the offset grows by its length |
| MasterNode.MasterNode.SentInOrder | internal/commands/commands.go:1196-1201 | what a replica is sent follows what it was sent before |
| MasterNode.MasterNode.BroadcastGetAck | internal/commands/commands.go:567-585 | every replica gets the request, and the offset does not move |
| MasterNode.MasterNode.CountSyncedReplicas | internal/commands/commands.go:557-565 | the number of replicas at or past the target |
| BitNumbers.NumberOfWord | internal/store/geo.go:38-39 | a number survives being made a word |
| BitNumbers.NumberInjective | internal/store/geo.go:186-190 | different words are different numbers |
| BitNumbers.NumberMonotone | internal/store/skiplist.go:195-197 | codes and their scores are in the same order |
| BitNumbers.NumberShifted | internal/store/geo.go:143-145 | shifting a code right divides its number |
| BitNumbers.NumberShiftedLeft | internal/store/skiplist.go:195-196 | shifting a cell left multiplies its number, while no bit is lost |
| GeoBits.CompactInterleave | internal/store/geo.go:51-59 | compacting undoes interleaving for all pairs of 32-bit words |
| GeoBits.InterleaveCompact | internal/store/geo.go:25-30 | every 64-bit code is the interleaving of its halves |
| GeoBits.EvenBits | internal/store/geo.go:15-30 | bit i of the first word is bit 2i of the code |
| GeoBits.OddBits | internal/store/geo.go:15-30 | bit i of the second word is bit 2i + 1 of the code |
| GeoBits.ShiftMany | internal/store/geo.go:143-145 | shifting a code by 2k bits shifts both halves by k |
| GeoBits.InterleaveInjective | internal/store/geo.go:25-30 | codes agree exactly when both halves do |
| GeoBits.CompactShiftedLeft | internal/store/geo.go:147-151 | shifting a cell back left shifts its latitude half |
| GeoBits.Number32ShiftedLeft | internal/store/geo.go:147-151 | shifting a half left multiplies its number, while no bit is lost |
| GeoBits.ClearedBelow | internal/store/geo.go:147-151 | clearing low bits does not raise a grid number |
| GeoCodes.GridCounts | internal/store/geo.go:32-39 | the truncated grid number counts whole cell widths |
| GeoCodes.GridInRange | internal/store/geo.go:32-39 | grid numbers run from 0 to 2^26, and 2^26 exactly on the upper edge |
| GeoCodes.CentreIs | internal/store/geo.go:61-73 | the middle of the two bounds is half a cell above the lower one |
| GeoCodes.CentreError | internal/store/geo.go:61-73 | a cell's centre is within range / 2^27 of every value in the cell |
| GeoCodes.StoredPositionError | internal/store/geo.go:32-85 | an encoded and decoded position errs by at most half a cell per axis |
| GeoCodes.DecodedOnMap | internal/store/geo.go:75-85 | what comes back is on the map if and only if the position was not on the northern or eastern edge |
| GeoCodes.CodeOfCentre | internal/store/geo.go:32-85 | every cell's centre is on the map and encodes to that cell's code |
| GeoCodes.ReencodeIsStable | internal/store/geo.go:32-85 | storing a decoded position again gives the same code |
| GeoCodes.SameCell | internal/store/geo.go:143-145 | positions share a cell of any step if and only if they share its row and its column |
| GeoCodes.CellNumber | internal/store/geo.go:143-145 | a position's cell is its code's number divided by the cell size |
| GeoCells.DoublingsExact | internal/store/geo.go:116-126 | the doublings counted are the least that bring the radius to the end of the map |
| GeoCells.GeoSearchEstimateSteps | internal/store/geo.go:116-141 | 26 for radius 0, otherwise one less than the doublings, coarser near the poles, between 1 and 26 |
| GeoCells.SomeDoublings | internal/store/geo.go:102-126 | no doubling at the end of the map, one just below it, eight for 100 km |
| GeoCells.PolarStepsAre | internal/store/geo.go:128-133 | no coarser up to 66 degrees, two steps coarser beyond 80 |
| GeoCells.ClampIsNearest | internal/store/geo.go:134-139 | the step is the one between 1 and 26 nearest to the estimate |
| GeoCells.NeighbourOnMap | internal/store/geo.go:174-186 | wrapping always brings a neighbour's longitude back onto the map |
| GeoCells.ClearedGrid | internal/store/geo.go:147-155 | the corner computed for a position's cell is not above the position's grid number |
| GeoCells.GeoSearchGetNeighborCells | internal/store/geo.go:164-194 | the cells are distinct and are exactly those of the nine neighbours whose row is on the map |
| GeoNeighbours.MapIs | internal/store/geo.go:32-39 | the map reaches to 85.05112878 degrees north and south and 180 east and west |
| GeoNeighbours.BetweenEdges | internal/store/geo.go:32-39 | a value is in a row or column of a step exactly if it lies between its two edges, the upper one excluded |
| GeoNeighbours.CornerNumber | internal/store/geo.go:147-151 | the corner that is computed for a cell is the lower edge of its row |
| GeoNeighbours.AreaIs | internal/store/geo.go:153-160 | the area of a cell is that of its row; its longitudes are computed from the row too |
| GeoNeighbours.NeighbourRow | internal/store/geo.go:174-178 | a neighbour lies dy rows away, and is on the map exactly if that row is |
| GeoNeighbours.NeighbourColumn | internal/store/geo.go:179-186 | a neighbour lies in the column that the centre's row and dx lead to, whatever the centre's column |
| GeoNeighbours.VisitedIff | internal/store/geo.go:164-194 | a position's cell is returned exactly if its row is at most one away from the centre's and its column is one of those three |
| GeoNeighbours.OwnCellIff | internal/store/geo.go:164-194 | the centre's own cell is returned if and only if its column is one of the three that its row leads to |
| GeoNeighbours.OwnCellMissed | internal/store/geo.go:150-151 | on the equator at 90 degrees east it is not, for any step from 3 to 26 |
| GeoNeighbours.ColumnsOfARow | internal/store/geo.go:164-194 | at 48.8534 degrees north and step 10: row 806 of 1024, and columns 952, 659 and 366 whatever the longitude |
| GeoCells.CodeInCells | internal/store/skiplist.go:193-206 | a code's numeric cell is among the cells exactly if its leading bits are |
| GeoCells.EachVisitedOnce | internal/store/skiplist.go:193-206 | walking distinct cells meets each member exactly once if its code's leading bits are one of the cells and it passes the filter, otherwise never |
| GeoCells.WindowBounds | internal/store/skiplist.go:195-196 | the two shifted bounds are the start of the cell's window and of the next |
| GeoCells.CodeBits | internal/store/geo.go:32-59 | a position's code is below 2^54 |
| GeoCells.CellRoom | internal/store/skiplist.go:195-197 | the window of a position's cell, and the start of the next, fit in 64 bits |
| GeoCells.NeighbourBounds | internal/store/skiplist.go:195-197 | for every cell of the neighbour search the two shifted bounds are the window's, with no bit lost |
| GeoSearch.SearchNeighbours | internal/store/skiplist.go:193-206 | the neighbour cells together with the walk over their windows: each member whose code's leading bits are one of those cells and that passes the filter is returned exactly once, and nobody else; of members at known positions, those in the rows and columns that the centre's row leads to |
| Rdb.ReadRDBFile | internal/rdbParser/rdbParser.go:15-77 | the loop is the recursive decoder |
| RdbRoundTrip.LengthReadsBack | internal/rdbParser/rdbParser.go:79-97 | a length in any of the three forms is read back, consuming exactly its bytes |
| RdbRoundTrip.TextReadsBack | internal/rdbParser/rdbParser.go:99-127 | a plain string or a signed 8, 16 or 32-bit integer is read back as the string it stands for |
| RdbRoundTrip.RecordBytes | internal/rdbParser/rdbParser.go:29-68 | the first byte of each kind of record, and what follows it; the end byte and the length of the header |
| RdbRoundTrip.TextBytes | internal/rdbParser/rdbParser.go:79-127 | the bytes of each form of length, string and integer |
| RdbRoundTrip.ByteOrders | internal/rdbParser/rdbParser.go:49-57 | lengths are big-endian, integers and times little-endian, with two's complement for what is negative |
| RdbRoundTrip.OtherForms | internal/rdbParser/rdbParser.go:94-118 | a length with both top bits set is its own byte, and a compressed string panics |
| RdbRoundTrip.RecordReadsBack | internal/rdbParser/rdbParser.go:25-75 | one turn reads exactly one record, with its effect on the entries and the waiting expiry |
| RdbRoundTrip.LastWritesSnoc | internal/rdbParser/rdbParser.go:66-73 | one more record keeps the entries those of each key's last pair |
| RdbRoundTrip.RecordsReadBack | internal/rdbParser/rdbParser.go:25-75 | any sequence of records leaves the last writes and the expiry still waiting |
| RdbRoundTrip.FileReadsBack | internal/rdbParser/rdbParser.go:15-77 | a well-formed file loads to exactly the last pair of each key, each under the expiry written just before it and no other |
| RdbRoundTrip.OtherTypesStop | internal/rdbParser/rdbParser.go:69-70 | any other value type is an error that keeps what was read before |
| RdbRoundTrip.LastWritesUnique | internal/rdbParser/rdbParser.go:20-68 | a file has only one such map |
| RdbRoundTrip.CutString | internal/rdbParser/rdbParser.go:122-126 | a string cut by the end of the file is completed from spare buffer bytes instead of failing, if and only if there are enough of them |
| RdbCuts.CutLengthRead | internal/rdbParser/rdbParser.go:79-97 | a length cut short is completed from spare bytes in the long form only, and panics otherwise |
| RdbCuts.CutTextRead | internal/rdbParser/rdbParser.go:99-127 | a string or integer cut short is read from what is left and spare bytes, or panics, exactly as stated |
| RdbCuts.CutRecordEnds | internal/rdbParser/rdbParser.go:25-75 | the outcome of a load whose last record is cut, for every record and every cut in it |
| RdbCuts.CutFile | internal/rdbParser/rdbParser.go:15-77 | the outcome of a load for every cut of a well-formed file: the last writes of the records before the cut at a record boundary, with no error, and otherwise these and the outcome of the cut record |
| RdbCuts.CutHeader | internal/rdbParser/rdbParser.go:20-25 | a file cut in its header loads as empty |

## Left out

- Floating point: scores, positions and distances are exact reals, so NaN, rounding and scores from 2^53 on are not modelled.
- GeoSearchRadius against GeoSearchScan: the code does not make them equal (the arguments of the neighbour search and of the distance are in different orders, and `cellArea` takes its longitudes from the latitude bits); only the cells, where they lie, their distinctness and the walk over them are proved, with the distance test any function of the score.
- GeoCodes.GeoScoreEncode: positions off the map are left out, since GEOADD refuses them and Go leaves the conversion of a negative number open; GEOSEARCH does not check its centre.
- GeoCells.GeoSearchEstimateSteps: a negative radius, for which the loop does not end, is left out.
- GeoCells.GeoSearchGetNeighborCells: the centre must be on the map and the step between 1 and 26, which is what the step estimate gives; the search passes latitude and longitude in the other order than they are declared, so the two coordinates of its centre are exchanged.
- Haversine distances and reply formatting: thin or library-bound.
- The random height of a node is a parameter of insertion.
- SkipList.SkipList.RemoveElementByName: when the search does not stop in front of the member, only the bottom level, the keys, the length and the table are described, not the upper levels and the spans.
- SortedSets.StoredSet.Run: re-added members keep between their neighbours and heights stay below the top level; the other additions and removals are covered one at a time, as long as all levels are right.
- A missing sorted set is an empty one here; both answer alike except for the error text of ZRANK.
- Expiry: TTL clocks, absolute expiry from a snapshot, and the watched or counted key that has expired.
- Sessions.StringStore.Set: the time to live is left out.
- Sessions.StringStore.INCR: the branch for an expired key is left out.
- Methods without a lock (LPOP, LLEN, the check in EXEC) are taken as single steps; so is EXEC as a whole.
- A key is used as a list or as a stream, not both, although the two share the table of waiters.
- ListStore.ListStore.LPop: gives the elements; the reply string is left out.
- StreamStore entries keep their fields as a map; the order in which Go lists them is not fixed.
- Resp.ParseCommand: an argument count so large that the allocation of its slice fails is not modelled; negative counts and lengths are, as panics.
- InputLoop.Connection.HandleIncomingStream: chunks have any length, where the server reads at most 1024 bytes at a time; what a command does and its authentication are left out.
- Letter case is folded for ASCII only.
- AppendLog.RestartRebuilds: covers SET without expiry, INCR, RPUSH, LPUSH, LPOP and XADD with an explicit or partly generated ID; BLPOP and a bare-star XADD depend on clients and clocks, and an empty request ends the server without being logged.
- Sorted sets are outside the logged database: ZADD, GEOADD and ZREM are neither logged nor sent to replicas, so a restart loses every sorted set.
- AppendLog.Handler.HandleCommands: a request stream with MULTI runs its writes at once, where the server queues them; authentication is left out.
- AppendLog.Handler.HandleModifyingCmd: the propagation before it is `MasterNode.MasterNode.PropagateToReplicas`, not called from here.
- Sessions.Session.ExecuteBuiltIn: of the commands that can be queued, SET without expiry, INCR, MULTI and UNWATCH.
- The manifest and the opening of files: the log and the snapshot are byte sequences.
- Replication.AckMeansConsumed: a replica that joins late counts from its join, and other commands its clients send it add to what it reports.
- ReplicaCounts.CountedLackingIff: for a replica whose only connection is its master's; bytes from its own clients would count as well.
- WAIT's timer and reply, and concurrent propagation under the shared lock, which lets two writers race on the offset.
- Passwords, ACL, INFO, CONFIG, KEYS and publish and subscribe: thin, library-bound or easy set updates.
- RDB: compressed strings panic in the decoder and here; the 64-bit length form is not read by it.
