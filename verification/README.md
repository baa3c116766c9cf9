# Verified models of lur's shared state, text, XML, validation, HTTP cache, router and scheduler

lur runs Lua scripts on many VMs that share Rust-side capabilities. This project
models the ones whose correctness does not show in any single function, and proves
what they promise.

- **`lur.state`** — a bounded key-value store (caps on entries and bytes, TTLs, stale
  windows, evictable entries in least-recently-used order, optimistic updates) with a
  single-flight `fetch` behind the same lock. `StateSpec` is the reference store: a map
  and a recency list. `StateStore` is the store as it is written, with a tick index, a
  running byte total and lazy marks; every method is proved to do what the reference
  does. `StateLaws` says what the reference keeps. `WaitGraph`, `FlightDesk` and
  `FetchStore` are the flight table and its deadlock search; `FetchProtocol` is the
  protocol of any number of callers as a transition system, `FetchLaws` its inductive
  invariant, `FetchTheorems` what callers get from it over every run, and `FetchSteps`
  what each step does, read off the table, the channels and the waiters. `SharedState`
  composes store, update transactions and `fetch`; `StoreMeans` says what each operation
  does in times, bytes and order of use, without the reference's own vocabulary;
  `StoreRuns` and `StoreHistory` say what holds of the store over runs, and `CasByValue`
  what `cas` does in one.
- **`lur.text`** — many-to-many literal replacement. `TextSpec` scans the pair list at
  each position; `TextMatcher` is the byte trie with its pruning and the replace loop;
  `TextParts` is the one way to cut a text that the output is made from.
- **`lur.xml`** — `XmlTree` says what events denote, `XmlDoc` builds the arena,
  `XmlWalk` walks it with explicit stacks, `XmlPath` and `XmlSelect` read and evaluate
  slash paths, `XmlWays` says exactly when a selection is in document order, and
  `XmlOrder` the same in simpler terms for paths that end in child steps. `XmlReading`
  says of the events alone which stream is refused, why, and what text is read.
- **`lur.validate`** — `ValidateSpec` is the check without a limit on issues,
  `Validate` the checker that collects a hundred, `ValidateLaws` normalization.
  `ValidateMeans` is what a schema makes of a value and what is wrong with one, as
  relations; `ValidateWhole` and `ValidateSays` prove the check returns the one and
  reports the other, in order.
- **The HTTP response cache** — `HttpCacheSpec` drops what has expired by looking at
  every entry, `HttpCache` skips the scan when a lower bound allows it, and
  `HttpCacheMeans` says what a put and a get do in bytes and times.
- **`lur.serve` routing** — `Router`; `RoutePatterns` is how paths and patterns read.
- **`lur.async`** — `AsyncDrive`, the windowed scheduler and the calls built on it.

`Prelude` and `Recency` hold what several of these share: ordered-map iteration, sums
over maps, and a tick index read as a recency list.

Time is a natural number of milliseconds passed to each operation. Keys, loaders,
loaded values and errors are arbitrary values. Where the code is a loop over mutable
state the model is a method on a class or a loop with invariants, proved against a
function; what the source promises is then proved about that function.

Where the code and its documentation disagree, the model follows the code:

- `state.rs:445-446` says a write that fails changes nothing. The sweep and
  `drop_expired` may already have removed dead entries and expired evictable ones:
  `StateLaws.FailedWriteCanDrop` is such a write, `StateLaws.FailedWriteIsExact` says
  for every store and write exactly when a failed one changes nothing, and
  `StateLaws.PutSparesFresh` what it never touches.
- `state.rs:163-165` says `earliest` bounds every entry. A scan leaves stale entries
  that may not be evicted behind its new mark: `StoreHistory.EarliestMayMissStale` is a
  run of calls (a `fetch`, an `incr` that pins the entry, a `set` that finds no room)
  after which one is missed. `StoreHistory.RunKeepsScanBound` is the true invariant
  (every entry that is evictable or had not expired at the last scan is bounded), and
  `StoreHistory.EarliestIsExact` says exactly when the comment holds.
- `state.rs:747` says `cas` compares and sets by value. It compares by value under one
  lock and sets by version under the next: `CasByValue.CasCanRefuseEqual` is a run in
  which it refuses although the key held the expected value all along,
  `CasByValue.RefusedThoughEqual` says exactly when, and `CasByValue.CasValueIsExact`
  that a `cas` that does not refuse is atomic.
- `serve.rs:909` says overlapping patterns are those that can match the same request.
  `/u/:id` and `/u/new` share a request and do not overlap
  (`Router.SharingIsNotOverlapping`); the exact meaning is `Router.OverlapsMeans`.
- `README.md:399` says selections are in document order. A child step after a
  descendant step can break that: `XmlOrder.OrderCanBreak` is a document where it does.
  `XmlWays.OrderIsExact` is the exact condition, for every path. In simpler terms,
  `XmlSelect.DocumentOrder` gives a class of paths for which it holds on every document,
  and `XmlOrder.TrailingChildStepsOrder` the condition for every path that ends in a run
  of child steps after steps of that class.
- A validated result does not always validate again. `parse_int_value` tests
  `n.abs() <= MAX_SAFE_INT` on an `i64`; the release profile does not check overflow,
  so the digits of -2^63 pass once, and the number they become is refused the second
  time. `ValidateLaws.NormalizationIsIdempotent` says exactly when this happens.
- A response too big for the cache is not stored, and an older response under its key
  stays: "last put" in `HttpCacheSpec` means last put that was stored.

## Model

| member | source | states |
|---|---|---|
| StateStore.Inner.Remove | src/capabilities/state.rs:364-371 | removing a key takes it from the map, the recency list and the byte total, and nothing else |
| StateStore.Inner.DropDead | src/capabilities/state.rs:373-386 | exactly the entries past expiry and stale window go |
| StateStore.Inner.DropExpired | src/capabilities/state.rs:388-412 | if the mark allows a skip nothing changes; else the dead and the expired evictable entries go and the mark becomes the earliest expiry still ahead |
| StateStore.Inner.Live | src/capabilities/state.rs:416-426 | a fresh entry is returned; a stale one is invisible but kept; a dead one is removed |
| StateStore.Inner.Touch | src/capabilities/state.rs:428-438 | an evictable entry moves to the most recent end of the list; others do not move |
| StateStore.Inner.Version | src/capabilities/state.rs:440-443 | the version of a fresh entry, 0 for anything a reader cannot see |
| StateStore.Inner.WriteMeta | src/capabilities/state.rs:472-498 | expiry, stale window and evictability of a write, inherited from the live entry as its options say; what each option comes to is `StoreMeans.PutMeans` |
| StateStore.Inner.Over | src/capabilities/state.rs:500-504 | whether the store with this write would break a cap, from the running totals |
| StateStore.Inner.PlanEvictions | src/capabilities/state.rs:534-561 | the shortest least-recently-used prefix of the other evictable entries that makes room, or none; the store is unchanged |
| StateStore.Inner.MakeRoom | src/capabilities/state.rs:508-530 | expired entries go first; then exactly the planned victims, counted; on failure no live entry goes |
| StateStore.Inner.InsertFresh | src/capabilities/state.rs:564-595 | the entry gets the next version, replaces the old one in the totals and is listed last iff evictable |
| StateStore.Inner.Put | src/capabilities/state.rs:447-468 | a whole write or delete is the reference store's, with the indexes and totals kept exact; what that is, `StoreMeans.PutMeans` |
| StateStore.Inner.Get | src/capabilities/state.rs:676-681 | the fresh value, which becomes most recently used: `StoreMeans.GetMeans` |
| StateStore.Inner.Incr | src/capabilities/state.rs:688-713 | adds to the live counter (0 if absent); not a number, outside 64 bits or no room is an error that writes nothing: `StoreMeans.IncrMeans`, and over runs `StoreRuns.FixedWindow` |
| StateStore.Inner.Snapshot | src/capabilities/state.rs:715-721 | the live value and its version, read together |
| StateStore.Inner.CompareAndSet | src/capabilities/state.rs:723-745 | writes iff the version is still the expected one: `StoreMeans.SwapMeans` |
| StateStore.Inner.Lookup | src/capabilities/state.rs:775-789 | fresh, stale or absent; only a fresh hit counts as a use: `StoreMeans.LookupMeans` |
| StoreMeans.GetMeans | src/capabilities/state.rs:676-681 | the value is answered iff the entry has no expiry or it lies ahead; the entry goes iff its expiry and stale window are over, and no other does |
| StoreMeans.LookupMeans | src/capabilities/state.rs:775-789 | an expired value is answered as stale until expiry and stale window are over, not at that moment |
| StoreMeans.SnapshotMeans | src/capabilities/state.rs:715-721 | the value and version of an entry that has not expired, or none and 0 |
| StoreMeans.PutMeans | src/capabilities/state.rs:447-595 | a whole write: which entries the sweep, the key itself and the scan clear, by time; that it is refused iff its bytes alone are over the cap or no number of evictions makes room; else that the fewest least recently used go; and the new entry: version, bytes, and for each option whether expiry, stale window and evictability are given, kept or dropped |
| StoreMeans.DeleteMeans | src/capabilities/state.rs:450-453 | writing nothing removes the key and only it |
| StoreMeans.IncrMeans | src/capabilities/state.rs:688-713 | the sum with the number a reader sees (0 for none) is returned and stored as any value; an error iff that is no number or the sum leaves 64 bits |
| StoreMeans.SwapMeans | src/capabilities/state.rs:723-745 | writes as any write does iff the version a reader sees is the one expected |
| StoreMeans.LoadedMeans | src/capabilities/state.rs:888-905 | what a leader loaded is stored, as any value, iff a reader would see none |
| StoreRuns.CapsHold | src/capabilities/state.rs:500-561 | after every run the bytes of all keys, values and 64 for each entry add up to no more than the cap, and so does their number |
| StoreRuns.FixedWindow | src/capabilities/state.rs:481-484 | while a counter is only incremented with an expiry set if unset, and not evicted, its expiry stays the first and its value is the first plus all that was added; from that moment it reads as absent |
| StateLaws.PutKeeps | src/capabilities/state.rs:447-468 | a write keeps the list in bijection with the evictable entries, versions below the last one, sizes exact and the caps; it leaves one entry with a new version, or only removes |
| StateLaws.EvictionIsExact | src/capabilities/state.rs:508-561 | once expired entries are gone, a write fails iff it and the other non-evictable entries break the caps; else exactly the shortest least-recently-used prefix that makes room goes |
| StateLaws.NoPlanIffPinnedTooMuch | src/capabilities/state.rs:534-561 | planning finds no victims iff even evicting every evictable entry leaves too much |
| StateLaws.PlanMeansRoom | src/capabilities/state.rs:534-561 | the planner's running arithmetic is the count and weight of what eviction really leaves |
| StateLaws.PutSparesFresh | src/capabilities/state.rs:445-468 | a write never touches another fresh non-evictable entry, and a failed one touches no fresh entry; when a failed one changes nothing at all is the next row |
| StateLaws.FailedWriteIsExact | src/capabilities/state.rs:445-468 | a failed write leaves the entries and the list as they were iff its key held nothing dead, no sweep with dead entries was due, and, unless it was too big by itself, the scan had nothing to drop |
| StateLaws.FailedWriteCanDrop | src/capabilities/state.rs:445-468 | a store written once from empty, and a write to it that fails and drops its entry |
| StateLaws.SkippedScanFindsNothing | src/capabilities/state.rs:388-395 | whenever the expiry scan is skipped no evictable entry has expired |
| StoreHistory.ListIsOrderOfUse | src/capabilities/state.rs:428-438 | over every run the recency list holds exactly the evictable entries, in the order of their last get, lookup, join or write |
| StoreHistory.RunKeepsScanBound | src/capabilities/state.rs:388-412 | over every run `earliest` bounds every entry that is evictable or had not expired at the last scan, and lies after that scan if the clock never runs back |
| StoreHistory.SkippedScanLeavesOldOnly | src/capabilities/state.rs:388-395 | a skipped scan leaves expired only entries that are not evictable and had already expired at the last scan |
| StoreHistory.EarliestIsExact | src/capabilities/state.rs:163-165 | on a clock that never runs back `earliest` bounds every entry iff none is left that had expired at the last scan |
| StoreHistory.EarliestMayMissStale | src/capabilities/state.rs:163-165 | a run of calls, each with options a caller can give, after which `earliest` misses an entry that expires |
| SharedState.ActKeepsInv | src/capabilities/state.rs:653-853 | every action of every caller, at any time, keeps the invariants of store, versions, pending updates and flights together |
| SharedState.RunKeepsInv | src/capabilities/state.rs:653-853 | so every state of every run satisfies them |
| SharedState.NoAba | src/capabilities/state.rs:715-745 | if the version an update read is still current, the live value (or absence) is the one it read, however often the key was deleted, recreated or expired meanwhile |
| SharedState.UpdateIsAtomic | src/capabilities/state.rs:1369-1384 | an update that commits is one atomic application of its function to the value live at that moment |
| CasByValue.CasValueIsExact | src/capabilities/state.rs:747-760 | in every run, `cas` finds a difference iff what it read is not the value expected, or the key was written between its two steps, or is gone, or (expected absent) has come; else the value live at its second step is the one expected and the write is one atomic put |
| CasByValue.RefusedThoughEqual | src/capabilities/state.rs:747-760 | with the expected value live at both steps, `cas` refuses iff a value was expected and the key was written in between |
| CasByValue.CasCanRefuseEqual | src/capabilities/state.rs:747-760 | a run in which `cas` refuses although the expected value was live all along |
| SharedState.FetchNeverOverwritesFresh | src/capabilities/state.rs:892-911 | what a loader returns is stored only where nothing fresh is, and a fresh value written during the load stays |
| SharedState.ActSparesPinned | src/capabilities/state.rs:500-561 | no action but a write to its own key changes a non-evictable entry without expiry |
| SharedState.PinnedSurvives | src/capabilities/state.rs:500-561 | over any run such an entry keeps its value and version until its own key is written |
| WaitGraph.WaitsFor | src/capabilities/state.rs:320-341 | the search ends and says yes iff some key of the chain is reachable from the wanted key along wait edges |
| WaitGraph.AddingKeepsAcyclic | src/capabilities/state.rs:320-341 | edges to a key from keys it does not reach close no cycle |
| WaitGraph.SomeFlightIsIdle | src/capabilities/state.rs:320-341 | a non-empty acyclic table has a flight that waits on no flight |
| FlightDesk.FlightTable.Edge | src/capabilities/state.rs:342-358 | each leadership of the chain still in the table gains or loses one wait on the key; counts that reach zero go; counted by how often the chain names each |
| FlightDesk.FlightTable.RemoveFlight | src/capabilities/state.rs:936-944 | the flight leaves the table and its owner's counts; that the counts stay those of the table is `FetchLaws.StepKeepsInv` |
| FlightDesk.FlightTable.TakeFlight | src/capabilities/state.rs:928-934 | only the very leadership named is taken; what that means for stale guards is `FetchTheorems.StaleGuardIsHarmless` |
| FlightDesk.FlightTable.EndFlights | src/capabilities/state.rs:235-251 | exactly the VM's flights at that depth or deeper leave, whatever the order |
| FlightDesk.FlightTable.Resumed | src/capabilities/state.rs:253-263 | the scan runs only if the VM has nested flights; that this removes what a full scan would is `FetchLaws.SweepIsExact` |
| FlightDesk.FlightTable.EndRun | src/capabilities/state.rs:266-281 | the scan runs only if the VM leads anything, and the depth returns to zero; that nothing is left is `FetchLaws.EndRunIsExact` |
| FlightDesk.FlightTable.EnterResume | src/capabilities/state/resume.rs:225-234 | one resume deeper; that no flight is ever deeper than its VM is `FetchTheorems.NothingOutlivesItsResume` |
| FlightDesk.FlightTable.ReturnFromResume | src/capabilities/state/resume.rs:235-242 | back to the depth before, then the flights started inside the resume are handed off: `FetchTheorems.NothingOutlivesItsResume` |
| FlightDesk.FlightTable.Join | src/capabilities/state.rs:809-852 | lead a new flight iff the key is not in the table; load inline, changing nothing, iff a key of the chain is reachable from it; else wait on the flight in the table, whose counts alone move |
| FetchStore.SharedStore.Join | src/capabilities/state.rs:800-853 | under one lock: a fresh value is a hit and joins nothing; otherwise lead, load inline or wait by the same three conditions on the table |
| FetchStore.SharedStore.Finish | src/capabilities/state.rs:888-916 | store if nothing fresh is there, then end the flight; published iff the table still holds this leadership |
| FetchStore.SharedStore.DropLead | src/capabilities/state.rs:918-926 | a dropped leader takes only its own flight and stores nothing |
| FetchStore.SharedStore.DropWait | src/capabilities/state.rs:946-960 | a waiter that stops takes back exactly its edges |
| FetchSteps.JoinMeans | src/capabilities/state.rs:800-852 | at every point of every run a caller leads a new flight, for its VM and at its resume depth, iff its key is not in the table; waits on exactly the flight there, inside its chain, iff there is one and no key of the chain is reachable from it (so always, outside any loader); and changes nothing, loading inline, iff one is |
| FetchSteps.StepMeans | src/capabilities/state.rs:235-358 | at every point of every run: what a finish, a dropped guard, an end of waiting, a resume entered, left and swept, and an end of run do to the table, the channels, the waiters and the depths, and that they do nothing else |
| FetchLaws.StepKeepsInv | src/capabilities/state.rs:800-960 | join, finish, guard drop, end of wait, resume enter, return and sweep, and end of run all keep: channels open iff in the table, exact wait counts, no cycle, exact per-VM counts, no flight deeper than its VM |
| FetchLaws.WaitingStaysAcyclic | src/capabilities/state.rs:809-828 | a wait the search allowed closes no cycle |
| FetchLaws.CountDown | src/capabilities/state.rs:342-358 | a stopping waiter's edges are there to take: the count never underflows and stays the number of live waiters |
| FetchLaws.SweepIsExact | src/capabilities/state.rs:253-263 | with exact counts, skipping when nothing is nested removes what a full scan would |
| FetchLaws.EndRunIsExact | src/capabilities/state.rs:266-281 | and skipping when nothing is led leaves nothing the VM owns |
| FetchTheorems.RunKeepsInv | src/capabilities/state.rs:800-960 | the invariant holds at every point of every run |
| FetchTheorems.DeadlockFree | src/capabilities/state.rs:320-358 | at every point the wait graph is acyclic, and if any flight is in the table some flight has no caller in its loader waiting on one |
| FetchTheorems.EdgesAreWaiters | src/capabilities/state.rs:946-960 | a flight's count for a key is the number of live waiters for it inside exactly this leadership: none outlives its waiter or passes to a later flight |
| FetchTheorems.NoLostWakeUp | src/capabilities/state.rs:1512-1541 | a waiter's channel is open iff the flight it joined is in the table; else its outcome or a handoff is there to see |
| FetchTheorems.OneLeader | src/capabilities/state.rs:829-852 | no two flights in the table share an id |
| FetchTheorems.ResolvedOnce | src/capabilities/state.rs:888-934 | no step changes a settled channel |
| FetchTheorems.SettledForGood | src/capabilities/state.rs:888-934 | over any run a settled channel keeps its outcome |
| FetchTheorems.StaleGuardIsHarmless | src/capabilities/state.rs:928-934 | finishing or dropping a guard whose leadership is gone changes no flight and no channel |
| FetchTheorems.EveryWaiterHears | src/capabilities/state.rs:888-926 | a leader still in the table that finishes sends its outcome, one that drops closes the channel; either way the key is free |
| FetchTheorems.NothingOutlivesItsResume | src/capabilities/state.rs:253-263 | between a VM's own steps its counts are those of the table and it leads nothing deeper than the resumes now running |
| FetchTheorems.NothingOutlivesItsRun | src/capabilities/state.rs:266-281 | after the end of a run the VM leads nothing and other VMs' flights are untouched |
| TextSpec.WinnerUnique | src/capabilities/text.rs:172-202 | whatever beats every other competitor at a position is the one a scan of the list finds |
| TextSpec.LongestReplacesAsFirstSorted | src/capabilities/text.rs:607-619 | for all pairs and texts, `longest` replaces as `first` does over the pairs stably sorted by descending length |
| TextSpec.SortIsStable | src/capabilities/text.rs:607-612 | the sort by length keeps the order of pairs of one length |
| TextSpec.SortIsSorted | src/capabilities/text.rs:607-612 | and is a descending permutation of the list |
| TextParts.ReplacedIsMade | src/capabilities/text.rs:206-245 | the output is made of the parts the text is cut into: copied bytes where no pair starts the rest, and the pair that beats all others where one does; joined, the parts are the text |
| TextParts.CutIsUnique | src/capabilities/text.rs:206-245 | and there is one way to cut a text so |
| TextMatcher.Builder.constructor | src/capabilities/text.rs:116-123 | the empty trie stands for the empty pair list |
| TextMatcher.Builder.Add | src/capabilities/text.rs:125-146 | the arena stays the trie of the pair list with the new pair last: one node per prefix, first pair per word, least index per subtree |
| TextMatcher.PruningIsSafe | src/capabilities/text.rs:186-189 | stopping at a subtree whose least index is not smaller loses no earlier pair |
| TextMatcher.Lookup | src/capabilities/text.rs:172-202 | returns exactly the pair a scan of the list would pick, with the length of its `old` |
| TextMatcher.Replace | src/capabilities/text.rs:206-245 | ends for every text; unless interrupted, too large iff the output of the reference scan exceeds the budget, else that output |
| XmlTree.ParsesBack | src/capabilities/xml.rs:82-135 | parsing the events of any element, with anything ignorable around it, gives the element with adjacent text merged and empty text gone |
| XmlTree.ParsedIsNormal | src/capabilities/xml.rs:53-63 | whatever parses is one element, with no empty text and no two texts side by side at any depth |
| XmlTree.NormalizesAll | src/capabilities/xml.rs:53-63 | merging keeps the text |
| XmlTree.NormalIsFixed | src/capabilities/xml.rs:53-63 | and changes nothing in a tree already merged |
| XmlReading.ReadingEnds | src/capabilities/xml.rs:82-135 | a stream is refused at the first event that is broken, starts a second root or has bad attributes, with that reason; else for the innermost element still open, or for having no root; else it is read |
| XmlReading.TextIsInside | src/capabilities/xml.rs:343-358 | the text of a document is all characters read while an element is open, in order |
| XmlReading.IgnoredIsNothing | src/capabilities/xml.rs:123 | events of other kinds change nothing |
| XmlReading.EmptyIsStartEnd | src/capabilities/xml.rs:92-118 | an empty-element tag reads as a start tag and an end tag |
| XmlDoc.Doc.PushText | src/capabilities/xml.rs:53-63 | text goes onto the text before it, empty text nowhere; no other node changes |
| XmlDoc.Doc.Open | src/capabilities/xml.rs:65-80 | a new last element, listed by its parent; bad attributes change nothing |
| XmlDoc.ClosingKeeps | src/capabilities/xml.rs:111-115 | an end tag moves no node: the closed element's tree is laid out where it was built |
| XmlDoc.Parse | src/capabilities/xml.rs:82-135 | for every event stream, the arena is the document-order layout of the tree read, or the error is the one reading meets |
| XmlWalk.DocumentIsLaid | src/capabilities/xml.rs:31-50 | in a parsed document ids are in document order: every subtree is a run of ids and parent and child links agree |
| XmlWalk.UnderIsRun | src/capabilities/xml.rs:301-311 | the nodes whose parent chain passes through a node are exactly the ids up to its end |
| XmlWalk.Descendants | src/capabilities/xml.rs:301-311 | appends exactly those ids, ascending, at any depth |
| XmlWalk.NodeText | src/capabilities/xml.rs:343-358 | the stack walk ends and yields the text read recursively from the arena |
| XmlWalk.DocumentText | src/capabilities/xml.rs:343-358 | for a parsed document that is the text of its tree |
| XmlWalk.EveryNodeText | src/capabilities/xml.rs:343-358 | and at any node the text of the subtree laid out there |
| XmlPath.ParsePath | src/capabilities/xml.rs:233-271 | succeeds with the one step list that is written as the path; fails iff there is none |
| XmlSelect.SelectionIsExact | src/capabilities/xml.rs:313-341 | a node is selected iff the steps lead to it |
| XmlSelect.SelectionIsDistinct | src/capabilities/xml.rs:326-334 | and no node is selected twice |
| XmlSelect.DocumentOrder | src/capabilities/xml.rs:313-341 | selections are in document order whenever no child step follows a descendant step |
| XmlWays.SelectionOrder | src/capabilities/xml.rs:313-341 | of two selected nodes, the first listed is the one that has, for each way to the other, a way to itself that is earlier in the document |
| XmlWays.OrderIsExact | src/capabilities/xml.rs:313-341 | for every path and document: the selection is in document order iff, of any two nodes the path denotes, the earlier in the document has an earlier way for each way to the later |
| XmlOrder.SelectedJoin | src/capabilities/xml.rs:313-341 | from two disjoint lists of nodes, child steps select the one selection after the other |
| XmlOrder.TrailingChildStepsOrder | src/capabilities/xml.rs:313-341 | the case of every path ending in any run of child steps after such steps, without ways: order holds iff no two nested matches, outer and inner, have the inner's node at or before the outer's |
| XmlOrder.ChildStepOrder | src/capabilities/xml.rs:313-341 | from nodes in document order, a child step keeps order iff no outer one has a wanted child after an inner one that has one too |
| XmlOrder.LastChildStepOrder | src/capabilities/xml.rs:313-341 | so for a single last child step, in terms of what the steps before it denote |
| XmlOrder.OrderCanBreak | src/capabilities/xml.rs:313-341 | a document and path whose selection is not in document order |
| XmlSelect.Gather | src/capabilities/xml.rs:317-325 | the candidates of a step, node by node |
| XmlSelect.Filter | src/capabilities/xml.rs:326-334 | each candidate with the right name, the first time it is seen |
| XmlSelect.Select | src/capabilities/xml.rs:313-341 | the selection of the steps the path is written as (or its first node), or an error iff the path has none |
| ValidateSpec.ValueIffNoIssue | src/capabilities/validate.rs:287-345 | a check that is not aborted returns a value iff it records no issue |
| ValidateSpec.NeverTooDeep | src/capabilities/validate.rs:907-914 | with schemas no deeper than the constructors allow, the depth limit is never reached |
| ValidateMeans.ReadIntMeans | src/capabilities/validate.rs:585-610 | a value reads as the integer it spells in decimal or is, within 2^53 of zero or, spelled, -2^63; otherwise it is out of range if it stands for an integer and not one if it does not |
| ValidateMeans.BoundedMeans | src/capabilities/validate.rs:612-639 | a number within the bounds is kept; else it is the bound it is beyond, with `clamp`, or told that bound, the lower first |
| ValidateMeans.ClampIsNearest | src/capabilities/validate.rs:612-639 | with bounds in order, clamping gives the nearest number within them |
| ValidateMeans.IntMeans | src/capabilities/validate.rs:575-583 | an `int` gives the default for a blank, or what the bounds make of the integer; or says which of these failed |
| ValidateMeans.NumMeans | src/capabilities/validate.rs:641-680 | the same of a `number` |
| ValidateMeans.StrMeans | src/capabilities/validate.rs:516-550 | a string is kept iff its length is within both bounds and the pattern is found; each that fails is told |
| ValidateMeans.BoolMeans | src/capabilities/validate.rs:432-463 | a boolean is itself, `"true"` is true, `"false"` is false, anything else is told; a literal is kept iff it is listed |
| ValidateWhole.ValidatedTakes | src/capabilities/validate.rs:287-345 | for every accepted schema and every value, validation gives a result iff the schema takes the value to it, through lists, objects, optionals and functions |
| ValidateWhole.ValidatedReports | src/capabilities/validate.rs:287-345 | and every issue is something wrong at its own place, every such thing is an issue unless the check is cut short, and it is cut short iff something breaks |
| ValidateSays.ValidatedSays | src/capabilities/validate.rs:287-345 | the issues come once each: item by item, field by field, then unknown key by key |
| Validate.Checker.Fail | src/capabilities/validate.rs:136-145 | what is kept is the first hundred of all issues reported, truncated iff there are more |
| Validate.Checker.CheckFunc | src/capabilities/validate.rs:391-407 | a function's value, its rejection as an issue, or an error that propagates |
| Validate.Checker.CheckStr | src/capabilities/validate.rs:516-550 | length and pattern issues of a string, in order; which, `ValidateMeans.StrMeans` |
| Validate.Checker.CheckBool | src/capabilities/validate.rs:432-446 | a boolean, or the one its text spells: `ValidateMeans.BoolMeans` |
| Validate.Checker.CheckOneOf | src/capabilities/validate.rs:448-463 | the value itself if a literal matches: `ValidateMeans.BoolMeans` |
| Validate.Checker.ParseIntValue | src/capabilities/validate.rs:585-610 | the integer a string or number stands for, or which of the two failures it is: `ValidateMeans.ReadIntMeans` |
| Validate.Checker.ApplyBounds | src/capabilities/validate.rs:612-639 | clamped or rejected, `min` before `max`: `ValidateMeans.BoundedMeans` |
| Validate.Checker.CheckInt | src/capabilities/validate.rs:575-583 | default, parse and bounds of an `int`: `ValidateMeans.IntMeans` |
| Validate.Checker.CheckNumber | src/capabilities/validate.rs:641-680 | default, parse and bounds of a `number`: `ValidateMeans.NumMeans` |
| Validate.Checker.CheckList | src/capabilities/validate.rs:754-788 | as the unlimited check of every item, or as much of it as fills the collector |
| Validate.Checker.RejectUnknownKeys | src/capabilities/validate.rs:858-886 | every key that is not a field, in order, until full |
| Validate.Checker.CheckObject | src/capabilities/validate.rs:818-856 | as the unlimited check of every field and, if strict, key |
| Validate.Checker.Check | src/capabilities/validate.rs:287-345 | for every schema and value the collector ends with what the unlimited check would have put there, cut at the limit; the value is the unlimited check's; what that says of schema and value, `ValidateWhole.ValidatedTakes` and `ValidateSays.ValidatedSays` |
| Validate.Try | src/capabilities/validate.rs:1286-1330 | valid with what the schema takes the value to, and nothing else; or the first hundred of all that is to be said of it, in order, and whether there are more; or an error where something breaks |
| ValidateLaws.CheckedAgain | src/capabilities/validate.rs:575-680 | a result checked again, at any path, is returned unchanged, or has an issue where the least 64-bit integer was let through |
| ValidateLaws.NormalizationIsIdempotent | src/capabilities/validate.rs:351-367 | for accepted schemas without defaults, functions or optional list items, a result validates as itself iff no `int` without `min` was given the digits of -2^63 |
| ValidateLaws.LeastIntegerIsNotStable | src/capabilities/validate.rs:585-596 | the digits of -2^63 are accepted, and the number they become is out of range |
| HttpCacheSpec.PutIsExact | src/capabilities/http.rs:409-460 | a put that fits alone leaves the caps kept, its entry held and most recent, and everything unexpired but the shortest least-recently-used stretch that had to go; in bytes and times, `HttpCacheMeans.PutMeans` |
| HttpCacheSpec.RunKeepsInv | src/capabilities/http.rs:292-302 | after every run of get, put and clear the list mirrors the entries, the caps hold and every entry is the last stored under its key; of the bytes themselves, `HttpCacheMeans.CapsHold` |
| HttpCacheSpec.HitIsLastStore | src/capabilities/http.rs:389-407 | a hit is the response last stored under the key and not cleared since, still unexpired |
| HttpCacheSpec.ListIsOrderOfUse | src/capabilities/http.rs:400-407 | over every run the list holds the cached keys in the order of their last hit or put |
| HttpCacheSpec.UncappedIsExact | src/capabilities/http.rs:389-460 | with no limits and a clock that never runs back, a get answers iff that response exists |
| HttpCacheMeans.PutMeans | src/capabilities/http.rs:409-460 | a put is refused, changing nothing, iff key, headers and body as one byte string are longer than the cap; else the response is stored until its time is up and most recent, expired ones having gone once a minute or where there is no room, and then the fewest least recently used |
| HttpCacheMeans.CapsHold | src/capabilities/http.rs:384-460 | after every run the bytes of all keys, headers and bodies, and the number of entries, are within the caps |
| HttpCacheMeans.GetMeans | src/capabilities/http.rs:389-407 | a response is answered iff its time is not up; else it goes |
| HttpCacheMeans.SweepMark | src/capabilities/http.rs:422-428 | the time of the last sweep is that of the last put that swept |
| HttpCache.ResponseCache.Remove | src/capabilities/http.rs:310-315 | the entry leaves map, list and total |
| HttpCache.ResponseCache.DropExpired | src/capabilities/http.rs:317-332 | drops exactly what an unconditional scan would, though it may skip the scan |
| HttpCache.ResponseCache.Over | src/capabilities/http.rs:384-387 | whether a cap is broken, from the running total |
| HttpCache.ResponseCache.Get | src/capabilities/http.rs:389-407 | an unexpired response, now most recent; an expired one is dropped |
| HttpCache.ResponseCache.Trim | src/capabilities/http.rs:452-459 | evicts exactly the shortest least-recently-used stretch that brings the caps back |
| HttpCache.ResponseCache.Put | src/capabilities/http.rs:409-460 | a whole put is the reference cache's, which scans every time; index, total and bound stay exact; what that is, `HttpCacheMeans.PutMeans` |
| HttpCache.ResponseCache.Clear | src/capabilities/http.rs:463-471 | empties the cache and says how many entries it held |
| Router.PathSplits | src/serve.rs:842 | a path made of pieces splits back into them |
| RoutePatterns.PiecesJoin | src/serve.rs:842 | a slash ends a piece wherever it stands: the pieces of two paths joined by one are theirs together |
| RoutePatterns.SegMeans | src/serve.rs:864-884 | `:name?` is an optional param, other `:name` a required one, anything else itself |
| RoutePatterns.ParsedMeans | src/serve.rs:864-899 | a path is refused iff some param has no name, which is told first, or something not optional follows an optional param |
| Router.ParsePattern | src/serve.rs:864-899 | the segments of a pattern, or whether a name is missing or an optional param misplaced; how pieces read is `RoutePatterns.SegMeans` |
| Router.MatchPattern | src/serve.rs:922-937 | with optional params last: gives exactly the params the pattern serves the request with, each under its name and decoded, and none iff it does not serve it |
| Router.MatchMeans | src/serve.rs:922-937 | a match is: each piece has a segment, a static one being that piece; what is left over is optional; the params are the pieces in their places, by name and decoded |
| Router.MoreSpecificMeans | src/serve.rs:941-950 | a route is more specific iff a static segment of its stands against a param at the first place where kinds differ, or kinds agree and only it names a method |
| Router.MinLen | src/serve.rs:902-907 | how many segments come before the first optional param |
| Router.OverlapsMeans | src/serve.rs:910-920 | two patterns overlap iff some request path is served by both and static segments stand against static ones as far as both go |
| Router.SharingIsNotOverlapping | src/serve.rs:909-920 | patterns that match a common request need not overlap |
| Router.SpecificityIsTotal | src/serve.rs:941-950 | of two routes answering one request, exactly one is more specific |
| Router.SpecificityIsTransitive | src/serve.rs:941-950 | and among routes that fit one request the order is transitive and irreflexive |
| Router.RegistrationsDiffer | src/serve.rs:813-836 | no method and path is accepted twice |
| Router.Build | src/serve.rs:814-837 | accepts exactly the lists whose patterns parse and whose routes of a method never overlap; an error names the first that cannot be added |
| Router.Resolve | src/serve.rs:840-858 | the one route that takes the request and outranks every other that does (a static segment where kinds first differ, else a method where the other takes any), with its params; nothing iff none takes it |
| Router.LiteralWins | src/serve.rs:840-858 | a route that spells the request out, under its own method, is the one chosen, whatever else is registered |
| Router.AcceptanceIgnoresOrder | src/serve.rs:814-837 | a permutation of an accepted list is accepted |
| Router.OrderOfRegistrationIsIrrelevant | src/serve.rs:839-858 | for every permutation the resolver's answer to a request has the same method, pattern and params, or is none |
| AsyncDrive.Drive | src/capabilities/async_ops.rs:76-99 | for every order of completion, the history is one the window allows and ends with all tasks reported and recorded, or at the first that breaks |
| AsyncDrive.WindowHolds | src/capabilities/async_ops.rs:76-99 | at every moment at most a window is in flight, starts are a prefix in order, and nothing is reported twice or before its start |
| AsyncDrive.NoneIdle | src/capabilities/async_ops.rs:76-99 | and a result is waited for only with the window full or nothing left to start; a window of none is one |
| AsyncDrive.EachReportedOnce | src/capabilities/async_ops.rs:76-99 | a history that ends without a break reported every index exactly once |
| AsyncDrive.NothingAfterBreak | src/capabilities/async_ops.rs:94-97 | nothing starts or is reported after a break |
| AsyncDrive.OneAtATime | src/capabilities/async_ops.rs:85-93 | with a window of one, tasks are reported in order |
| AsyncDrive.Settled | src/capabilities/async_ops.rs:220-248 | every outcome in input order, whatever the schedule |
| AsyncDrive.All | src/capabilities/async_ops.rs:184-218 | every result in input order if all succeed; else the error of a task that failed, the first one if they run one at a time |
| AsyncDrive.Map | src/capabilities/async_ops.rs:436-475 | the results of exactly those that succeed, in input order, with failures dropped or raised |

## Left out

- Lua itself: values, userdata, coroutines and garbage collection (`wait_same_vm` and its collections); a guard dropped by a collection is the step that drops it.
- tokio, locks and poisoning: an operation that holds the lock is one step; that every started task and loader ends is not proved.
- `Instant` overflow fallbacks in `add_ms` and the cache's expiry: times are natural numbers and TTLs positive.
- Floating point: numbers are reals or opaque; nothing is claimed of counters beyond 2^53, and decimal float parsing is an unknown function.
- `ttl`, `stats` and the hit and miss counters.
- Numbers compare as `f64` in `cas`; here values are equal or not.
- The map and the flight table of `Inner` are two objects here, used together by `SharedStore` as under the one lock.
- `VmLeads` is a map from a VM to its counts rather than one shared object per VM.
- StateStore.Inner.EvictAll: removes victims through the map; the source also drops each from `order` first, which the removal repeats.
- Error texts everywhere.
- TextMatcher.Builder.Add: pair and node numbers are unbounded; the source narrows them to 32 bits, so more than 2^32 - 2 pairs or nodes are not modelled, and the byte estimates are left out.
- Keyed and shared replacers, their registry and memory accounting.
- XmlDoc.Doc.Open: an arena past 2^32 elements is an error in the source and not modelled.
- XML bytes to events (decoding, entities, attribute syntax, positions): the model starts at the reader's events, and names and attributes are given.
- Validate.Try: where more than a hundred issues come before something that breaks, the contract leaves open whether the report or the error ends it.
- Messages, display paths and the truncation of echoed input in `validate`; an issue is its position and kind.
- Validator functions and `string.find` are unknown functions of their arguments: one that changes its mind between calls is not modelled.
- Luau's table length: a table is a list when its keys are exactly 1 to n; tables whose border differs from their count of keys are not modelled.
- Response transport, cache keys, header policy and everything else in `http.rs` but the cache.
- Percent-decoding and upper-casing in the router are unknown functions.
- `race` and `any` in `lur.async`, which are one-line uses of the same loop, and the global concurrency permits.
- SQL storage, file system policy, HTML, feeds, crypto, time zones, configuration and the command line.
