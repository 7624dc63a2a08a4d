# Verified model of the listing and versioning engine

This project models the stateful core of an S3 metadata library in Dafny and proves what
it is for. Each part of the program reaches a simple result by an indirect route; the
project states the simple result separately and proves that the route leads there.

| part | files | main results |
|---|---|---|
| Strings and keys | `Strings`, `Keys`, `Paging` | lexicographic order, `inc`, prefixes as ranges |
| Gap cache | `Gaps`, `GapWeights`, `GapSet`, `GapExposure`, `GapDelivery`, `GapCache`, `GapTransparency` | what `setGap` covers and weighs, what lookups find while the set changes; over whole runs, that no stale key is exposed and that recorded keys are exposed after two ticks; that listings may rely on what lookups answer |
| Listing of current versions | `MasterListing`, `DelimiterMaster`, `CurrentListing`, `LeftGap`, `Skip`, `ListingPages`, `WrappedRange`, `EndlessPages`, `PagedListing` | the state machine lists exactly the live objects, with any gaps and safe jumps, rereading included; exactly which jumps are safe; what each page and all pages together return |
| Listing of all versions | `VersionListing`, `DelimiterVersions`, `VersionPages` | every version once, in order, with any jumps; exactly when a page misses nothing, and what is returned |
| Versioned layout | `Versions`, `MasterRepair`, `SurvivingVersions`, `LateRepair`, `IsolatedRead`, `SpecificPut`, `VersioningRequestProcessor` | the master entry stays right in every interleaving with isolated reads, with the ids that the generator issues, exactly which late reads do harm, and when a read through the write cache is one; exactly which versions survive a run; a put updates one version |
| Version ids | `VersionIds`, `VersionIdEncoding`, `VersionIdDigits` | exactly when ids decrease; what is in an id; encoding round trip |
| Batching and isolation | `WriteGatheringManager`, `WriteGatheringRun`, `WriteCacheState`, `WriteCache`, `WriteCacheRun`, `StaleRead` | in every run, requests are answered once and in order; in a queue, readers see the writes of earlier ones; exactly when a write stays in the cache, and a read that misses one |
| Streams and processes | `MergeStream`, `V1Format`, `ClusterRPC`, `ClusterBroadcast` | the merge is complete, never stuck, and restores the order of keys; a broadcast reaches every worker once, gathers one result of each, and is answered |
| LRU cache | `LRUCache` | a linked list that keeps order of use |

`dafny verify dfyconfig.toml` checks all of it.

## How to read it

Code that changes state is a class whose methods are proved against functions of the old
state: `GapSets.GapSet` against the functions of `Gaps`, `GapCaches.GapCache` against the
steps of `GapExposure`, `LRUCaches.LRUCache` against `Recency`. Where the source has several parties
or callbacks in any order, there is a machine of events and a theorem about all its runs.
The listing machines carry the raw entries they are to read as a ghost field; their
invariant says that what was listed, followed by what the rest of the entries still gives,
is the whole listing.

Strings are sequences of 16-bit code units in lexicographic order. A stored value is a
datatype with the fields that the code looks at. Time, the answers of the database, the
order of messages, and whether a possible jump is taken are parameters, and the theorems
hold for all of them.

## Where the code falls short

These are properties of the code as it is, each with its exact condition or an input that
shows it.

- `setGap` can lose keys in one case: it starts a fresh gap on a single-key gap already
  stored there, and the ordered set keeps the old one. `SetGapExact` says exactly when
  the covered keys come out right; `SetGapInventsNothing` holds in every case.
- `setGap` forgets weights at single-key gaps: a request that ends on one, although it
  overlaps nothing, replaces the weight of that gap and of the one it extends by its own
  (`WeightIsConserved` and `Forgotten` say how much is lost, and when nothing is). And when a
  request ends inside a gap, the gap recorded for it exceeds the limit if and only if what it
  takes over on its left does (`RecordedIsWithinExactly`).
- `removeOverlappingGaps` does nothing when the empty string is among the keys, because the
  loop condition takes it for the end (`RemoveOverlappingExact`); a stale gap then stays
  exposed. `SafeBatchExactly`: a batch of updates is safe to report, in every otherwise legal
  run, if and only if the empty string is not in it.
- `inc` wraps around at the code unit 0xFFFF, and the range of a prefix that ends with it
  is not the prefix (`PrefixIsRangeExactly`). A listing under such a prefix lists nothing
  (`WrappedPrefixExactly`), and with a delimiter that ends with it a page that follows a
  common prefix starts with the same one again, if an object under it has a longer key
  (`WrappedDelimiterRepeats`). `FollowingEndsExactly`: following the markers then comes to an
  end if and only if pages hold more than one key, or no such prefix comes before another
  item.
- After leaving a cached gap the current-version listing has no master key, and its skip
  target is made of the text "undefined". The jump goes on from the first of all entries at
  or after that, and may go back. `JumpToUndefinedExactly`: whatever follows, the same is
  listed if and only if the last key read is not before "undefined" and, of what has been
  read at or after the target, nothing is an object or may still turn out to be one.
  `LeftGaps.LoseObject` is a run in which an object gets lost, and `LeftGaps.ListTwice` one
  in which an object is listed twice.
- A listing of versions with a key marker and no version id marker starts beyond the key
  followed by "\x01" and not at it. `VersionPages.RangeListsItemsAfter` says exactly when
  nothing is missed; `NextKeyIsMissed` is an input for which something is. Markers returned by
  the listing itself are never affected.
- A listing of versions may call itself truncated with nothing left; the next page is then
  empty. `TruncatedExactly`: this happens if and only if the page is full and the last entry
  to list is the version entry with the id of its master entry.
- The write cache does not isolate updates from all writes: a write that releases waiting
  readers leaves the cache when these are done, unless one of them writes the key, although
  the database is still to write it (`WriteOne` and `Batch` say exactly when a write stays in
  the cache). The next reader gets an older value from the database (`StaleReads.ReadStale`).
  `ReadIsIsolatedExactly`: a reader gets the last write of its key unless its value goes back
  to a database answer that was older than that.
- So a repair may have read a placeholder that is no longer there, and then put an older
  version above the newest one (`LateRepairs.LateRepairRun`). `LateRepairExactly`: a late
  repair leaves the master right if and only if the suggested version is still the newest, if
  it is still there. `LateDeleteExactly`: a late delete does, unless it has not seen that the
  deleted version is in the master entry; under a placeholder it makes the next repair go
  wrong (`LateDeleteMisleads`). `StepIsSafe` says exactly which events are harmless, and
  `HarmlessRunsStayRight` that the master is right in all runs of such events, isolated or
  not.
- A null version put is dropped when it is older than a null master; and under a regular
  master it leaves behind a null version that older software has stored under another id, so
  that there are two. `PutKeepsLayout` and `NullPutTakesEffect` say exactly when a put keeps
  one null version, and when a null put becomes it.
- More than 10^6 + 1 version ids in one millisecond break their order, and nothing else does
  (`IdsDecreaseExactly`): the millionth position is followed by one negative number that is
  still in order, and then by greater ones.
- A version id of 27 characters does not survive encoding if its replication group starts
  with a null character, which is refused, or if its position is the first negative one,
  which comes back as zeros (`VersionIdRoundTrip`, `GeneratedRoundTrip`).

## Model

| member | source | states |
|---|---|---|
| Strings.FractionIsOrder | lib/algos/list/delimiter.ts:154-159 | the order in which keys and bounds are compared embeds into the reals, so it is a strict total order |
| Strings.NextString | lib/algos/list/delimiterVersions.ts:462-467 | appending a NUL gives the very next string, which makes it a skip target |
| Keys.IndexOf | lib/algos/list/delimiter.ts:198-208 | the first occurrence at or after a position, or none at all |
| Keys.PrefixIsRange | lib/algos/list/tools.js:31-34 | a key starts with p exactly when p <= key < inc(p), if p can be incremented |
| Keys.PrefixIsRangeExactly | lib/algos/list/tools.js:31-34 | the range of a prefix is right for all keys exactly when its last code unit is below 0xFFFF |
| Keys.IncWraps | lib/algos/list/tools.js:31-34 | a last code unit of 0xFFFF makes inc return a smaller string |
| Keys.CommonPrefixShared | lib/algos/list/delimiter.ts:198-208 | a key that starts with a common prefix of the listing is grouped under the same one |
| Keys.CommonPrefixStarts | lib/algos/list/delimiter.ts:198-208 | a common prefix starts its key, lies beyond the listing prefix and ends with the delimiter |
| Keys.CommonPrefixExactly | lib/algos/list/delimiter.ts:198-208 | the common prefix of a key ends with the first delimiter after the listing prefix, and there is none exactly if there is no such delimiter |
| Keys.BetweenVersions | lib/algos/list/delimiterMaster.ts:493-506 | only versions of a key lie between it and one of its version keys |
| Gaps.SetGapSorted | lib/algos/cache/GapSet.ts:73-179 | setGap keeps the set sorted, neighbours at most touching, and grows it by at most one |
| Gaps.SetGapInventsNothing | lib/algos/cache/GapSet.ts:73-179 | on every branch and for every weight, only keys of the request become covered |
| Gaps.SetGapRecords | lib/algos/cache/GapSet.ts:73-179 | unless its start was refused, setGap keeps all covered keys and covers the request |
| Gaps.SetGapDetached | lib/algos/cache/GapSet.ts:89-96 | with a refused start, either nothing is lost or the key after the first one is |
| Gaps.SetGapExact | lib/algos/cache/GapSet.ts:73-179 | the covered keys become the old ones and the request exactly under the Lossless condition |
| Gaps.ClearSorted | lib/algos/cache/GapSet.ts:189-240 | dropping gaps keeps the set sorted |
| Gaps.ClearCovers | lib/algos/cache/GapSet.ts:189-240 | what stays covered lies in a gap without any of the keys |
| Gaps.RemoveOverlappingExact | lib/algos/cache/GapSet.ts:189-240 | every gap with a given key goes exactly when the empty string is not among the keys or no gap has one |
| Gaps.CoalesceIsChain | lib/algos/cache/GapSet.ts:259-286 | coalescing covers nothing new and reaches the end of the chain; it terminates with single-key gaps |
| Gaps.ChainWasCovered | lib/algos/cache/GapSet.ts:259-286 | a chain coalesced while others change the set between turns of 100 iterations has only keys that were covered at some turn, and ends where a chain ended at some turn |
| Gaps.UndisturbedChain | lib/algos/cache/GapSet.ts:259-286 | with nothing changed in between, the turns make no difference |
| Gaps.FirstGapIsClosest | lib/algos/cache/GapSet.ts:297-314 | the gap a lookup starts from holds the least covered key in range |
| Gaps.LookupFindsClosest | lib/algos/cache/GapSet.ts:297-314 | lookup returns null exactly when no covered key is in range, else a range with the least one, of keys covered at some turn of the lookup, up to an end of its chain |
| GapWeights.ReturnedIsStored | lib/algos/cache/GapSet.ts:73-179 | unless its start was refused, setGap returns a gap of the set it leaves, which holds the last key of the request |
| GapWeights.WeightIsConserved | lib/algos/cache/GapSet.ts:79-179 | a request that overlaps no gap adds exactly its weight, on the extending, merging and chaining branches alike, less what is forgotten of single-key gaps at its ends |
| GapWeights.NothingIsForgotten | lib/algos/cache/GapSet.ts:79-179 | away from single-key gaps, exactly the weight of the request is added |
| GapWeights.SeparateIsInserted | lib/algos/cache/GapSet.ts:79-118 | a request that touches no gap is stored and returned as it is, next to all others |
| GapWeights.CoveredIsKept | lib/algos/cache/GapSet.ts:79-90 | a request that a single gap holds changes nothing and returns a stored gap |
| GapWeights.ContinuingIsExtended | lib/algos/cache/GapSet.ts:85-146 | a request that starts in or at the end of a gap extends it: by its weight exactly if they touch and the sum is within the limit, else they are chained; with its own weight alone if they overlap |
| GapWeights.RecordedIsWithinExactly | lib/algos/cache/GapSet.ts:119-179 | with weights within the limit, the recorded gap exceeds it exactly when the request ends inside a gap and what is taken over on the left is too heavy |
| GapWeights.TouchingIsMerged | lib/algos/cache/GapSet.ts:136-179 | the weight of a request that does not end inside a gap: its own and that of the gap it extends, merged with the gap it touches if within the limit |
| GapWeights.OverlapIsMerged | lib/algos/cache/GapSet.ts:147-179 | the weight of a request that ends inside a gap: as much as all that is replaced, or the request if that is more; chained if too heavy |
| GapWeights.HeavyIsSplit | lib/algos/cache/GapSet.ts:97-118 | a request above the limit leaves the gap it starts in and gets the rest of its weight from there on |
| GapWeights.LookupIsSum | lib/algos/cache/GapSet.ts:259-314 | an undisturbed lookup returns a whole chain of touching gaps with the sum of their weights |
| GapSets.GapSet.SetGap | lib/algos/cache/GapSet.ts:73-179 | the four-step update in place equals the SetGap function, result and weights included |
| GapSets.GapSet.StartGap | lib/algos/cache/GapSet.ts:79-118 | step 1: where the new gap starts, and what is inserted or extended |
| GapSets.GapSet.AbsorbGaps | lib/algos/cache/GapSet.ts:119-134 | step 2: every gap up to the last key is erased and its weight taken over |
| GapSets.GapSet.FinishGap | lib/algos/cache/GapSet.ts:136-179 | steps 3 and 4: the gap is extended by key and weight, merged with the next one or chained to it |
| GapSets.GapSet.RemoveOverlappingGaps | lib/algos/cache/GapSet.ts:189-240 | the double-cursor loop leaves what the simple filter leaves, and returns the number dropped |
| GapSets.GapSet.CoalesceGapChain | lib/algos/cache/GapSet.ts:259-286 | iterations of 100 gaps follow the chain to its end, while others change the set between them |
| GapSets.GapSet.CoalesceGapChainIteration | lib/algos/cache/GapSet.ts:262-281 | one turn coalesces up to 100 gaps and says whether the chain has ended |
| GapSets.GapSet.LookupGap | lib/algos/cache/GapSet.ts:297-314 | the lookup equals the Lookup function, whatever others do to the set between its turns |
| GapExposure.ExposeIsSound | lib/algos/cache/GapCache.ts:162-175 | exposing stays within the limit and covers only keys of exposed or frozen gaps; `GapDelivery.ExposeExactly` is the converse |
| GapExposure.SurvivingIsSound | lib/algos/cache/GapCache.ts:130-142 | no key updated since the last two ticks stays in a gap about to be exposed or frozen |
| GapExposure.RunsAreSafe | lib/algos/cache/GapCache.ts:130-175 | the invariant of staging, frozen and exposed sets holds after every legal run |
| GapExposure.ExposedKeysAreFresh | lib/algos/cache/GapCache.ts:130-175 | in every legal run, each exposed key is in a recorded gap with a snapshot later than every reported update of it |
| GapExposure.StatesAreValid | lib/algos/cache/GapCache.ts:130-175 | all three sets stay sorted, however late gaps are recorded and whatever keys are updated |
| GapExposure.ExposedIsBounded | lib/algos/cache/GapCache.ts:162-175 | the exposed set never holds more gaps than the limit, in runs with any times and any updated keys |
| GapExposure.EmptyKeyBreaksSafety | lib/algos/cache/GapCache.ts:243-252 | after a batch with the empty string any key of the batch can stay exposed, stale |
| GapExposure.SafeBatchExactly | lib/algos/cache/GapCache.ts:243-252 | a batch leaves no otherwise legal run with a stale key exposed exactly when the empty string is not in it |
| GapDelivery.ExposeExactly | lib/algos/cache/GapCache.ts:162-175 | exposing loses nothing that is exposed, and adds exactly the gaps that find room at their turn |
| GapDelivery.ExposeLosesNothing | lib/algos/cache/GapCache.ts:162-175 | with room for all, exactly the exposed and the frozen keys are exposed |
| GapDelivery.SeparateAreExposed | lib/algos/cache/GapCache.ts:162-175 | gaps that do not touch are exposed as they are, with their weights |
| GapDelivery.SurvivingExactly | lib/algos/cache/GapCache.ts:130-142 | a new gap stays exactly if no key reported since the last two ticks is in it, or the empty string was reported along with it |
| GapDelivery.TickExactly | lib/algos/cache/GapCache.ts:130-175 | in any state, a tick freezes exactly the staging gaps that survive and exposes exactly the surviving frozen keys |
| GapDelivery.ReportedExactly | lib/algos/cache/GapCache.ts:243-252 | the keys that are remembered are exactly those reported in the last two intervals between ticks |
| GapDelivery.GapsAreRecorded | lib/algos/cache/GapCache.ts:130-231 | there are at most as many gaps as were recorded, and they cover recorded keys only |
| GapDelivery.RecordedIsExposed | lib/algos/cache/GapCache.ts:130-175 | in every run, a recorded key is exposed after two ticks unless the gaps that hold it are hit by an update, cleared, out of room or refused |
| GapDelivery.SparedIsExposed | lib/algos/cache/GapCache.ts:130-175 | the same from conditions on the run alone: room for all gaps, and each updated key kept apart from it by a key that is not recorded |
| GapDelivery.ClearedCoversNothing | lib/algos/cache/GapCache.ts:358-362 | a cleared cache covers nothing at any stage and keeps the reported keys |
| GapCaches.GapCacheUpdateSet.AddUpdateBatch | lib/algos/cache/GapCache.ts:30-32 | the updated keys become the union, kept in order |
| GapCaches.GapCache.SetGap | lib/algos/cache/GapCache.ts:229-231 | a gap is recorded in the staging set only |
| GapCaches.GapCache.RemoveOverlappingGaps | lib/algos/cache/GapCache.ts:243-252 | exposed gaps are filtered and the keys kept for later; the number dropped is returned |
| GapCaches.GapCache.LookupGap | lib/algos/cache/GapCache.ts:263-265 | lookups see the exposed set only, as others leave it at every turn |
| GapCaches.GapCache.RemoveOverlappingGapsBeforeExpose | lib/algos/cache/GapCache.ts:130-142 | staging and frozen gaps lose what either update set touches |
| GapCaches.GapCache.ExposeFrozen | lib/algos/cache/GapCache.ts:162-175 | a tick is the Rotate step: expose the frozen gaps while there is room, freeze the staging ones |
| GapCaches.GapCache.SetMaxGapWeight | lib/algos/cache/GapCache.ts:281-286 | a new limit reaches all three sets, and no gap is touched |
| GapCaches.GapCache.Clear | lib/algos/cache/GapCache.ts:358-362 | all gaps go, the recorded updates stay |
| GapTransparency.ExposedKeysAreNoObjects | lib/algos/cache/GapCache.ts:130-175 | with gaps that hold no object when recorded, and every new object reported, no exposed key is that of an object |
| GapTransparency.LookupsAreSound | lib/algos/cache/GapCache.ts:263-265 | a key of what a lookup finds was not that of an object at some moment of the lookup |
| GapTransparency.AnswersAreSound | lib/algos/list/delimiterMaster.ts:302-322 | what lookups answer to a listing holds no object that lives as long as they go on: the assumption under which gaps change no listing |
| MasterListing.ItemsAscend | lib/algos/list/delimiter.ts:198-232 | items follow the order of their objects and are shared exactly under a common prefix |
| MasterListing.GroupIsDistinct | lib/algos/list/delimiter.ts:216-232 | a listing has its items in strictly ascending order and exactly those of its objects |
| MasterListing.LiveExactly | lib/algos/list/delimiterMaster.ts:368-471 | an object is live exactly if it has a master entry that is no replay key and leads, through placeholders, to a version that is no delete marker |
| MasterListing.ReturnedItems | lib/algos/list/delimiter.ts:192-232 | contents and common prefixes returned are the items of the page, each once |
| MasterListing.PageIsRight | lib/algos/list/delimiter.ts:192-355 | a page holds the first items there are, as many as there is room for, both kinds in ascending order; it is truncated exactly if any are left, and then goes on from its last one |
| DelimiterMasters.DelimiterMaster.Filter | lib/algos/list/delimiter.ts:253-270 | every entry keeps: items listed so far and what the rest gives make up the listing |
| DelimiterMasters.DelimiterMaster.OnNewMasterKeyV0 | lib/algos/list/delimiterMaster.ts:368-420 | delete markers, placeholders, replay keys, full pages, prefixes and contents keep the invariant |
| DelimiterMasters.DelimiterMaster.CheckGapOnMasterDeleteMarker | lib/algos/list/delimiterMaster.ts:324-366 | the cached gap is entered exactly when it holds the key, a new lookup starts exactly when there is none left ahead, and the invariant stays |
| DelimiterMasters.DelimiterMaster.KeyHandlerSkippingVersions | lib/algos/list/delimiterMaster.ts:440-453 | version keys extend the gap being built and list nothing |
| DelimiterMasters.DelimiterMaster.KeyHandlerWaitVersionAfterPHD | lib/algos/list/delimiterMaster.ts:455-471 | the first version after a placeholder stands for its master |
| DelimiterMasters.DelimiterMaster.KeyHandlerSkippingGap | lib/algos/list/delimiterMaster.ts:473-491 | entries within a cached gap list nothing; leaving it starts the next gap |
| DelimiterMasters.DelimiterMaster.SaveBuildingGap | lib/algos/list/delimiterMaster.ts:529-554 | a gap is saved only within its time window, and continues from its last key |
| DelimiterMasters.DelimiterMaster.CreateBuildingGap | lib/algos/list/delimiterMaster.ts:565-580 | a new gap starts at one key with the given weights, and takes over refreshed parameters, once |
| DelimiterMasters.DelimiterMaster.UpdateBuildingGap | lib/algos/list/delimiterMaster.ts:582-596 | the gap grows by one key and stays free of live objects; it is saved exactly when heavy enough and in its time window |
| DelimiterMasters.DelimiterMaster.CutBuildingGap | lib/algos/list/delimiterMaster.ts:598-619 | building stops; a significant gap is saved if in time and holds no live object, an insignificant one is dropped |
| DelimiterMasters.DelimiterMaster.RefreshGapCache | lib/algos/list/delimiterMaster.ts:263-293 | a new time window, with default weights, applies now or after the gap being built |
| DelimiterMasters.DelimiterMaster.OnGapLookup | lib/algos/list/delimiterMaster.ts:302-322 | an answer may come at any later time and changes no result |
| DelimiterMasters.DelimiterMaster.JumpIsSound | lib/algos/list/delimiterMaster.ts:493-506 | where the jump is safe, going on from the first of all entries at or after the skip target, read before or not, equals reading the rest; only within a cached gap is something read again |
| DelimiterMasters.DelimiterMaster.TargetIsExact | lib/algos/list/delimiterMaster.ts:493-506 | there is a skip target exactly where something is skipped, and the keys before it that come next are exactly those that would be |
| DelimiterMasters.DelimiterMaster.RereadingIsSound | lib/algos/list/delimiterMaster.ts:473-498 | within a cached gap, what is at or after its last key may be read again, a placeholder that was resolved to a delete marker included |
| DelimiterMasters.DelimiterMaster.EndOfStream | lib/algos/list/delimiter.ts:336-355 | with nothing left to read, the listing is complete and not truncated |
| DelimiterMasters.DelimiterMaster.Result | lib/algos/list/delimiterMaster.ts:508-511 | the result is the page of the listing, with its next marker or token; `MasterListing.PageIsRight` says what is on it |
| CurrentListings.JumpToUndefinedExactly | lib/algos/list/delimiterMaster.ts:482-505 | the jump out of a left gap lists the same as reading on, for all continuations, exactly when the last key read is not before "undefined" and nothing read at or after the target is or may become an object |
| LeftGaps.LoseObject | lib/algos/list/delimiterMaster.ts:482-505 | a run of the listing, with a cached gap that holds no object, that asks for this jump and loses an object by it |
| LeftGaps.ListTwice | lib/algos/list/delimiterMaster.ts:482-505 | a run of the listing that asks for this jump when it has read everything, and goes back to an object that it has listed |
| CurrentListings.ListCurrentVersions | lib/algos/list/delimiterMaster.ts:324-491 | under every schedule of lookups, windows, clock and safe jumps, rereading included, the result holds exactly the first contents and common prefixes of the live objects, in order; saved gaps hold no live object |
| Paging.FindFrom | lib/algos/list/skip.js:50-81 | the first entry at or after a range start |
| SkipRanges.Skip.Filter | lib/algos/list/skip.js:50-81 | a range is skipped only after 100 skips in a row and never the range asked for; when the jump is safe, going on from the first of all entries in it loses nothing and lists nothing twice |
| ListingPages.RangeIsAfterMarker | lib/algos/list/delimiter.ts:143-163 | the range parameters select exactly the keys under the prefix whose item comes after the marker |
| ListingPages.SelectIsWellFormed | lib/algos/list/delimiter.ts:143-163 | what a range returns never starts inside another object |
| ListingPages.LiveOfRange | lib/algos/list/delimiter.ts:143-163 | cutting at the range bounds changes no object within them |
| ListingPages.RangeListsItemsAfter | lib/algos/list/delimiter.ts:143-163 | listing the range of a marker gives the items after it |
| WrappedRanges.WrappedPrefixExactly | lib/algos/list/delimiter.ts:143-163 | under a prefix that ends with 0xFFFF nothing is listed, which is right exactly when no object under it has an item after the marker |
| WrappedRanges.WrappedDelimiterRange | lib/algos/list/delimiter.ts:143-163 | with a delimiter that ends with 0xFFFF the range after a common prefix holds all keys after the marker |
| WrappedRanges.WrappedDelimiterRepeats | lib/algos/list/delimiter.ts:143-163 | the page after such a common prefix starts with it again exactly when an object under it has a longer key |
| WrappedRanges.WrappedTargetIsBehind | lib/algos/list/delimiterMaster.ts:493-506 | a skip under such a prefix asks for a key before the last one read |
| EndlessPages.ItemsFromMarker | lib/algos/list/delimiter.ts:143-163 | what is listed from the key of an item on: the items after it, and the item itself if it repeats |
| EndlessPages.FollowingEndsExactly | lib/algos/list/delimiter.ts:336-355 | with such a delimiter, following the markers ends exactly when pages hold more than one key or no repeating common prefix comes before another item |
| ListingPages.PageLeaves | lib/algos/list/delimiter.ts:336-355 | the next marker of a page leaves exactly the items that did not fit |
| ListingPages.PagesAreTheListing | lib/algos/list/delimiter.ts:336-355 | the pages of any size put together are the listing |
| PagedListing.AllItemsHaveKeys | lib/algos/list/delimiter.ts:192-232 | the items of a bucket are sorted and usable as markers |
| PagedListing.ItemsAreThose | lib/algos/list/delimiter.ts:143-232 | what is listed after a marker: the live objects under the prefix in no common prefix, and the common prefixes of the others |
| PagedListing.SavedGapHoldsNoObject | lib/algos/list/delimiterMaster.ts:529-554 | a gap built from the stream of one page holds no object of the whole bucket |
| PagedListing.PageAdvances | lib/algos/list/delimiter.ts:336-355 | each page gets strictly closer to the end |
| PagedListing.ListPage | lib/algos/list/delimiterMaster.ts:173-185 | one page run by the machine holds exactly the first objects and common prefixes after the marker, and the gaps it saves hold no object of the bucket |
| PagedListing.ListAllPages | lib/algos/list/delimiter.ts:336-355 | following continuation tokens or next markers terminates and returns exactly the live objects under the prefix and the common prefixes after the first marker, in order, none lost or repeated |
| VersionListing.PositionOrder | lib/algos/list/delimiterVersions.ts:236-244 | raw positions are ordered by key, then version id, the master entry first |
| VersionListing.FlowIsSorted | lib/algos/list/delimiterVersions.ts:347-369 | with null versions moved, events come in strictly ascending order, one for each entry |
| VersionListing.StepsAreDistinct | lib/algos/list/delimiterVersions.ts:383-423 | items are in strictly ascending (key, version id) order, every version once although the newest is stored twice |
| VersionListing.LastIsAgain | lib/algos/list/delimiterVersions.ts:407-423 | what is left ends with a second copy exactly when the last version to list has the id of its master entry |
| VersionListing.ItemsAscend | lib/algos/list/delimiterVersions.ts:254-313 | an earlier version has an earlier item or shares its common prefix |
| VersionListing.ReturnedItems | lib/algos/list/delimiterVersions.ts:254-313 | versions and common prefixes returned are the items of the page, each once |
| VersionListing.PageIsRight | lib/algos/list/delimiterVersions.ts:202-209 | a page holds the first items there are, as many as there is room for, in order; exactly when it is truncated, and from where it goes on |
| VersionsDelimiter.DelimiterVersions.Filter | lib/algos/list/delimiterVersions.ts:347-369 | every entry keeps: steps taken and steps still to take make up the plan, null versions included |
| VersionsDelimiter.DelimiterVersions.FilterOnNewKey | lib/algos/list/delimiterVersions.ts:407-423 | a full page refuses the step, a second copy lists nothing, anything else is listed |
| VersionsDelimiter.DelimiterVersions.KeyHandlerNotSkipping | lib/algos/list/delimiterVersions.ts:383-396 | replay keys and placeholders list nothing |
| VersionsDelimiter.DelimiterVersions.KeyHandlerSkippingPrefix | lib/algos/list/delimiterVersions.ts:425-434 | what is under the prefix is skipped, the first event beyond it is handled |
| VersionsDelimiter.DelimiterVersions.KeyHandlerSkippingVersions | lib/algos/list/delimiterVersions.ts:436-454 | versions up to the version id marker are passed over |
| VersionsDelimiter.DelimiterVersions.AddKey | lib/algos/list/delimiterVersions.ts:254-313 | a version or its common prefix is listed, markers and count follow; `VersionListing.ReturnedItems` says that it is returned |
| VersionsDelimiter.DelimiterVersions.JumpIsSound | lib/algos/list/delimiterVersions.ts:456-472 | continuing at the skip target equals reading all entries, with a null version waiting or not |
| VersionsDelimiter.DelimiterVersions.TargetIsAhead | lib/algos/list/delimiterVersions.ts:456-472 | where version keys follow their master keys, the skip target is beyond the last key read |
| VersionsDelimiter.DelimiterVersions.TargetIsExact | lib/algos/list/delimiterVersions.ts:456-472 | there is a skip target exactly where something is skipped, and the keys before it that come next are exactly those that would be |
| VersionsDelimiter.NullIsSkipped | lib/algos/list/delimiterVersions.ts:347-369 | a waiting null version that is skipped changes nothing of what is listed |
| VersionsDelimiter.DelimiterVersions.PageIsComplete | lib/algos/list/delimiterVersions.ts:202-209 | at the end the items are the page, and IsTruncated is exactly as specified |
| VersionsDelimiter.DelimiterVersions.Result | lib/algos/list/delimiterVersions.ts:496-532 | the last null version is flushed; the result is the page of the plan with both markers, which `VersionListing.PageIsRight` describes |
| VersionsDelimiter.ListVersions | lib/algos/list/delimiterVersions.ts:347-532 | whichever jumps are taken, the page of the steps of the listing; of a part of a bucket, exactly the first listable versions and common prefixes past the marker |
| VersionPages.ReadIsWhatBelongs | lib/algos/list/delimiterVersions.ts:141-169 | an entry is read exactly when it belongs after the markers, or else it is one of the overlooked |
| VersionPages.RangeListsItemsAfter | lib/algos/list/delimiterVersions.ts:141-169 | a page from given markers misses and repeats nothing exactly when nothing is overlooked |
| VersionPages.PageMarkerFits | lib/algos/list/delimiterVersions.ts:525-530 | with markers returned by a listing nothing is overlooked |
| VersionPages.PageLeaves | lib/algos/list/delimiterVersions.ts:525-530 | the markers of a page leave exactly the items that did not fit |
| VersionPages.ItemsAreThose | lib/algos/list/delimiterVersions.ts:141-313 | what is listed after markers: the entries under the prefix that are no placeholder or replay key, by key, id and value, or their common prefixes |
| VersionPages.ListPage | lib/algos/list/delimiterVersions.ts:141-169 | one page run by the machine holds exactly the first versions and common prefixes after its markers that are not overlooked, in order, and is truncated exactly if any are left or a second copy ends a full page |
| VersionPages.ListAllVersions | lib/algos/list/delimiterVersions.ts:496-532 | following the markers terminates and returns exactly the versions and common prefixes after the first markers, in order, each once |
| VersionPages.NextKeyIsMissed | lib/algos/list/delimiterVersions.ts:156-167 | for every key marker k, an object named k followed by "\x01" is missed |
| VersionPages.TruncatedExactly | lib/algos/list/delimiterVersions.ts:407-423 | a page with room for all there is calls itself truncated exactly when it is full and the last entry to list is the version entry with the id of its master entry |
| VersionPages.SecondCopyTruncates | lib/algos/list/delimiterVersions.ts:407-423 | for every object with its version stored twice, a page of one says truncated with nothing left |
| Versions.ArrangedIsSorted | lib/versioning/VersioningRequestProcessor.ts:131-182 | with the null version moved, every stored version is listed once in order |
| Versions.LimitedListingIsExact | lib/versioning/VersioningRequestProcessor.ts:131-182 | one extra raw entry is enough for a limited listing |
| Versions.ListVersionKeys | lib/versioning/VersioningRequestProcessor.ts:131-182 | the loop that places the null version returns the arranged versions, cut to the limit |
| MasterRepair.ListingSuggestsNewest | lib/versioning/VersioningRequestProcessor.ts:197-242 | a listing limited to one version suggests the newest surviving one, or that none is left |
| MasterRepair.AppliedHintIsRight | lib/versioning/VersioningRequestProcessor.ts:311-359 | a suggestion that passes the placeholder check against the current master is right now, however old its listing |
| MasterRepair.StepIsSafe | lib/versioning/VersioningRequestProcessor.ts:311-359 | puts, reads, deletes, listings and repairs, with reads of any age, keep the layout invariant exactly when they are harmless |
| MasterRepair.RepairIsRightExactly | lib/versioning/VersioningRequestProcessor.ts:334-351 | applied to any state, a repair leaves the master right exactly when its suggestion fits that state |
| MasterRepair.IsolatedIsHarmless | lib/versioning/VersioningRequestProcessor.ts:311-359 | an event that has read the state it is applied to is harmless |
| MasterRepair.HarmlessRunsStayRight | lib/versioning/VersioningRequestProcessor.ts:311-442 | in every interleaving of harmless events the master is right, however old the reads |
| MasterRepair.MasterStaysRight | lib/versioning/VersioningRequestProcessor.ts:423-442 | in every interleaving in which deletes and repairs have read the current master, it is absent with no versions, a placeholder, or the newest version |
| MasterRepair.GeneratedIdsAreFresh | lib/versioning/VersioningRequestProcessor.ts:71-74 | ids from the generator over a slow enough clock are newer than all stored and suggested ones at every put and delete |
| MasterRepair.GeneratedRunsStayRight | lib/versioning/VersioningRequestProcessor.ts:423-442 | in every interleaving with generated ids and harmless late events the master is right |
| MasterRepair.RepairEndsPlaceholder | lib/versioning/VersioningRequestProcessor.ts:311-359 | a repair from a listing of the current state removes the placeholder |
| SurvivingVersions.DeleteTakesEffect | lib/versioning/VersioningRequestProcessor.ts:638-677 | a delete removes the version from its slot whatever was read, puts a placeholder exactly if the master read is one or that version, and all other versions stay |
| SurvivingVersions.PutTakesEffect | lib/versioning/VersioningRequestProcessor.ts:423-442 | a put leaves the new version in the master entry and under its id, and all other versions stay |
| SurvivingVersions.RepairTakesEffect | lib/versioning/VersioningRequestProcessor.ts:334-351 | a repair writes the master entry alone, but for the null key when the null version moves |
| SurvivingVersions.RepairLosesNone | lib/versioning/VersioningRequestProcessor.ts:334-351 | a repair of a placeholder with a surviving version leaves exactly the versions that there are |
| SurvivingVersions.SurvivesExactly | lib/versioning/VersioningRequestProcessor.ts:311-677 | a version survives a run exactly if it was there or put, and nothing has touched its slot since |
| SurvivingVersions.DeletedStaysDeleted | lib/versioning/VersioningRequestProcessor.ts:638-677 | with fresh ids nothing is put in the slot of a deleted version again |
| SurvivingVersions.DeletedIsNotSuggested | lib/versioning/VersioningRequestProcessor.ts:197-242 | a listing of any state since a delete never suggests the deleted version |
| SurvivingVersions.DeletedIsGone | lib/versioning/VersioningRequestProcessor.ts:638-677 | in runs of harmless events a deleted version is not in the master entry again either |
| LateRepairs.LateRepairExactly | lib/versioning/VersioningRequestProcessor.ts:321-351 | a repair that has read an old placeholder leaves the master right exactly when the suggested version, if it survives, is still the newest |
| LateRepairs.LateDeleteExactly | lib/versioning/VersioningRequestProcessor.ts:654-673 | a delete that has read an old master leaves the master right exactly unless it misses that its regular version is in the master entry |
| LateRepairs.LateDeleteMisleads | lib/versioning/VersioningRequestProcessor.ts:654-673 | a late delete that leaves a placeholder in place makes a repair that reads the current state bring the deleted version back |
| LateRepairs.LateRepairLosesNewest | lib/versioning/VersioningRequestProcessor.ts:321-351 | from every world with a repair to come, a put, another delete and the late repair leave an older version above the newest |
| LateRepairs.LateRepairRun | lib/versioning/VersioningRequestProcessor.ts:321-351 | such a run from a start, in which all but the repair have read the current state |
| IsolatedReads.ReadIsIsolatedExactly | lib/versioning/WriteCache.ts:53-149 | a read returns the last write of its key exactly unless it goes back to a database answer that was older |
| IsolatedReads.EventIsIsolatedExactly | lib/versioning/VersioningRequestProcessor.ts:311-359 | a delete or repair that has read through the write cache is applied to the state it has seen exactly unless its read goes back to such an answer |
| IsolatedReads.CachedRunsStayRight | lib/versioning/VersioningRequestProcessor.ts:311-442 | in every run without such reads the master stays right |
| SpecificPut.PutOpsApplied | lib/versioning/VersioningRequestProcessor.ts:456-597 | the operations applied in order give the intended stored state |
| SpecificPut.PutKeepsLayout | lib/versioning/VersioningRequestProcessor.ts:456-597 | at most one null version in master, null key and version entries, the master at the newest id unless a placeholder: kept exactly when no old null version is left behind |
| SpecificPut.PutUpdatesOneVersion | lib/versioning/VersioningRequestProcessor.ts:456-597 | exactly the targeted entry of the version map changes; a demoted null master is not lost, a null version under its own id is moved |
| SpecificPut.NullMasterIsDemoted | lib/versioning/VersioningRequestProcessor.ts:529-574 | a null master that loses its place goes under the null key with both flags and an id, otherwise unchanged |
| SpecificPut.InfVidIsOldest | lib/versioning/VersionID.ts:58-65 | the id of versions from before versioning is older than any generated one |
| SpecificPut.NullPutMigrates | lib/versioning/VersioningRequestProcessor.ts:579-589 | a null put below a regular master moves the null version that is stored under its own id to the null key |
| SpecificPut.TwoNullVersions | lib/versioning/VersioningRequestProcessor.ts:579-589 | a null version left behind under another id makes two |
| SpecificPut.DroppedPutChangesNothing | lib/versioning/VersioningRequestProcessor.ts:579-589 | a null put older than a null master changes nothing |
| SpecificPut.NullPutTakesEffect | lib/versioning/VersioningRequestProcessor.ts:456-597 | a null put becomes the one null version exactly when it is not older than a null master and leaves no old null version behind |
| VersioningRequestProcessors.VersioningRequestProcessor.GenerateVersionId | lib/versioning/VersioningRequestProcessor.ts:71-74 | the counter goes into the id, the generator moves on |
| VersioningRequestProcessors.VersioningRequestProcessor.ProcessNewVersionPut | lib/versioning/VersioningRequestProcessor.ts:423-442 | master and version entry get the same value under a fresh id |
| VersioningRequestProcessors.VersioningRequestProcessor.ProcessVersionSpecificPut | lib/versioning/VersioningRequestProcessor.ts:456-597 | the pushed operations are those of SpecificPutOps |
| VersioningRequestProcessors.VersioningRequestProcessor.ProcessVersionSpecificDelete | lib/versioning/VersioningRequestProcessor.ts:638-676 | the operations are those of DeleteOps, with a fresh id for the placeholder; `SurvivingVersions.DeleteTakesEffect` says what they leave |
| VersioningRequestProcessors.VersioningRequestProcessor.RepairMaster | lib/versioning/VersioningRequestProcessor.ts:311-359 | the suggestion is applied only to the very placeholder it was made for |
| VersioningRequestProcessors.VersioningRequestProcessor.EnqueueGet | lib/versioning/VersioningRequestProcessor.ts:254-268 | the first request for a key lists, the others wait in order |
| VersioningRequestProcessors.VersioningRequestProcessor.DequeueGet | lib/versioning/VersioningRequestProcessor.ts:281-293 | every waiting request gets the answer, once and in order |
| VersioningRequestProcessors.VersioningRequestProcessor.FinishGetByListing | lib/versioning/VersioningRequestProcessor.ts:197-242 | waiting requests get the error, the master, the newest version or not found, and the repair its suggestion |
| VersionIds.LaterIdsAreSmaller | lib/versioning/VersionID.ts:100-140 | an id of a later moment or position, up to the first negative one, is a smaller string |
| VersionIds.GeneratedIdsDecrease | lib/versioning/VersionID.ts:100-140 | over a clock that does not go back, with at most 10^6 + 1 ids a millisecond, ids strictly decrease |
| VersionIds.IdsDecreaseExactly | lib/versioning/VersionID.ts:100-140 | over a clock that does not go back, all ids strictly decrease exactly when no millisecond has more than 10^6 + 1 of them |
| VersionIds.NegativePositionsGrow | lib/versioning/VersionID.ts:100-140 | the second negative position gives a greater id than the first |
| VersionIds.PadNumber | lib/versioning/VersionID.ts:32-34 | padding a number that fits gives its decimal form of the full width |
| VersionIdDigits.IdHasParts | lib/versioning/VersionID.ts:100-140 | an id holds its moment and position as decimal numbers, the group padded with spaces, and the info |
| VersionIdDigits.SameIdExactly | lib/versioning/VersionID.ts:100-140 | ids are the same exactly if moment, position, padded group and info are |
| VersionIds.VersionIdGenerator.GenerateVersionId | lib/versioning/VersionID.ts:100-140 | the state moves to the next stamp, and the id is made of it |
| VersionIdEncoding.ValueOfDigits | lib/versioning/VersionID.ts:195-206 | the digits of a number in any base have its value |
| VersionIdEncoding.DigitsOfValue | lib/versioning/VersionID.ts:215-246 | digits without a leading zero are those of their value |
| VersionIdEncoding.BytesRoundTrip | lib/versioning/VersionID.ts:195-246 | seven bytes, the first not null, survive base 62 |
| VersionIdEncoding.IntRoundTrip | lib/versioning/VersionID.ts:195-246 | ten decimal digits fit in six base 62 digits and survive them |
| VersionIdEncoding.Base62Decode | lib/versioning/VersionID.ts:215-246 | the loop that takes off leading zeros computes the decoded id, or an error |
| VersionIdEncoding.Base62RoundTrip | lib/versioning/VersionID.ts:195-246 | what base 62 gives back: the 27-character id, with zeros for a signed position, exactly when its 21st character is not null |
| VersionIdEncoding.HexRoundTrip | lib/versioning/VersionID.ts:149-172 | hexadecimal gives every byte sequence back |
| VersionIdEncoding.EncodedLength | lib/versioning/VersionID.ts:258-264 | 27 characters encode to exactly 32, longer ids to twice their length |
| VersionIdDigits.Alphabet | lib/versioning/VersionID.ts:11-12 | the digits of base 62 are 0-9, a-z and A-Z, in this order |
| VersionIdDigits.EncodedIsNumerals | lib/versioning/VersionID.ts:195-206 | the characters of an encoded id are the numerals of its two numbers and of the bytes of its group |
| VersionIdDigits.HexIsPairs | lib/versioning/VersionID.ts:149-151 | the hexadecimal form has two lower-case digits for each character |
| VersionIdEncoding.VersionIdRoundTrip | lib/versioning/VersionID.ts:258-288 | decode gives back every id except a 27-character one with a null 21st character or a signed position |
| VersionIdEncoding.GeneratedRoundTrip | lib/versioning/VersionID.ts:100-288 | exactly which generated ids survive encoding: with an info, or with a position that is not negative and a group that does not start with a null character |
| MergeStreams.MergeStream.OnItem | lib/algos/stream/MergeStream.js:44-70 | an item arriving keeps: pushed and pending items make up the merge |
| MergeStreams.MergeStream.OnEnd | lib/algos/stream/MergeStream.js:72-95 | an input ending, even while paused, keeps it; the merge ends when both have |
| MergeStreams.MergeStream.Read | lib/algos/stream/MergeStream.js:28-33 | demand resumes the input that was paused for lack of it |
| MergeStreams.MergeStream.NeverStuck | lib/algos/stream/MergeStream.js:28-95 | until the end, some input flows or will on demand |
| MergeStreams.MergeStream.EndIsComplete | lib/algos/stream/MergeStream.js:72-95 | the end is pushed once, after everything else |
| MergeStreams.MergeStream.PushedIsBeginning | lib/algos/stream/MergeStream.js:44-70 | what has been pushed at any time is the beginning of the merge |
| MergeStreams.MergeIsSorted | lib/algos/stream/MergeStream.js:44-70 | the merge of sorted inputs is sorted and holds their items |
| MergeStreams.Run | lib/algos/stream/MergeStream.js:28-95 | in every order of events the run ends and has pushed the merge |
| V1Format.RangeUnderPrefix | lib/algos/list/tools.js:43-60 | the v1 range holds exactly the prefixed keys of the v0 range |
| V1Format.V1ReadsTheV0Range | lib/algos/list/delimiterVersions.ts:171-195 | the ranges of the v1 format read the keys of the v0 range, once with the prefix of masters and once with that of versions |
| V1Format.RangesAreApart | lib/algos/list/delimiterVersions.ts:222-226 | master and version keys never compare equal, and alike both ways round |
| V1Format.MergeRestoresV0Order | lib/algos/list/delimiterVersions.ts:171-226 | merging the two ranges gives all their keys in the order of the v0 format |
| ClusterRPC.Primary.HandleCommandMessage | lib/clustering/ClusterRPC.ts:331-379 | a broadcast opens a slot for each worker and is forwarded to each, as `ClusterBroadcasts.CommandIsForwarded` spells out; both maps keep the same keys |
| ClusterRPC.Primary.HandleCommandResultMessage | lib/clustering/ClusterRPC.ts:381-429 | unknown, unexpected and duplicate results are ignored; the last one sends all results back |
| ClusterRPC.Worker.SendWorkerCommand | lib/clustering/ClusterRPC.ts:240-274 | uids in progress are refused, else a promise is saved and the command sent |
| ClusterRPC.Worker.HandleMessage | lib/clustering/ClusterRPC.ts:486-544 | results and errors settle a promise that is not settled yet |
| ClusterRPC.Worker.OnTimeout | lib/clustering/ClusterRPC.ts:257-262 | a timeout rejects the promise and forgets it |
| ClusterRPC.StepIsSafe | lib/clustering/ClusterRPC.ts:331-429 | every event keeps the invariant of maps, messages and promises |
| ClusterRPC.AnswersAreRight | lib/clustering/ClusterRPC.ts:240-544 | in every run the two maps agree, promises settle at most once, and a broadcast resolves with one result for each worker present at dispatch, given by it |
| ClusterRPC.BroadcastCompletes | lib/clustering/ClusterRPC.ts:381-429 | once every worker has replied, in any order and with duplicates, the requester is sent the first reply of each, once |
| ClusterBroadcasts.CommandIsForwarded | lib/clustering/ClusterRPC.ts:331-379 | a broadcast that arrives puts exactly one message to each worker on its way and opens their empty slots; an unsupported target is answered with an error, and nothing else is sent |
| ClusterBroadcasts.BroadcastIsDelivered | lib/clustering/ClusterRPC.ts:350-357 | in every run a command is on its way to a worker or received by it, once, exactly if the worker was there at dispatch; only who has received it gives results |
| ClusterBroadcasts.InProgressExactly | lib/clustering/ClusterRPC.ts:381-429 | in every run a broadcast is in progress exactly while a worker has given no result, and the slots hold the first results |
| ClusterBroadcasts.BroadcastIsAnswered | lib/clustering/ClusterRPC.ts:331-429 | in every run, once each worker has given a result, the one that waits has been sent the first of each, in order, if it was there at that moment |
| WriteGathering.WriteGatheringManager.Batch | lib/versioning/WriteGatheringManager.ts:58-84 | the entries join the pending batch with one callback; only a new batch gets a timer |
| WriteGathering.WriteGatheringManager.CommitBatch | lib/versioning/WriteGatheringManager.ts:92-112 | at most one commit in progress; a batch that waits for it loses its timer |
| WriteGathering.WriteGatheringManager.BatchCommitted | lib/versioning/WriteGatheringManager.ts:147-156 | the batch is answered in order, while callbacks may submit more |
| WriteGathering.WriteGatheringManager.OnCommitted | lib/versioning/WriteGatheringManager.ts:112-137 | the lock is released and requests answered; a waiting batch is committed, or answered with the same error |
| WriteGathering.WriteGatheringManager.IdleIsComplete | lib/versioning/WriteGatheringManager.ts:58-156 | when idle, every non-empty request was answered once and in order, and without a failure all was sent and committed in order |
| WriteGatheringRuns.Run | lib/versioning/WriteGatheringManager.ts:58-156 | in every run of submissions, timers and commits, with callbacks that submit more, once things have settled all requests have been answered in order and once each, and without a failed commit all has been committed in order |
| WriteCaches.WriteCache.Get | lib/versioning/WriteCache.ts:53-99 | answered from the cache, or queued; between events |
| WriteCaches.WriteCache.GetNow | lib/versioning/WriteCache.ts:53-99 | the same in the middle of an answer, with all that the answered reader does at once; a new queue has a signature no get under way for the key has |
| WriteCaches.WriteCache.React | lib/versioning/WriteCache.ts:128-143 | whatever a reader writes and asks for at once when answered, queues being answered stay, and nobody is lost or answered twice |
| WriteCaches.WriteCache.Dequeue | lib/versioning/WriteCache.ts:110-150 | the matching queue is answered wholly and in order, each reader with the last write since the seed, with re-entrant writes and gets in between; the value stays cached exactly if something was written; any other call changes nothing |
| WriteCaches.WriteCache.Batch | lib/versioning/WriteCache.ts:160-192 | every value is written under a new signature and releases its readers, unless these are being answered already; it stays in the cache exactly if the last thing that happens to its key is a write |
| WriteCaches.WriteCache.WriteOne | lib/versioning/WriteCache.ts:183-190 | a written value is in the cache afterwards exactly if nobody was waiting for its key, or a released reader has written it |
| WriteCaches.WriteCache.OnDatabaseAnswer | lib/versioning/WriteCache.ts:73-77 | the queue a get was made for is answered, seeded with the answer; a late answer never releases a newer queue on the same key |
| WriteCaches.WriteCache.OnWritten | lib/versioning/WriteCache.ts:201-211 | a finished write clears exactly its own entries |
| WriteCaches.WriteCache.WaitingIsPending | lib/versioning/WriteCache.ts:53-99 | whoever waits is in the queue of a get under way that will release it |
| WriteCacheStates.NextReaderSees | lib/versioning/WriteCache.ts:128-143 | a reader sees what was last seeded or written for its key; a seed may be older than a write before it |
| WriteCacheStates.SeenIsLatest | lib/versioning/WriteCache.ts:125-149 | while a queue is answered, the cache holds the last write since its seed, or the seed |
| WriteCacheRuns.Run | lib/versioning/WriteCache.ts:53-211 | in every run of gets, batches and database answers, with whatever readers do at once, all who have asked are answered exactly once when all gets have been answered, and nobody else is |
| StaleReads.ReadStale | lib/versioning/WriteCache.ts:128-149 | a run in which a reader gets the placeholder after the newest version was written over it, and before the database has written that |
| LRUCaches.LRUCache.Add | lib/algos/cache/LRUCache.js:30-51 | the key comes first with its value; a full cache loses its last entry |
| LRUCaches.LRUCache.Get | lib/algos/cache/LRUCache.js:62-72 | the value if there is one, and the key comes first |
| LRUCaches.LRUCache.Remove | lib/algos/cache/LRUCache.js:82-89 | exactly this key goes |
| LRUCaches.LRUCache.LruPushEntry | lib/algos/cache/LRUCache.js:119-131 | the links are those of the list with the entry in front |
| LRUCaches.LRUCache.LruRemoveEntry | lib/algos/cache/LRUCache.js:139-152 | the links are those of the list without the entry |
| LRUCaches.ContentsByUse | lib/algos/cache/LRUCache.js:30-72 | after any operations the cache holds keys in order of last use, with the values last added |
| LRUCaches.EvictedIsLeastRecent | lib/algos/cache/LRUCache.js:38-43 | a full cache loses the one key used least recently |

## Left out

- GapSets.GapSet.Insert: the ordered set library is not part of this model; whether inserting on an equal key replaces the stored gap is a parameter, and the theorems hold for both.
- GapSets.GapSet.SetGap: gap objects are values; that the entry returned shares its object with the set is not modelled.
- GapSets.GapSet.CoalesceGapChain: others change the set at finitely many turns; with a chain that grows for ever the loop need not end.
- GapWeights.WeightIsConserved: weights are not negative, as counts of entries are not; of a refused start it says nothing.
- GapTransparency.AnswersAreSound: that listings record gaps free of objects is `ListPage`; that writers report every object before it can be listed, and snapshots are consistent, is assumed.
- GapCaches.GapCache.ExposeFrozen: the timer is an event with a time; the setter of the exposure delay drops recorded updates and is not part of any run.
- DelimiterMasters.DelimiterMaster.JumpIsSound: says nothing about jumps that are not safe. Of those that go back without listing an object again, it is not modelled what they do to a gap being built; a jump under a wrapped prefix always goes back (`WrappedTargetIsBehind`).
- DelimiterMasters.DelimiterMaster.RefreshGapCache: the validity period it returns only informs the caller.
- ListingPages.RangeListsItemsAfter: prefix, delimiter and marker hold no NUL and prefix and delimiter can be incremented; otherwise a range is no prefix, and `WrappedRange` says what it holds.
- VersionListing.StepsAreDistinct: assumes that the null version has an id of its own and that a master entry holds the newest version, with the same value where it is stored twice; the machine itself is proved for all sorted entries.
- VersionsDelimiter.ListVersions: a jump that goes back, possible only where a version key has no master entry before it (`TargetIsAhead`), is not taken.
- VersionsDelimiter.DelimiterVersions.Filter: a version id marker comes with a key marker.
- IsolatedReads.CachedRunsStayRight: that an event comes right after its answer, and writes what its operations say, is assumed of the run; when the database answers with an old value is up to the database (`StaleReads.ReadStale` is a run).
- MasterRepair.MasterStaysRight: puts and deletes with the version id "null", and version-specific puts racing a repair, do not refresh the placeholder and are not events of the machine.
- SpecificPut.PutUpdatesOneVersion: requests with an undefined `isNull` (older callers), puts on the id of a version of the other kind (regular on null, null on regular), and the version ids "" and "null" are not modelled.
- VersionIdEncoding.VersionIdRoundTrip: ids are ASCII, with digits and at most one minus sign where numbers are expected; the base 62 libraries are modelled as positional numerals that encode what is no number as nothing.
- MergeStreams.MergeStream.OnItem: input items never compare equal across inputs, as the comparison of master and version entries guarantees; errors and destruction of streams are not modelled.
- ClusterBroadcasts.BroadcastIsAnswered: a broadcast with no workers there at dispatch is never answered, as in the code; messages are not lost when a worker goes.
- ClusterRPC.AnswersAreRight: uids are never reused; handlers, serialization and logging are not modelled.
- WriteGathering.WriteGatheringManager.Batch: one database; the map from databases to states keeps them apart. Timers are events.
- WriteCaches.WriteCache.React: what a reader does at once when answered is a finite sequence of writes and gets that depends on it and its answer; its gets come with callbacks of their own, of which there are finitely many.
- WriteCaches.WriteCache.Get: one database; values are never the empty string.
- LRUCaches.LRUCache.Add: keys that the plain object used as a map inherits ("constructor", "toString", "__proto__") are found without having been added, and adding them corrupts the list; the map of the model has no such keys.
- LRUCaches.ContentsByUse: the same keys are left out.
- The key handlers for the v1 format, which see each key once and skip no versions; the range parameters and the merge of the two ranges are modelled.
- JSON text, `trimMetadata` and the other string edits of stored values.
- Listings of non-current versions, orphan delete markers and multipart uploads: variants with filters on dates and scan limits.
- Heaps, policy evaluation, authentication, configuration and storage backends: other parts of the library.
