# Objectstore: a verified model

Objectstore gives callers one key-to-bytes interface over a local directory or an S3 service, with wrappers
that survive broken connections, download in parallel and scope keys. This project models the parts of it
whose correctness is not visible from one function body, and proves in Dafny that each fast or fault-tolerant
form agrees with a plain store of keys and bytes.

| file | what it models |
|---|---|
| `Objects.dfy` | bytes, options, the byte range that an offset and a length select, and totals over a sequence |
| `Healing.dfy`, `HealingProgress.dfy`, `HealingBodies.dfy`, `HealingVersions.dfy` | the self-healing read (`heal.go`): as functions over a script of the network; what it survives, and what its failures say; as the mutable object callers hold, method by method against those functions; and without a tag over an object that changes |
| `Watchdog.dfy` | the watchdog of a connection, as a class with the history of its intervals |
| `Parts.dfy`, `FetchParts.dfy`, `FetchResults.dfy`, `FetchProgress.dfy` | the parts of a ranged download, and `FetchRangedAt` with its bounded pool and fallback as a step machine over every interleaving: what it writes, which failures its result comes from, and that it returns |
| `OrderedReader.dfy`, `ReaderResults.dfy`, `OrderedReaders.dfy` | the streaming reader: producer, queue of one-shot channels, fetches and reader as a step machine; how its end follows from the first failed part; and the reader as the object its caller holds, whose every call of Read is a run of that machine |
| `HealedFetch.dfy`, `HealedReader.dfy` | the compositions: a download and a streaming reader whose parts are read through healing bodies, shown to be runs of the plain ones |
| `CasStore.dfy`, `CasPolicies.dfy`, `FsStores.dfy` | conditional writes of the filesystem store by any number of writers and handles as a step machine, which rules for callers make it an atomic register, and the store as an object whose undisturbed Put is a run of that machine |
| `Keys.dfy`, `FsListing.dfy`, `KeyPath.dfy`, `FsDirs.dfy` | byte order and paging, `FS.List`, the mapping between keys and paths, and the directories that are made and pruned |
| `Prefixed.dfy` | stacks of prefixed views over an ideal ordered store |
| `RangeText.dfy` | the text of a Range header, its reading by RFC 9110, and the filesystem store's range reader, with 64-bit wrap-around |
| `StripeHealth.dfy`, `StripeSet.dfy`, `StripePicks.dfy` | the health detector of a striped transport, the lock-free swapping and counting of stripes, and which stripe a request uses and which are replaced |

Code with several goroutines is a function from a state and an event to the next state. An event is one atomic
step (a channel operation, a compare-and-swap, a section under a mutex); an event that is not enabled changes
nothing or cannot occur, so a theorem about every sequence of events is a theorem about every interleaving.
What the network, the clock or the system decides is part of the event, or of a script that every theorem
quantifies over. Objects that one goroutine changes in place are classes.

## Where the code does less than its documentation says

The model follows the code. Each of these is a lemma that exhibits the case, beside one that says exactly when
it cannot happen.

- `FetchRangedAt` may return nil without the whole object when the caller cancels its context between parts
  (`fetchranged.go:98-113`): `AbandonedDownloadReportsNil`. `NilIsWholeExactlyWhen` is the condition for callers,
  `NilIsCompleteExactlyWhen` the one on the run.
- The streaming reader may report a clean end of file early for the same reason (`fetchranged.go:186-195` and
  `fetchranged.go:222-225`): `AbandonedReaderReportsEof`. `EofIsWholeExactlyWhen` is the condition for callers,
  `EofIsTruthfulExactlyWhen` the one on the run.
- A healed suffix read that is longer than the object, or bounded to fewer bytes than the suffix, resumes at a
  wrong place after a break (`heal.go:188`), and an early clean end is noticed only for a non-negative offset
  with a positive length (`heal.go:147`): `SafeRangeIsExact`.
- A body from `GetRange` captures its tag at its first heal (`heal.go:183-184`), so a change before that heal mixes
  two versions, though any later one is noticed: `UntaggedMixesAtMostTwo`, `OneVersionExactlyWhen`.
- A `Read` after `Close` can open a connection that nobody closes (`heal.go:204-211`): `ReadAfterCloseLeaks`;
  it cannot exactly for the sequences of calls that `CallsAreSafeExactlyWhen` names.
- A write that matched an entity tag can succeed although the tag is no longer current, when a `Delete`, which
  takes no lock, or a writer on another handle comes between its check and its rename (`fs.go:301-314`,
  `fs.go:370`): `DeleteInWindowBreaksMatch`, `TwoHandlesLoseUpdate`. Which handles may write which keys, and how,
  without this happening, on a root with given files, is the condition of `PolicyIsAtomicExactlyWhen`.
- Keys are said to be opaque, but a key whose last segment contains ".tmp." is stored and never listed
  (`fs.go:229`), and one with a "." segment shares its path with another key or with the root (`fs.go:64`):
  `StoredKeysAreListedExactlyWhen`, `ListingRecoversExactlyWhen`, `DottedKeysCollide`.
- A `Delete` of a key whose segments are all "." removes the root of an empty store and then empty directories outside
  it, as the loop only stops at the root (`fs.go:309`, `fs.go:317`): `RootIsRemoved`, `DeleteStaysBelowExactlyWhen`.
  A `Delete` of a missing key reports success where the path is an empty directory: `DeleteSucceedsExactlyWhen`.
- A Range header ignores the length of a suffix range, and its last position may wrap around
  (`s3.go:341`, `s3.go:346`): `ServedIsSliceExactlyWhen`.

## Model

| member | source | states |
|---|---|---|
| Healing.ResumesInPlace | heal.go:188-193 | for a safe range, requesting the range again after any number of bytes selects exactly the bytes of the original slice that are still missing |
| Healing.HealTracks | heal.go:169-202 | a heal leaves the body where the caller is: nothing delivered is lost or repeated, and the new connection holds the missing bytes, whenever the tag check only lets the right contents through |
| Healing.RecoverTracks | heal.go:117-134 | whatever ended a connection, the loop either stays in place or reports a bare end of file, and the latter only when the whole slice has been delivered |
| Healing.ReadReturnsNext | heal.go:110-139 | the bytes one Read returns are the next bytes of the requested slice |
| Healing.ReadsAreFaithful | heal.go:110-202 | over every script of breaks, early ends, failing requests and every sequence of buffer sizes, the bytes up to the first error are a prefix of the slice, and end of file means all of it |
| Healing.FixedObjectReads | heal.go:70-76 | the same for a fresh body over an object that does not change, for every safe range |
| Healing.TagGuardsVersion | heal.go:178-187 | over an object that changes at any time except between one heal's Stat and GetRange, a body from Get with a non-empty tag delivers only bytes of the version that tag names, without gaps |
| HealingVersions.FirstHeal | heal.go:178-200 | the first heal of a body without a tag captures the tag it sees, and the new connection holds the rest of that version |
| HealingVersions.UntaggedMixesAtMostTwo | heal.go:178-200 | over an object that changes at any time except between one heal's Stat and GetRange, a body from GetRange (from the end only over versions in which its suffix resumes in place) delivers a prefix of the opened version's bytes up to the first heal followed by the rest of the version that heal found, and end of file means all of it |
| HealingVersions.OneVersionExactlyWhen | heal.go:183-187 | for every offset, length and object: a body from GetRange always delivers the beginning of its range in one version, all of it at end of file, if and only if it may not heal, or its first byte is its last, or it starts at or behind the end, or, for a range from the end of an empty object, it may heal once at most |
| Healing.SafeRangeIsExact | heal.go:146-193 | a range is read faithfully from every fixed object of a size, whatever the network does, if and only if it is one of the safe ranges, or one connection is the budget and bodies do not end early |
| Healing.OnlyExhaustionFails | heal.go:169-177 | when Stat and GetRange work and the tag stays, broken connections alone surface as an error only after every allowed connection was opened |
| HealingProgress.CleanEndIsEof | heal.go:141-155 | for every range, a clean end after all the range has is its end and opens no connection; when all that was asked for has come, nobody is asked for the size |
| HealingProgress.CleanEndIsEofExactlyWhen | heal.go:117-155 | for ranges whose early ends can be recognised, a clean end is taken for the end of the file if and only if nothing of the range is missing |
| HealingProgress.UncheckedEndIsNotEof | heal.go:150-154 | while the size cannot be had, an end before all that was asked for is never taken for the end of the file |
| HealingProgress.HealsHaveCauses | heal.go:110-202 | while Stat and GetRange work, each connection beyond the first, and a failure, has its own broken or early ended connection |
| HealingProgress.FewBreaksNeverFail | heal.go:110-202 | for every range, a body fails only if at least max(1, Attempts) connections broke or ended too early; if none does, the first one serves every read |
| HealingProgress.FewBreaksDeliverAll | heal.go:35-46 | with fewer broken connections than the budget, over connections that bring what they have, enough reads reach the end of the file with the whole range delivered |
| HealingProgress.FailuresAreExplained | heal.go:124-196 | over any network and object, a failure says the truth: the budget is spent, the tag last seen is another one, or the last call failed |
| HealingProgress.NoFailureIsPassedOver | heal.go:124-196 | after a break, every call up to the end of the heal was answered unless a failure is reported, and the tag last seen is the one held before, if there was one |
| Healing.LifeWithinBudget | heal.go:169-211 | over any calls without a Read after Close, at most max(1, Attempts) connections are opened, at most the latest is open, and none is once closed |
| Healing.ReadAfterCloseLeaks | heal.go:204-211 | with a second connection allowed, every sequence of calls that reads after a Close leaves a connection open for good over some network |
| Healing.CallsAreSafeExactlyWhen | heal.go:169-211 | over every object and network, a closed body has no connection left open if and only if nobody reads after a Close or the budget is one connection |
| HealingBodies.HealingBody.constructor | heal.go:96-100 | a new body has used one connection, armed its watchdog and consumed nothing; from then on the watchdog knows of every byte of the current connection |
| HealingBodies.HealingBody.CheckTruncated | heal.go:146-155 | the whole new state and answer of the short-delivery check |
| HealingBodies.HealingBody.CheckTag | heal.go:175-187 | the tag guard: captures the tag first, compares it later, and fails on a cancelled wait, a failed Stat or a changed tag |
| HealingBodies.HealingBody.Reconnect | heal.go:169-202 | closes, stays within the budget, checks the tag, requests the rest and arms a new watchdog, the old one being stopped, exactly as the heal step of the specification |
| HealingBodies.HealingBody.AfterError | heal.go:117-134 | what the loop does with a read that ended in an error, equal to the recovery step of the specification, with the watchdog stopped at end of file |
| HealingBodies.HealingBody.Read | heal.go:110-139 | the retry loop fills the caller's buffer with exactly the bytes the specified read delivers, touches nothing beyond them, and ends |
| HealingBodies.HealingBody.Close | heal.go:204-211 | the first Close closes the current connection and stops its watchdog, later ones change nothing |
| Watchdog.Watchdog.constructor | heal.go:256-260 | a new watchdog checks four times a window, has seen no interval and has not tripped |
| Watchdog.Watchdog.Check | heal.go:269-286 | over every run of checks, a watchdog closes its target at the first check whose last four intervals each brought less than the minimum, and at no other; a check that finds it stopped does nothing, and a stop that comes while a check runs does not hold that check back |
| Watchdog.StarvedIsSlow | heal.go:275-284 | the counter of slow intervals in a row reaches four exactly when the last four intervals were all slow |
| Watchdog.ShortExactlyWhen | heal.go:274-275 | in bytes and nanoseconds: an interval is short exactly when it brought nothing, or too little to keep up with the floor even with one more byte |
| Watchdog.FastEnoughSurvives | heal.go:269-286 | a connection that brings more than four times (minimum - 1) bytes in every four intervals is never closed |
| Watchdog.FinalNeedsSilence | heal.go:102-108 | the final allowed connection is closed exactly after four intervals without a single byte |
| Watchdog.NonFinalIsHeldToFloor | heal.go:102-108 | any other connection is closed exactly after four intervals in a row that were short of the floor, in bytes and nanoseconds |
| Parts.SpansPartition | fetchranged.go:93-108 | the loop cuts an object into ceil(size / PartSize) non-empty parts that cover every position exactly once |
| FetchParts.WritersOwnParts | fetchranged.go:93-110 | in every interleaving the parts handed out are the first parts of the partition, all of them once the loop ran out, and no part writer is left when the single stream starts or the call returns |
| FetchParts.CleanJoin | fetchranged.go:110-113 | when every worker has left without an error and the loop ran out, every position has been written |
| FetchParts.NilMeansWholeObject | fetchranged.go:45-114 | in every interleaving without cancellation by the caller, a nil error means the destination holds exactly the object, on the ranged and on the degraded path |
| FetchParts.PoolIsBounded | fetchranged.go:79-104 | at most Concurrency workers hold a token at any time |
| FetchParts.PoolIsUsed | fetchranged.go:79-104 | the bound is exact: with parts enough, some run holds all tokens at once |
| FetchParts.NilIsCompleteExactlyWhen | fetchranged.go:51-113 | with cancellation allowed, a nil error comes with the whole object exactly when the launcher had reached the end, or the single stream was used after a failure or because the object is below the threshold |
| FetchParts.AbandonedDownloadReportsNil | fetchranged.go:98-113 | a caller that cancels before the first part gets nil and no bytes |
| FetchParts.NilIsWholeExactlyWhen | fetchranged.go:45-114 | for a caller to check beforehand: every nil error means exactly the whole object if and only if the caller never cancels, or the object is below the threshold, or it is empty |
| FetchResults.ResultFollowsFailures | fetchranged.go:45-130 | in every interleaving without cancellation by the caller, the result is nil if no part failed, the missing object if the parts failed for nothing else, and what the single stream came to if they failed for anything else; no failure of a part is lost |
| FetchResults.DegradesRatherThanFails | fetchranged.go:54-60 | unless a part found the object missing or the single stream failed, a download that was not cancelled returns nil |
| FetchResults.FirstErrorStays | fetchranged.go:85-92 | the error on record is the first one reported |
| FetchResults.CancelStopsLaunching | fetchranged.go:94-100 | after a failed part or a cancellation no further part is handed out |
| FetchResults.CancelledIsNotDegraded | fetchranged.go:55-57 | a caller that cancels before the workers have left gets no single stream, but the error on record |
| FetchProgress.NotStuck | fetchranged.go:93-130 | until the download has returned, some step other than cancellation changes the state |
| FetchProgress.MeasureDrops | fetchranged.go:93-130 | every step that changes the state, cancellation apart, lowers one measure |
| FetchProgress.DownloadAlwaysEnds | fetchranged.go:45-114 | whatever happened before, a run of effective steps is no longer than the measure, and one that cannot go on has returned a result |
| OrderedReader.ReaderDeliversObject | fetchranged.go:181-258 | in every interleaving the bytes before the first error are a prefix of the object, and end of file without cancellation means every byte was delivered once |
| OrderedReader.EofIsTruthfulExactlyWhen | fetchranged.go:186-225 | with cancellation allowed, an end of file of the ranged path is truthful exactly when the producer had made every part |
| OrderedReader.AbandonedReaderReportsEof | fetchranged.go:186-225 | a cancelled caller may read a clean end of file before the first byte |
| OrderedReader.EofIsWholeExactlyWhen | fetchranged.go:181-225 | for a caller to check beforehand: every end of file means the whole object if and only if the caller never cancels or the object is empty |
| OrderedReader.FallbackExactlyForFirstPart | fetchranged.go:232-248 | a failed part is answered by the single stream exactly when it lies at offset 0 and the object is not missing; otherwise its error is returned |
| OrderedReader.FallbackHasCause | fetchranged.go:232-246 | whenever the single stream is being read, an earlier state waited for the failed part at offset 0, and the object was not missing |
| OrderedReader.PipelineIsBounded | fetchranged.go:181-201 | in every reachable state at most Concurrency fetches hold a token, at most Concurrency channels are queued, and at most Concurrency + 1 started parts are not fully delivered |
| OrderedReader.PipelineIsUsed | fetchranged.go:181-202 | the bound is exact: with parts enough, some run has Concurrency fetches at work |
| OrderedReader.NotStuck | fetchranged.go:181-250 | as long as Read has returned no error, some step other than cancellation changes the state |
| OrderedReader.MeasureDrops | fetchranged.go:181-250 | every step that changes the state, cancellation apart, lowers one measure |
| OrderedReader.RunsEnd | fetchranged.go:181-250 | so no run of such steps is longer than the measure |
| OrderedReader.CanFinish | fetchranged.go:217-258 | and every state leads to end of file or an error |
| OrderedReader.ReaderAlwaysEnds | fetchranged.go:181-250 | whatever happened before, a run of effective steps is no longer than the measure, and one that cannot go on has brought Read to end of file or its first error, the producer having returned and every fetch having given its token back |
| ReaderResults.EndFollowsFirstFailure | fetchranged.go:204-258 | in every interleaving without cancellation by the caller, the reader ends with end of file if no part failed; else as the first part in the object that failed says: with what the single stream comes to if it lies at offset 0 and the object is not missing, and otherwise with its error |
| ReaderResults.FailureIsNeverHidden | fetchranged.go:204-215 | a part that failed, or whose body fell short, is never handed out: end of file then comes from the single stream, read to its end, and the part at offset 0 is among the failed ones |
| ReaderResults.CancelledReaderEnds | fetchranged.go:222-235 | after the caller cancelled, a reader still reading parts asks for no single stream and ends with end of file or as cancelled |
| OrderedReaders.ReadCloser.constructor | fetchranged.go:151-155 | a new reader stands at the start state of the machine |
| OrderedReaders.ReadCloser.Accept | fetchranged.go:232-250 | what Read does with a received result is the machine's Receive step: keep a good part, fall back before the first byte, or fail |
| OrderedReaders.ReadCloser.Read | fetchranged.go:217-258 | one call, between any steps of the producer, the fetches and the caller, puts exactly the next bytes into the buffer, touches nothing beyond them, returns at least one byte of a part if there is room, and keeps all delivered bytes a prefix of the object, with end of file meaning all of it unless the caller cancelled |
| HealedFetch.ReadCopiesPart | fetchranged.go:117-125 | one read of a healed part returns the next bytes of the part, and a clean end comes only after the last of them |
| HealedFetch.CleanEndFinishesPart | heal.go:141-155 | over connections that may end early, every clean end a worker sees completes its part |
| HealedFetch.HealedRunIsPlainRun | fetchranged.go:116-130 | every run of the download over healing bodies, with reads and writes that may fail, also in the middle of a chunk, is a run of the plain download |
| HealedFetch.HealedDownloadIsWhole | fetchranged.go:93-130 | over a fixed object, however the parts' connections break or end early and whatever writes fail, a nil error means the destination holds exactly the object unless the caller cancelled |
| HealedReader.ReadFillsPart | fetchranged.go:204-215 | one read into the rest of a part's buffer through a healing body brings the next bytes of the part, and a clean end comes only with a full buffer |
| HealedReader.OnlyHealingFailureFailsFetch | fetchranged.go:204-215 | an early clean end never fails a fetch: it goes on, sends exactly the part, or the healing body itself reported an error |
| HealedReader.HealedRunIsPlainRun | fetchranged.go:196-215 | every run of the streaming reader over healing bodies is a run of the plain pipeline |
| HealedReader.HealedReaderDeliversObject | fetchranged.go:181-258 | over a fixed object, however the parts' connections break or end early, the bytes returned before the first error are a prefix of the object, and all of it at end of file unless the caller cancelled |
| CasStore.OneHandleIsRegister | fs.go:86-96 | on a root with any files, when each key is written through one handle and no Delete comes between a tag match and its commit, every run is a run of an atomic compare-and-swap register: a success saw its precondition hold and installs its whole body, a failure changes nothing |
| CasStore.AtomicExactlyWhenCurrent | fs.go:359-374 | with any handles and Deletes at any time, a run is a run of the register, each write taking effect at its commit or, if refused, at its check, if and only if every commit of a writer that matched a tag finds that tag current |
| CasPolicies.PolicyIsAtomicExactlyWhen | docs/SEMANTICS.md:23-25 | on a root with any files, for any rule that says which handle may write which key blindly, if absent or by tag, and which keys may be deleted: all obedient runs are runs of the register, each write taking effect at its commit or refusing check, if and only if each key that is updated by tag, and is there or can come into being, is never deleted and is replaced through that one handle only, while writes that ask for absence may come from anywhere |
| CasPolicies.DeleteInWindowBreaksMatch | fs.go:300-314 | from any state with the key and a free handle, a Delete between check and commit lets a tag match succeed on an absent key, and neither order of the two explains what is left |
| CasPolicies.TwoHandlesLoseUpdate | fs.go:31-35 | from any state with the key and two free handles, a blind or tag-matching write on one and a tag-matching write on the other can both succeed, and neither order of the two explains what is left |
| CasStore.OpensSeeWholeBodies | fs.go:109-134 | whatever is visible under a key was there at first or is the complete body of one successful write, and a writer past its spooling has consumed its whole body, also when its precondition fails |
| CasStore.AbsentWritesAreBounded | fs.go:356-374 | across any handles, with Deletes at any step and any files at first, the absent-only successes on a key are at most its successful Deletes, and one more if it starts absent |
| CasStore.IoErrorsHaveCauses | fs.go:79-96 | when nothing the system does fails and promised lengths are kept, every write succeeds or has found its precondition failed |
| CasStore.NoWriteIsStuck | fs.go:86-97 | in every reachable state the next step of a write is possible, or it waits for a lock and the next step of that lock's holder is |
| FsStores.PutAlone | fs.go:68-134 | with nobody else at work, a Put has the effect of the register's operation, and without faults its outcome is success exactly when the precondition holds |
| FsStores.Store.WriteAndSync | fs.go:399-424 | copying in chunks of any size leaves the whole body in the temporary file, unless the body breaks off or misses its declared length |
| FsStores.Store.CheckIfMatch | fs.go:331-354 | the precondition: none, absent, or a current entity tag |
| FsStores.Store.Install | fs.go:359-374 | Link refuses an existing key and leaves a second name to remove, Rename replaces the file and leaves none |
| FsStores.Store.Put | fs.go:68-134 | files and outcome are those of the specified Put and the lock is released, whatever fails; the temporary file stays behind exactly when it could not be removed and was not renamed away |
| FsStores.Store.Delete | fs.go:301-314 | removes the file of a key that is there, reports a missing one, and changes nothing when the system refuses |
| FsStores.PutAloneIsRun | fs.go:68-134 | a Put that runs undisturbed on a free handle is a run of the step machine with the same files and outcome, and the lock given back |
| Keys.AfterLast | docs/SEMANTICS.md:48-51 | the keys after the last key of a page are the remaining keys, in the same order |
| Keys.PagesConcatenate | docs/SEMANTICS.md:48-51 | pages taken from any starting key concatenate to the whole ordered listing |
| Keys.PagingEnumerates | docs/SEMANTICS.md:48-51 | for any page size, paging ends and yields each key with the prefix once, strictly ascending |
| Keys.LessExactlyWhen | fs.go:240 | keys are ordered by their first difference, and a key comes before its extensions |
| Keys.PageSize | fs.go:263-266 | a page holds the page size or, if they are fewer, all matching keys |
| FsListing.Visit | fs.go:214-258 | the callback of the walk fails, skips or takes an entry exactly as its filters and its errors say |
| FsListing.List | fs.go:209-268 | fails exactly when the walk cannot visit an entry or a wanted object cannot be read, and otherwise returns exactly the first keys with the prefix after startAfter, in byte order, each with the size, time and tag of its entry |
| FsListing.ListAll | docs/SEMANTICS.md:48-51 | calling List again from the last key until a page is empty terminates, fails exactly when some entry cannot be visited or some object with the prefix cannot be read, and otherwise enumerates the stored objects with the prefix |
| FsListing.StoredKeysAreListedExactlyWhen | fs.go:228-231 | every stored key is found by paging if and only if none has ".tmp." in its last segment |
| FsListing.TemporaryExactlyWhen | fs.go:229 | a key is taken for a temporary file if and only if ".tmp." occurs behind its last slash |
| FsListing.LeftoversAreHidden | fs.go:79-82 | what a write leaves behind under its temporary name is never listed |
| KeyPath.PathSegments | fs.go:58-64 | the path of an accepted key is the root followed by the key's segments other than "." |
| KeyPath.AcceptedExactlyWhen | fs.go:51-65 | a key is accepted if and only if it is not empty, neither begins nor ends with a slash, and has no two slashes or dots in a row |
| KeyPath.DotDotWouldLeave | fs.go:55-57 | why ".." is refused: as a segment it would lead to the directory around the root |
| KeyPath.ListingRecoversExactlyWhen | fs.go:51-65 | an accepted key has a path strictly below the root from which the listing recovers the key, if and only if no segment is "." |
| KeyPath.PathsAreDistinct | fs.go:51-65 | distinct accepted keys without "." segments have distinct paths |
| KeyPath.DottedKeysCollide | fs.go:58-64 | every other accepted key lands on the root or on the path of a different accepted key |
| KeyPath.PutKeysAreListed | fs.go:214-267 | over an unchanged store of accepted keys without "." segments, paging yields exactly the stored keys with the prefix that do not look temporary, once each, in order |
| FsDirs.PathOfKeyIsPath | fs.go:58-64 | the path the directories are made and pruned for is the one the store computes for the key |
| FsDirs.PrunedIsHoused | fs.go:315-322 | pruning never removes a directory in which a file or a directory lies |
| FsDirs.PrunedOnTheWay | fs.go:315-322 | it removes only parents of the deleted path, none that the system refuses, and none outside the root if it starts in it |
| FsDirs.DeletedIsHoused | fs.go:309-323 | a Delete takes the named file and nothing but directories on its path, and everything left still lies in a directory |
| FsDirs.DeletedIsTight | fs.go:309-323 | below the root, a Delete in a tree without empty directories leaves none, unless the system refuses to remove one |
| FsDirs.TightIsExact | fs.go:315-322 | a tree without empty directories below the root has there exactly the directories its files need |
| FsDirs.DeleteStaysBelowExactlyWhen | fs.go:301-323 | over every tree, a Delete removes only what lies below the root if and only if some segment of the key is not ".", or the root is the top of the filesystem |
| FsDirs.RootIsRemoved | fs.go:309-322 | over an empty store with nothing beside it, a Delete whose path is the root succeeds and leaves no directory but the top of the filesystem |
| FsDirs.DeleteSucceedsExactlyWhen | fs.go:309-314 | without an object at the path, a Delete succeeds exactly when the path is a directory that can be removed, and so never below the root of a tree without empty directories |
| FsDirs.Tree.MakeParents | fs.go:76-78 | the parents of a key are made from the outside in; on success all are there, and a failure has its cause in a file in the way or in the system |
| FsDirs.Tree.Remove | fs.go:301-323 | the method's tree and answer are those of the specified Delete |
| Prefixed.MakeAddsPrefix | prefixed.go:17-31 | wrapping adds the slash-terminated prefix to the combined one, whether or not nested views are merged, and nothing for an empty prefix |
| Prefixed.TrailingSlashIsNormalised | prefixed.go:21-23 | a prefix with and without a trailing slash makes the same view |
| Prefixed.MakeStaysFlat | prefixed.go:24-28 | no view ever lies directly in another one |
| Prefixed.StripInPlace | prefixed.go:72-74 | the loop over a page strips the prefix from every key in place and changes nothing else |
| Prefixed.PageUnder | prefixed.go:62-71 | the page of the inner store under the rewritten prefix and starting key is the view's own page with the prefix in front |
| Prefixed.OneView | prefixed.go:37-80 | every call through one view has the reply, modification times and failures included, and the effect of the same call on the store of keys under the prefix, and no other key changes |
| Prefixed.StackIsStoreUnderPrefix | prefixed.go:17-80 | the same for any stack of views and delegating wrappers under the combined prefix |
| Prefixed.PutThenRead | bucket.go:61-84 | through any stack, a Put succeeds exactly when its condition meets what a Get answered before; then Get, GetRange and Stat of the key answer with the new object, and else nothing changes; other keys read as before |
| Prefixed.DeleteThenRead | bucket.go:91-92 | through any stack, a Delete succeeds exactly when a Get found the key; afterwards no read finds it, and other keys read as before |
| Prefixed.OthersChangeNothing | bucket.go:70-89 | through any stack, no other call changes anything |
| Prefixed.IsolatedExactlyWhen | prefixed.go:13-16 | no call through a view is ever noticed under another prefix if and only if neither combined prefix is a prefix of the other |
| Prefixed.NamesAreIsolated | prefixed.go:21-23 | views for different slash-free names are isolated even when one name begins with the other |
| Prefixed.TurnsDoNotInterfere | prefixed.go:13-16 | beside another isolated view, a view answers every sequence of calls like a plain store of its own, whatever the other does in between |
| RangeText.FormatParses | s3.go:337-347 | a server that follows sections 14.1.1 and 14.1.2 of RFC 9110 reads the header back as the range that was meant, and refuses it when the last position wrapped around |
| RangeText.ServedIsSliceExactlyWhen | s3.go:337-347 | the server's selection is the slice the filesystem store selects if and only if the range starts inside the object, its last position fits in 64 bits, and a suffix is not bounded to fewer bytes |
| RangeText.GetRangeIsSlice | fs.go:183-205 | the range reader starts out with exactly the slice to deliver, for all 64-bit offsets and lengths, also when the end position wraps around |
| RangeText.ReadDeliversNext | fs.go:383-393 | each read delivers the next remaining bytes, and reports end of file exactly when none remain (a bare file says so only to a non-empty buffer) |
| RangeText.DrainDelivers | fs.go:383-393 | over any buffer sizes the reads deliver a prefix of the remaining bytes, and all of them at end of file |
| RangeText.DrainEnds | fs.go:383-393 | with non-empty buffers, one more read than there are bytes reaches end of file |
| RangeText.FileServesFormattedRange | s3.go:337-347 | a drained range reader has delivered exactly what the server selects for the formatted text |
| RangeText.LimitedFile.Read | fs.go:383-393 | the method reads into the caller's buffer and counts down exactly as the specified reader |
| StripeHealth.SickExactlyWhen | clientset.go:129-158 | after any calls at times in any order, the detector reports sick exactly when it samples now and the maximal latest run of slow, busy samples, measured from the sample before it, spans the window |
| StripeHealth.SickMeansStarved | clientset.go:129-158 | a sick stripe had requests in flight at every sample of a span of at least the window, and moved fewer bytes over it than the floor allows |
| StripeHealth.SlowWindowIsSick | clientset.go:150-155 | the first sample at which slow samples span the window reports the stripe |
| StripeHealth.SlowSpan | clientset.go:142-149 | rates below the floor between consecutive samples add up to fewer bytes than the floor over the whole span |
| StripeHealth.Stripe.Sick | clientset.go:133-158 | the method's answer and new state, told by the history of its calls |
| StripeSet.InflightIsExact | clientset.go:76-100 | under any interleaving of requests, evictions, failures and repeated closes, each stripe's counter is the number of requests counted onto it that have neither failed nor been closed, so never negative |
| StripeSet.QuietSetIsEmpty | clientset.go:168-173 | when every request has failed or been closed, every counter is zero |
| StripeSet.EvictedStaysOut | clientset.go:79-94 | a stripe is swapped out at most once, never returns to a slot, and is never counted for a request that began after it was swapped out |
| StripeSet.NothingIsStuck | clientset.go:76-100 | in every reachable state the next step of every request is possible, whatever the others do |
| StripeSet.PicksCollideExactlyWhen | clientset.go:77-78 | two picks fewer than k apart share a slot exactly when the 64-bit counter wrapped around between them at a distance that k divides |
| StripePicks.RequestsUseTheirSlot | clientset.go:77-91 | in every interleaving, with evictions at any time, each request is counted onto a stripe that was made for the slot its turn in the round robin names |
| StripePicks.NearbyRequestsSpread | clientset.go:77-92 | requests fewer than k apart share no stripe, unless the 64-bit counter wrapped around between them at a distance that k divides |
| StripePicks.EvictedExactlyWhenSick | clientset.go:79-91 | in every interleaving, exactly the stripes that some request judged sick are evicted, apart from those whose swap is still to come |
| StripePicks.JudgedIsAvoided | clientset.go:79-92 | a request that judged its stripe sick is never counted onto it, whoever replaces it |
| StripePicks.RequestGivesBack | clientset.go:92-98 | a counted request whose transport fails gives its place back without a close, one that gets a response gives it back once, when its body is closed |

## Left out

- The S3 client, HTTP transports, dialers, TLS, and parsing of URLs and of the environment: calls into unseen libraries.
- Cache-control and consistent-read hints, metering, logging and its rate limits: single-branch facts and counters.
- Entity tags are taken to identify contents; SHA-256, fsync and random temporary names are not modelled. Link and Rename are atomic, an open file is a snapshot, and no key is a directory of another. In the conditional writes a key stands for the file it names, so keys the store refuses do not occur and keys with one path are one key.
- Whether the tag and the body that `FS.Get` returns belong together while a write runs: the code computes them in two steps (`fs.go:145-152`) and the model claims nothing.
- Real time and rounding: rates are exact fractions of integer nanoseconds, and the watchdog's minimum is the exact floor.
- A watchdog that closes its connection appears to the healing body as a break in the network's script; the two objects are linked by arming, progress and stopping only.
- Connections are values in the network's script, so their identity is a number; a connection closed while a Read is blocked on it is again a break.
- The loops of the part launcher and of the producer, and the steps of a request through the stripes, run beside other goroutines; they appear as events on values, not as methods that update variables.
- Goroutines are steps of a machine over values; the Go memory model and channels as objects are not modelled.
- Cancellation is modelled for what it makes the download and the reader return; how soon a blocked call notices it is not. `orderedReader.Close` is the caller's cancellation as far as the pipeline can tell; reads after a first error or after Close are not modelled.
- Negative part sizes and concurrency, zero stripes, and overflow of int64 positions outside `RangeText.dfy`.
- A range body never delivers more bytes than were asked for, and the body of the whole object ends cleanly only at its end.
- Prefixed.OneView: an entity tag is represented by the contents it names, a failed call leaves either no effect or its whole effect, and the kinds of backend errors are one.
- FsListing.List: the walk is the sequence of entries it visits, the page size of 1000 is a parameter, and sorting is insertion sort in place of the library's.
- KeyPath.ListingRecoversExactlyWhen: paths are '/'-separated, and a character stands for a byte.
- StripeHealth.Stripe.Sick: the byte counter and the in-flight counter are read once per call, and a window is not negative.
- FsStores.Store.Delete: covers the file only; the directories are those of `FsDirs.Tree`. A Put that makes directories while a Delete prunes them is not considered.
- FsDirs.Tree.MakeParents: making and pruning are single steps, so one that is interrupted halfway by another process is not covered.
- StripeSet.InflightIsExact: whether a stripe is sick is decided by the event, and closing idle connections of a swapped-out transport and the inner body's own Close are not modelled.
