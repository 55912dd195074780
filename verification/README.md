# Verified core

A Dafny model of the parts of this repository whose correctness is an argument rather than a reading: the
failure rate limiter, the header timeout of the server, the atomic write of secret files, the configuration
loader, two caches, the in-memory session store and the client IP walk.

Each component has the same shape. Its value-level meaning is a set of functions on datatypes. Where the
source updates objects in place the model has a class with the source's fields, and each of its methods is
proved equal to one of those functions. Where tasks interleave, a run is a sequence of atomic events (one for
each lock block, map access or notification) built from the *same* functions, so what is proved about all runs is
about what the methods do.

| file | component |
|---|---|
| `RateLimitSpec`, `RateLimitAnswers`, `RateLimiter` (module `RateLimit`), `RateLimitRuns`, `RateLimitSafety`, `RateLimitWaking`, `RateLimitRoom`, `Selection` | `crates/rate_limit`: the retry delay; what an attempt is told; the classes; runs of strict and best effort attempts, cleanup and eviction; the budget, wake-up and handle theorems; making room |
| `HeaderTimeout`, `HeaderStream`, `HeaderFrames` | `crates/server/src/timeout.rs`: the incremental recogniser as a class and as a byte machine; the whole-stream parser of RFC 9113 it refines; the frames a client sends, written out from their fields |
| `Disk`, `FileSystem`, `ParentDirs`, `SecretWrite` | `crates/secret_file`: a directory with visible, pending and synced state; failing system calls; the write protocol |
| `Json`, `Merge`, `MergeLaws` | `crates/config/src/merge.rs`: both merges, and their laws |
| `Text`, `EnvFile`, `EnvForms`, `JsonTree`, `EnvObject` | `crates/config/src/env_file.rs`: the parser and its inverse, for every form a line can have; the object builder with its conflicts |
| `DirScan`, `Includes`, `LoadOrder` | `crates/config/src/load.rs`, `lib.rs`: the scan of a directory, the include walk, the order of files and their deduplication |
| `Redact`, `RedactPath`, `RedactKinds` | `crates/config/src/error.rs`: redaction of serde's messages; behind a yaml path that holds anything, for each kind of value |
| `ReloadCache`, `TimeoutCache` | `example/server/src/state.rs`, `crates/cache`: freshness; one lock for a key |
| `SessionStore` | `crates/server/src/session.rs`: the bounded store against an unbounded map |
| `ClientIp` | `crates/request_ip`: the right-to-left walk |

## What turned out not to hold as written

Each of these has an input for which it fails, and a condition that is proved for all inputs: an exact one, but for the
second.

- **The retry delay is not always exact** (`crates/rate_limit/src/lib.rs:577-592`). `check` and `reserve` read `now`
  before they take the lock, and a failure may be recorded in between. `RateLimitSpec.DelayExactness` and
  `RateLimitAnswers.ReserveDelayExactness`: the delay is exact if and only if the failure it is computed from is not later than `now`. `DelayTooShort` is an input for which it is
  not, and `RateLimitSafety.DelayTooShortInRun` a run that comes to it.
- **A sleeping strict attempt may be able to reserve for a moment** (`crates/rate_limit/src/lib.rs:369-376`): between a
  drop unlocking and its `notify_waiters`. `RateLimitSafety.NoLostWakeUp` therefore says: blocked, *or* a notification is
  about to be sent; `GapBeforeNotify` is a run in the gap. A notification that is about to be sent does not mean that an
  attempt is free: `RateLimitWaking.FailuresFreeNothing` says that there is none while nothing but failures in the window are
  about to notify.
- **"Every later read fails too"** (a comment at `crates/server/src/timeout.rs:200-201`). A read whose bytes bring the client to
  where it owes no headers lifts the deadline before it is looked at. `HeaderStream.LaterReadFails`: a read after the
  deadline fails if and only if the client owes headers after each of its bytes, by the parser of the whole stream.
  `MismatchReadsOn` (a byte that is not the preface's) and `HeadersReadOn` (a frame that ends the header block) are inputs for
  which it succeeds.
- **Merging is not associative in general** (`crates/config/src/merge.rs:95-146`). `MergeLaws.AssociativeExactly`: merging two
  sources and any third is the same in either order if and only if the values of the keys both have let it, a condition on
  their types (`Lets`) down to where the merge goes. `NotAssociativeInGeneral` is an input for which it is not;
  sources of one shape always let it (`MergeIsAssociative`).
- **A file written in place lasts no better than its entry did** (`crates/secret_file/src/write.rs:19-24`, `251-268`): the
  directory is synced after a rename only. `SecretWrite.LastsExactly`: what was written survives every crash under its name if
  and only if it is a new file, or the entry of the file before was sure to be on disk. `LostInPlace` is a disk for which it is
  lost.
- **A value may come out behind a yaml path that holds a quote or backtick** (`crates/config/src/error.rs:33-46`: keys "may
  hold anything"). When text in the path that ends before its first quote or backtick reads like serde's wording, it is
  taken for serde's, and the quote or backtick for that of the value; the value's own then may close it, and what follows is
  kept. `RedactKinds.StringLeaks` (a path `unknown variant ": `), `NumberLeaks` and `NameLeaks` (a path ``missing field `: ``)
  are inputs for which the value comes out, for any value. All values of a kind come out as one text if and only if the path
  has no quote or backtick, or no such wording ends before the first one, or, with such a wording: for a string, when the
  wording is not about an unknown name, that every quote and backtick met in scanning the path is closed in it, and when it
  is, that the text behind the value holds an end of such a message (`RedactPath.StringsExactly`); for an unknown name, that
  the wording is about one too (`RedactKinds.NamesExactly`); for a character, that the wording is about an unknown name or
  all is closed in the path (`CharactersExactly`); for a number or boolean, that the wording is about an unknown name or no
  backtick is met open in the path (`NumbersExactly`).

## Model

| member | source | states |
|---|---|---|
| RateLimitSpec.PrunedTwice | crates/rate_limit/src/lib.rs:323-332 | pruning at some time loses nothing that a later prune would keep, so attempts may prune with an older `now` |
| RateLimitSpec.IdleHasNoneLive | crates/rate_limit/src/lib.rs:662-681 | an entry that `is_stale` calls stale by its last failure alone has no failure in the window, now or later |
| RateLimitSpec.BudgetUsedUntil | crates/rate_limit/src/lib.rs:577-592 | an ordered list uses up the budget exactly as long as its `max`-th last failure is in the window |
| RateLimitSpec.DelayExactness | crates/rate_limit/src/lib.rs:639-657 | the delay of a refusal is exact (refused before it, accepted from it on) if and only if the deciding failure is not later than the `now` that was read, however far failures exceed the budget |
| RateLimitAnswers.ReserveDelayExactness | crates/rate_limit/src/lib.rs:597-618 | the same for the delay a strict attempt is refused with |
| RateLimitAnswers.PrunedIsRest | crates/rate_limit/src/lib.rs:323-332 | of failures in order, those recorded a window ago or longer are the first ones, and exactly they are dropped |
| RateLimitAnswers.CheckIsTold | crates/rate_limit/src/lib.rs:577-592 | a best effort attempt is refused if and only if the failures that count are as many as the budget, with the time until the one the budget away from the last stops counting |
| RateLimitAnswers.ReserveIsTold | crates/rate_limit/src/lib.rs:597-618 | a strict attempt is refused in the same cases; it reserves, and `in_flight` rises by one, if and only if the failures that count and `in_flight` together are below the budget; else it waits, until the first failure that counts stops counting |
| RateLimitAnswers.RefusedExactly | crates/rate_limit/src/lib.rs:604-608 | it is refused if and only if the failure the budget away from the last one counts |
| RateLimitAnswers.IdleExactly | crates/rate_limit/src/lib.rs:677-680 | idle by its last failure is: nothing reserved, and no failure counts |
| RateLimitSpec.DelayTooShort | crates/rate_limit/src/lib.rs:577-592 | a concrete refusal whose delay is too short |
| RateLimitSafety.DelayTooShortInRun | crates/rate_limit/src/lib.rs:577-592 | a run in which an attempt looks up the entry at 5, a strict one fails at 7, and the attempt's check is refused with a delay that is too short |
| RateLimit.RateLimiter.Get | crates/rate_limit/src/lib.rs:554-556 | the entry on the map, held once more, and no other entry touched |
| RateLimit.Entry.DropHandle | crates/rate_limit/src/lib.rs:663-673 | a handle that goes away is one reference less for `is_stale` |
| RateLimit.Attempts.Prune | crates/rate_limit/src/lib.rs:323-332 | keeps exactly the failures in the window, in order |
| RateLimit.RateLimiter.Check | crates/rate_limit/src/lib.rs:577-592 | what a best effort attempt sees and leaves, with and without an entry; on failures in order, the answer as told above |
| RateLimit.RateLimiter.Reserve | crates/rate_limit/src/lib.rs:597-618 | refused, reserved or told when to look again, and the attempts afterwards; on failures in order, the answer as told above |
| RateLimit.RateLimiter.PushFailure | crates/rate_limit/src/lib.rs:626-634 | prunes and records in one lock, and what remains |
| RateLimit.RateLimiter.Fail | crates/rate_limit/src/lib.rs:355-366 | gives back the reservation and records the failure in one step, then notifies |
| RateLimit.RateLimiter.Release | crates/rate_limit/src/lib.rs:369-376 | gives back the reservation, then notifies |
| RateLimit.RateLimiter.IsStale | crates/rate_limit/src/lib.rs:662-681 | stale is: held by the map alone, nothing in flight, last failure out of the window |
| RateLimit.RateLimiter.CleanupAt | crates/rate_limit/src/lib.rs:726-734 | removes exactly the stale clients, and changes no other |
| RateLimit.RateLimiter.RemoveOldest | crates/rate_limit/src/lib.rs:692-717 | the second pass of making room, on a map rid of its stale clients |
| RateLimit.RateLimiter.MakeRoom | crates/rate_limit/src/lib.rs:686-718 | leaves a map that meets the room theorem below, touching no entry it keeps |
| RateLimit.RateLimiter.GetOrInsert | crates/rate_limit/src/lib.rs:559-573 | the entry on the map, or a new one in a map of at most the larger of the maximum and one more than the clients in use |
| RateLimitRuns.StepKeepsCoherent | crates/rate_limit/src/lib.rs:554-573 | every event keeps: a handle held for a client is the entry on the map for it |
| RateLimitSafety.ReserveFine | crates/rate_limit/src/lib.rs:597-618 | a reservation made with an outdated `now` still fits the budget of the current clock |
| RateLimitSafety.FailFine | crates/rate_limit/src/lib.rs:355-366 | the budget passes from the reservation to the failure without room in between |
| RateLimitSafety.ForgetFine | crates/rate_limit/src/lib.rs:662-681 | forgetting an idle client gives away no attempt |
| RateLimitSafety.SpreadAppend | crates/rate_limit/src/lib.rs:626-634 | one more failure within the budget keeps every interval of the window's length within the budget |
| RateLimitSafety.BudgetIsNeverExceeded | crates/rate_limit/src/lib.rs:597-618 | in every run, strict failures in the window plus reservations never exceed `max_attempts`, nor do the strict failures of any interval as long as the window; of all failures for a client without best effort ones |
| RateLimitSafety.ReservationsAreConserved | crates/rate_limit/src/lib.rs:355-376 | in every run `in_flight` is the number of live reservations, and failures are ordered |
| RateLimitSafety.HandlesAreCoherent | crates/rate_limit/src/lib.rs:554-573 | in every run, through cleanup and eviction, a held handle is its client's entry on the map, and no other client's |
| RateLimitSafety.NoFailureIsLost | crates/rate_limit/src/lib.rs:622-634 | in every run each failure lands on the entry on the map |
| RateLimitSafety.NoLostWakeUp | crates/rate_limit/src/lib.rs:179-193 | in every run, a strict attempt asleep, not notified and not expired, is blocked with some attempt in flight, or a notification is about to be sent (which need not mean that an attempt is free) |
| RateLimitWaking.FailuresFreeNothing | crates/rate_limit/src/lib.rs:355-376 | in every run, a strict attempt asleep, not notified and not expired, finds nothing to reserve while nothing but failures in the window are about to notify |
| RateLimitWaking.FailFull | crates/rate_limit/src/lib.rs:355-366 | a failure keeps the budget used up, at every time at which it is in the window |
| RateLimitSafety.GapBeforeNotify | crates/rate_limit/src/lib.rs:369-376 | a run in which the second case above is needed |
| RateLimitRoom.RoomSize | crates/rate_limit/src/lib.rs:686-718 | room for one more client, unless more are in use |
| RateLimitRoom.RoomOrder | crates/rate_limit/src/lib.rs:699-717 | an evicted client means no stale one stays, and none removable with an earlier last failure |
| RateLimitRoom.RoomIsEnough | crates/rate_limit/src/lib.rs:686-718 | the bound, that clients in use are never evicted, that stale ones go first, and the order among the rest |
| RateLimitRoom.RoomIsNoMore | crates/rate_limit/src/lib.rs:691-717 | no stale client stays; others are evicted only down to nine tenths of the maximum, and so far unless no unused client is left |
| RateLimitRoom.StaleExactly | crates/rate_limit/src/lib.rs:662-681 | stale is: held by the map alone, nothing in flight, and no failure that counts |
| Selection.SelectLowest | crates/rate_limit/src/lib.rs:711-717 | a choice of the given number of keys, none ranked above a key left behind |
| Selection.LowestExist | crates/server/src/session.rs:265-294 | such a choice always exists, so the runs that ask for one do not exclude any |
| HeaderTimeout.HeaderTimeout.OnRead | crates/server/src/timeout.rs:142-198 | a read of any length leaves the tracker as feeding its bytes one by one does; without a timeout nothing is followed |
| HeaderTimeout.HeaderTimeout.PollRead | crates/server/src/timeout.rs:211-235 | bytes are followed before the deadline is looked at, and a read past it fails |
| HeaderTimeout.HeaderTimeout.StartFrame | crates/server/src/timeout.rs:174-183 | the length of a frame, whether it ends a header block, and that only HEADERS without a deadline start one |
| HeaderTimeout.HeaderTimeout.ReadHeader | crates/server/src/timeout.rs:164-194 | a read while the frame header is not whole does what its bytes do one by one |
| HeaderTimeout.HeaderTimeout.TakePayload | crates/server/src/timeout.rs:185-194 | a payload is passed over, and its end lifts the deadline only of a block that ends |
| HeaderTimeout.FedFrame | crates/server/src/timeout.rs:163-194 | what completing a frame header and part of its payload does |
| HeaderTimeout.FedMismatch | crates/server/src/timeout.rs:149-156 | the first byte that differs from the preface makes it http/1 for good |
| HeaderStream.SplitsDoNotMatter | crates/server/src/timeout.rs:142-198 | any split of the bytes into reads ends in the state of one read of them all; the very same when read at one time |
| HeaderStream.DeadlineTellsOwed | crates/server/src/timeout.rs:89-97 | the deadline is set exactly while the client owes headers by a parser of the whole stream |
| HeaderStream.TimeoutIsAccurate | crates/server/src/timeout.rs:142-198 | the same after any sequence of reads at any times |
| HeaderStream.DeadlineIsNotMoved | crates/server/src/timeout.rs:142-198 | a deadline is only ever cleared, never moved |
| HeaderStream.LaterReadFails | crates/server/src/timeout.rs:200-235 | after any reads of a connection past its deadline, a read fails if and only if the client owes headers after each of its bytes, by the parser of the whole stream |
| HeaderStream.MismatchReadsOn | crates/server/src/timeout.rs:149-156 | a timed out connection on which a byte that is not the preface's is read |
| HeaderStream.HeadersReadOn | crates/server/src/timeout.rs:188-194 | a timed out HTTP/2 connection on which a frame that ends the header block is read |
| HeaderFrames.HeaderIsRead | crates/server/src/timeout.rs:174-179 | of a frame written out from its fields, the length, kind and flag are read back |
| HeaderFrames.WireIsCut | crates/server/src/timeout.rs:163-194 | any sequence of frames, the last in part, is taken apart into those frames |
| HeaderFrames.FramesLiftDeadline | crates/server/src/timeout.rs:89-97 | however a client's preface and frames, the last in part, are read, the deadline is unset if and only if a HEADERS or CONTINUATION frame with END_HEADERS arrived and no HEADERS frame has begun since |
| HeaderFrames.AnythingIsFrames | crates/server/src/timeout.rs:163-194 | any bytes behind the preface are such frames, so the above is about every client that sends the preface |
| HeaderFrames.PrefaceIsGreeting | crates/server/src/timeout.rs:39 | the preface is the text RFC 9113 gives |
| ReloadCache.ReloadCache.Load | example/server/src/state.rs:103-125 | keeps the value if and only if no change was announced since the load began |
| ReloadCache.ReloadCache.Changed | example/server/src/state.rs:128-133 | counts the change and drops the value |
| ReloadCache.KeptIsFresh | example/server/src/state.rs:103-133 | with any number of loaders and writers, a kept value was in the store at or after the last announced change, and is the current one when no change is unannounced |
| ReloadCache.NeverOlderThanChange | example/server/src/state.rs:97-125 | a call begun after a change was announced never returns an older value |
| ReloadCache.LoadIsKept | example/server/src/state.rs:119-123 | in every run, a value whose load ends without a change announced since it began is kept |
| ReloadCache.KeptUntilChange | example/server/src/state.rs:111-117 | until a change is announced a value stays kept, and a call that looks returns one without a load |
| TimeoutCache.TimeoutCache.GetLock | crates/cache/src/lib.rs:28-34 | the entry of the key, held by the caller, and no other entry touched |
| TimeoutCache.TimeoutCache.Remove | crates/cache/src/lib.rs:50-59 | removes the entry if and only if nobody holds it, and keeps that each key has an entry of its own |
| TimeoutCache.TimeoutCache.Prune | crates/cache/src/lib.rs:83-95 | removes exactly the entries not held that are older, and counts them, and keeps that each key has an entry of its own |
| TimeoutCache.ActionsAreExclusive | crates/cache/src/lib.rs:28-103 | through any interleaving of lookups, removals, prunes and drops all handles for a key are one entry, so no two callers run a key's action at once |
| SessionStore.MemoryStore.MakeRoom | crates/server/src/session.rs:265-294 | sweeps a full store, then evicts a batch of the earliest to expire, and leaves room |
| SessionStore.MemoryStore.DoSweep | crates/server/src/session.rs:250-253 | removes exactly the expired records |
| SessionStore.MemoryStore.DoMaybeSweep | crates/server/src/session.rs:255-259 | a sweep once the interval has passed |
| SessionStore.MemoryStore.Create | crates/server/src/session.rs:303-317 | under a free id, its own if free, after room was made |
| SessionStore.MemoryStore.Save | crates/server/src/session.rs:319-329 | replaces a record that is there without evicting, else makes room |
| SessionStore.MemoryStore.Load | crates/server/src/session.rs:331-347 | the record if it is active, and removes it if it is not |
| SessionStore.MemoryStore.Delete | crates/server/src/session.rs:349-355 | removes that record only |
| SessionStore.RoomFits | crates/server/src/session.rs:265-294 | after making room the store is below its maximum; it evicts exactly one or a tenth, whichever is more, when full of active sessions and none otherwise, and none that expires later than a kept one |
| SessionStore.StoreRefinesMap | crates/server/src/session.rs:249-356 | after every run the store is within its maximum, and a load finds what the unbounded map holds, which is what expires later than now, but for sessions evicted since they were last written |
| SessionStore.EvictionIsFair | crates/server/src/session.rs:265-294 | in every run a write evicts only when the swept store is full, then exactly one or a tenth, and in order of expiry |
| SessionStore.SweepsInTime | crates/server/src/session.rs:255-259 | a write once the interval has passed since the last sweep leaves no expired session but what it writes |
| Merge.MergeSource | crates/config/src/merge.rs:95-146 | the loop over the source's keys gives the key-by-key merge, for all settings |
| Merge.MergeObjects | crates/config/src/merge.rs:15-76 | fails exactly when a path both objects have and the merge reaches holds an object or array against another type, with an error naming such a clash; else gives the lenient merge |
| Merge.MergeStrictly | crates/config/src/merge.rs:26-73 | for one key: the error of a clash at or below it, or the lenient value |
| MergeLaws.AssociativeExactly | crates/config/src/merge.rs:95-146 | with `split_lists` off, two sources merge with every third the same in either order if and only if the types of the values of their common keys let them |
| MergeLaws.MergeIsAssociative | crates/config/src/merge.rs:95-146 | associative on two sources of one shape and any third, for every setting of the flags |
| MergeLaws.EmptyIsIdentity | crates/config/src/merge.rs:95-146 | the empty object changes nothing on either side |
| MergeLaws.NotAssociativeInGeneral | crates/config/src/merge.rs:95-146 | three sources without a common shape for which the order matters |
| MergeLaws.FoldAtPath | crates/config/src/merge.rs:95-146 | the merged value at every path is the fold of the sources' values at that path |
| MergeLaws.SourceValueWins | crates/config/src/merge.rs:82-93 | on objects of any types, a value of the source that is no object, list or null (or is one that is not merged) is the merged value at its path |
| MergeLaws.LastValueWins | crates/config/src/merge.rs:82-93 | of many sources, the last that has such a value at a path gives it |
| MergeLaws.ListsAreJoined | crates/config/src/merge.rs:122-125 | with `extend_array` the merged list holds the items of all sources' lists in order |
| MergeLaws.NullIsPassedOver | crates/config/src/merge.rs:120-127 | a null keeps an object where objects nest, and a list where lists are extended |
| MergeLaws.SplitListIsAppended | crates/config/src/merge.rs:128-142 | with `split_lists` a comma separated string extends a list by its entries, without the space around them |
| EnvFile.ParseValue | crates/config/src/env_file.rs:214-285 | the loop over escapes reads double, single and unquoted values as the recursive definition does, errors included |
| EnvFile.SingleQuotedIsLiteral | crates/config/src/env_file.rs:266-281 | a single quoted value is accepted as some text exactly when it is that text between quotes, quotes inside included |
| EnvFile.ParseLine | crates/config/src/env_file.rs:175-207 | the entry a line adds, none for a blank line or a comment, or its error |
| EnvFile.ParseEntries | crates/config/src/env_file.rs:169-209 | the entries line by line, or the first error with its line |
| EnvFile.ErrorIsFirst | crates/config/src/env_file.rs:175-207 | the reported line is the first with an error, and the error is the one it has after the lines before it |
| EnvFile.EntriesAreDistinct | crates/config/src/env_file.rs:192-206 | the entries have distinct names that are not empty, and rising lines |
| EnvFile.ParseEnvFile | crates/config/src/env_file.rs:55-64 | the names and values of those |
| EnvFile.UnquotedEscaped | crates/config/src/env_file.rs:214-285 | reading undoes escaping, whatever the value and whatever follows the closing quote |
| EnvFile.LineReadsBack | crates/config/src/env_file.rs:169-209 | a printed line adds exactly its entry |
| EnvFile.ExportIsPassedOver | crates/config/src/env_file.rs:181-185 | a printed line with `export ` before it adds the same entry |
| EnvFile.RoundTrip | crates/config/src/env_file.rs:55-64 | printing entries with distinct well-formed names and arbitrary values, and parsing that, returns them |
| EnvForms.FormsReadBack | crates/config/src/env_file.rs:55-64 | entries with distinct names, each written bare, single or double quoted, with space around name and value, with `export` or without, between blank lines and comments, with a byte order mark or without, are read back in order |
| EnvForms.EntryIsRead | crates/config/src/env_file.rs:175-207 | a line so written adds exactly its entry |
| EnvForms.PassedExactly | crates/config/src/env_file.rs:175-180 | a line adds nothing, without an error, if and only if it is blank or its first character that is no space is `#` |
| EnvForms.DoubleQuotedExactly | crates/config/src/env_file.rs:221-265 | a double quoted value is accepted as some text if and only if it spells it, with the five escapes, up to a last quote |
| EnvForms.DoubleQuotedError | crates/config/src/env_file.rs:221-265 | else it is refused for the first thing that is not so spelled: its end, another escape, or something behind the closing quote |
| EnvForms.SingleQuotedError | crates/config/src/env_file.rs:266-281 | a single quoted value is refused for a missing second quote, else for what is behind it |
| EnvForms.NoEqualsIsError | crates/config/src/env_file.rs:186-191 | a line without `=` that is neither blank nor a comment is refused |
| EnvForms.DuplicateIsError | crates/config/src/env_file.rs:192-201 | so is one that assigns a name again, whatever the value |
| EnvForms.MissingNameIsError | crates/config/src/env_file.rs:192-195 | and one without a name |
| JsonTree.PutAt | crates/config/src/env_file.rs:106-142 | what is where after a value was set at a path |
| JsonTree.PutHolds | crates/config/src/env_file.rs:138-142 | setting a leaf that clashes with none adds exactly that leaf |
| JsonTree.HoldsUniquely | crates/config/src/env_file.rs:83-145 | the leaves determine the object |
| EnvObject.DottedIsUnique | crates/config/src/env_file.rs:88-103 | a nested and a flat path never share a key of `origins`, nor do two different paths |
| EnvObject.EntryPathExactly | crates/config/src/env_file.rs:95-103 | an entry goes to the at most 32 keys, none empty, whose dotted form is its name in lower case, or to that name as one key if there are none |
| EnvObject.TakenIsJustified | crates/config/src/env_file.rs:115-137 | where the builder reports a conflict, `origins` has the path, and names the entry that first reached it |
| EnvObject.Walk | crates/config/src/env_file.rs:104-125 | down to the object that is to hold the value, or a justified conflict |
| EnvObject.Insert | crates/config/src/env_file.rs:95-142 | an entry goes in exactly if it clashes with none before it |
| EnvObject.ParseObject | crates/config/src/env_file.rs:83-145 | succeeds exactly when no entry's path equals another's or is a proper prefix of it, with exactly these leaves; else names the first entry that cannot go in and the earlier one it clashes with |
| EnvObject.ParseEnvFileObject | crates/config/src/env_file.rs:83-145 | the same from the text on, with the parser's errors first |
| EnvObject.DepthIsBounded | crates/config/src/env_file.rs:97-103 | no leaf is deeper than 32 |
| EnvObject.OrderDoesNotMatter | crates/config/src/env_file.rs:83-145 | the same entries in any order are refused alike, and give the same object |
| Includes.Walk.LoadConfigFiles | crates/config/src/load.rs:52-191 | terminates on every include graph, appends the depth-first unfolding cut at the stack, and restores `visiting` on success |
| Includes.Walk.LoadFolder | crates/config/src/load.rs:97-190 | a directory's own files, then its includes' |
| Includes.Walk.LoadAll | crates/config/src/load.rs:178-188 | the includes in order, up to the first error |
| Includes.UnfoldedIsFound | crates/config/src/load.rs:52-191 | the files found are exactly those that a chain of includes without a repeated directory leads to |
| Includes.ErrorIsRefused | crates/config/src/load.rs:52-191 | loading fails if and only if the feature is off and some chain of includes without a repeated directory ends at a `cicada:` path |
| Includes.OnlyCyclesAreCut | crates/config/src/load.rs:87-96 | without include cycles the stack cuts nothing |
| DirScan.DirFiles | crates/config/src/load.rs:101-156 | the matching files of a directory, each once, by the last wildcard it matches, then by name |
| DirScan.SortedInOrder | crates/config/src/load.rs:154-156 | sorted, and a permutation |
| DirScan.LastMatchIsLast | crates/config/src/load.rs:132-144 | the priority is that of the last pattern that matches |
| DirScan.PriorityExactly | crates/config/src/load.rs:105-144 | a configuration file is a file other than the include file that matches a pattern, or without patterns is no env file; its priority is the last pattern it matches |
| DirScan.ScanIsOrdered | crates/config/src/load.rs:154-156 | the files come by that, then by name, compared where the names first differ |
| Includes.OwnIsScanned | crates/config/src/load.rs:101-156 | what a directory adds to the walk is exactly its entries that are configuration files, in the order of the scan |
| LoadOrder.FileOrder.Push | crates/config/src/lib.rs:185-196 | the map in insertion order after removing and reinserting, keeping a name of known type |
| LoadOrder.PushedIsDeduped | crates/config/src/lib.rs:174-196 | pushing any list leaves each key once, ordered by last occurrence, under its last path of known type if it has one, else its last path |
| LoadOrder.Collect | crates/config/src/lib.rs:198-248 | the files of all paths so ordered, or the first error of the walk |
| Redact.UnknownIsIndependent | crates/config/src/error.rs:70-95 | the message about an unknown variant or field comes out as one text for every value, keeping the names expected |
| Redact.UnknownAfterPath | crates/config/src/error.rs:32-95 | the same behind a yaml path without quotes and backticks |
| Redact.StringIsIndependent | crates/config/src/error.rs:32-118 | so does the message about a string of the wrong type or value, whatever escapes, backticks or wording are in it; for every parser, and behind a yaml path without quotes and backticks |
| Redact.CharacterIsIndependent | crates/config/src/error.rs:32-118 | and about a character, a backtick too; also behind a yaml path without quotes and backticks |
| Redact.NumberIsIndependent | crates/config/src/error.rs:32-118 | and about numbers and booleans; also behind a yaml path without quotes and backticks |
| Redact.WordingAfterPath | crates/config/src/error.rs:36-46 | the path ends where serde's wording begins, whatever else is in the path |
| Redact.DebugIsEscaped | crates/config/src/error.rs:98-101 | every value as written in double quotes has the form the pattern takes whole |
| Redact.MarkedPathIsIndependent | crates/config/src/error.rs:43-66 | behind a path with a quote or backtick of its own, before the first of which no wording of serde's ends, all is dropped but the text before it and the location |
| RedactPath.StringsExactly | crates/config/src/error.rs:32-118 | behind any yaml path and before any text, all strings come out as one text if and only if the path has no quote or backtick, or no wording of serde's ends before the first, or that wording is about an unknown name and the text behind the value ends such a message, or it is not and every quote and backtick met in scanning the path is closed in it |
| RedactPath.Scanned | crates/config/src/error.rs:98-118 | what comes of a path with a message behind it: the path up to its first open quote or backtick, redacted on its own, then the rest and the message redacted together |
| RedactPath.LocationAfterMark | crates/config/src/error.rs:50-65 | the location is read from behind the last quote or backtick, so it holds nothing of a value |
| RedactKinds.NamesExactly | crates/config/src/error.rs:32-95 | all unknown names come out as one text if and only if the path has no quote or backtick, or no wording of serde's ends before the first, or that wording is about an unknown name too |
| RedactKinds.NumbersExactly | crates/config/src/error.rs:32-118 | the same for numbers and booleans: the wording is about an unknown name, or no backtick is met open in scanning the path (nor behind an open quote, where the text behind the value closes none) |
| RedactKinds.CharactersExactly | crates/config/src/error.rs:32-118 | the same for characters: the wording is about an unknown name, or every quote and backtick met is closed in the path |
| RedactKinds.StringLeaks | crates/config/src/error.rs:37-46 | a path behind which every string without quotes and backticks comes out |
| RedactKinds.NumberLeaks | crates/config/src/error.rs:37-46 | a path behind which every number comes out |
| RedactKinds.NameLeaks | crates/config/src/error.rs:37-46 | and every unknown name without quotes and backticks that does not end in `character ` |
| Redact.LocationIsLast | crates/config/src/error.rs:50-65 | the location found is the one the message ends with |
| Redact.PlainMessageStays | crates/config/src/error.rs:32-118 | a message without quotes and backticks comes out as it is |
| ClientIp.WalkForwardingHeader | crates/request_ip/src/lib.rs:377-412 | the nested loops walk the hops of all lines from the right, with both error modes |
| ClientIp.WalkEntries | crates/request_ip/src/lib.rs:396-409 | the entries of one line from the right, ending the walk or passing on what was found |
| ClientIp.WalkHeaders | crates/request_ip/src/lib.rs:350-365 | the first header that yields an address or an error |
| ClientIp.GetClientIp | crates/request_ip/src/lib.rs:325-370 | the headers in order behind a trusted peer, else the peer |
| ClientIp.FirstUntrustedDecides | crates/request_ip/src/lib.rs:377-412 | the first hop from the right that is not a trusted proxy decides, whatever is left of it |
| ClientIp.AllTrustedGivesLeftmost | crates/request_ip/src/lib.rs:377-412 | when all are trusted it is the leftmost |
| ClientIp.AllFindsLeftmost | crates/request_ip/src/lib.rs:377-412 | under `All` it is the leftmost entry that is an address, and nothing is an error |
| ClientIp.SpreadDoesNotMatter | crates/request_ip/src/lib.rs:377-412 | a list over several header lines is the list on one line |
| ClientIp.RightmostUntrustedIsClient | crates/request_ip/src/lib.rs:325-370 | the client is the rightmost untrusted entry, whatever is left of it or in `X-Real-IP` |
| ClientIp.RealIpIsFallback | crates/request_ip/src/lib.rs:350-365 | `X-Real-IP` makes no difference once `X-Forwarded-For` decides |
| ClientIp.UntrustedPeerIsClient | crates/request_ip/src/lib.rs:332-347 | without a peer, or with one in no trusted range, the result is the peer, or that there is none, whatever the headers |
| ClientIp.RealIpIsClient | crates/request_ip/src/lib.rs:350-365 | behind a trusted peer that sends no `X-Forwarded-For`, the rightmost untrusted entry of `X-Real-IP` is the client |
| ClientIp.NoEntryIsPeer | crates/request_ip/src/lib.rs:366-370 | behind a trusted peer that sends neither header, the client is the peer |
| ClientIp.LeftmostIsClient | crates/request_ip/src/lib.rs:325-412 | when all entries of the first header that has any are trusted proxies, the client is the leftmost |
| ClientIp.UnreadableIsError | crates/request_ip/src/lib.rs:325-412 | when the first entry from the right that is no trusted proxy cannot be read, or is no address, the result is that error |
| ClientIp.AllTakesLeftmost | crates/request_ip/src/lib.rs:325-412 | under `All`, the leftmost address of `X-Forwarded-For`, else of `X-Real-IP`, else the peer |
| ClientIp.ListIsRead | crates/request_ip/src/lib.rs:396-401 | a header that lists entries is read as those entries in order |
| Disk.ReadersSeeWhole | crates/secret_file/src/write.rs:19-24 | in an atomic state readers find the file as it was or the new contents in full |
| Disk.CrashesLeaveWhole | crates/secret_file/src/write.rs:19-24 | every crash in an atomic state leaves the new contents in full, or what a crash before the write could have left too |
| Disk.EntryLastsExactly | crates/secret_file/src/write.rs:243-244 | every crash leaves the entry that is there exactly when it has no other candidate |
| Disk.ReplacedByRename | crates/secret_file/src/write.rs:219-229 | renaming a synced file over the path makes it atomically the new file, and frees the temp name |
| Disk.ReplacedBySyncDir | crates/secret_file/src/write.rs:243-244 | syncing the directory leaves only the new file to a crash |
| FileSystem.FileSystem.CreateFile | crates/secret_file/src/write.rs:532-549 | never an existing file, private from its creation on |
| FileSystem.FileSystem.Open | crates/secret_file/src/write.rs:256-258 | the file the entry leads to, following a link |
| FileSystem.FileSystem.SymlinkMetadata | crates/secret_file/src/write.rs:127-132 | what the entry itself is, and whether the file has other links |
| FileSystem.FileSystem.WriteAll | crates/secret_file/src/write.rs:264 | partial writes: every state in between holds a front of the contents and the rest of what was there |
| SecretWrite.TempPath.Drop | crates/secret_file/src/write.rs:615-621 | removes the temp file unless it was kept, passing over a failure |
| SecretWrite.CreateTemp | crates/secret_file/src/write.rs:528-560 | a new file under a name that was free, private to the process; the error of the last of at most eight tries |
| SecretWrite.SyncDir | crates/secret_file/src/write.rs:498-515 | fails on real errors only, and says when the directory really was synced |
| SecretWrite.CopyIdentity | crates/secret_file/src/write.rs:288-318 | on success the temp file has the existing file's owner, group, mode and access control; on failure it is the process's again unless taking it back failed; its contents and all other files never change |
| SecretWrite.CopyAccessAndMode | crates/secret_file/src/write.rs:304-310 | the access control first, which disturbs the mode, then the mode; never the owner |
| SecretWrite.StickyExactly | crates/secret_file/src/write.rs:399-408 | in a directory whose mode has the sticky bit, only the owner of the file or of the directory is permitted |
| SecretWrite.OwnerOnlyExactly | crates/secret_file/src/write.rs:449-455 | a link is trusted if and only if nobody but root and the file's owner can add entries to the directory |
| SecretWrite.KeepIdentity | crates/secret_file/src/write.rs:192-217 | which identity failures end in writing in place, and that `path` stays untouched and the temp file empty; an error is that of a call that failed and is no reason to write in place |
| SecretWrite.FillTemp | crates/secret_file/src/write.rs:219-223 | in every state in between `path` is untouched, and the temp file holds nothing but under the identity it is to have; then it is on disk in full; an error is that of the write or the sync |
| SecretWrite.RenameOnto | crates/secret_file/src/write.rs:228-246 | atomic in every state, and guarded as before; `Ok(false)` only for a busy or other-device target; an error is that of the rename, and no reason to write in place, or of a directory sync that is not passed over |
| SecretWrite.FillAndRename | crates/secret_file/src/write.rs:219-246 | the filling and the renaming together, with the error of a call that failed and is not passed over |
| SecretWrite.ReplaceByTemp | crates/secret_file/src/write.rs:192-246 | all of `replace` behind the creation of the temp file: atomic in every state, and the temp file is to be removed exactly while it was not renamed |
| SecretWrite.ReplaceAndDrop | crates/secret_file/src/write.rs:176-247 | the same with the temp file dropped in the end |
| SecretWrite.Replace | crates/secret_file/src/write.rs:170-247 | after every step `path`, and all that a crash may leave there, is as before or the new file in full, so that every crash at any step leaves the contents in full or what could have been left without the write; `Ok(true)` leaves only the latter, for good when the directory could be synced; every other exit leaves `path` untouched (unless the directory sync failed after the rename), and no temp file unless its removal failed; in every state a file that is new holds nothing, unless it has the identity of the existing file, or, without one, is the process's with mode 0600; an error is that of a call that failed and is not passed over, or a path without a name; with a name and no call failed it is `Ok(true)` |
| SecretWrite.WriteInPlace | crates/secret_file/src/write.rs:251-268 | whatever the entry has become since it was looked at, only the file checked before is written to, and it goes from its old contents to the new ones front to back; an error is that of one of its calls, or the entry leads to another file by now |
| SecretWrite.CutAndSync | crates/secret_file/src/write.rs:265-267 | cut off only once all is written, then synced; an error is that of one of the two calls |
| SecretWrite.NeverEmptied | crates/secret_file/src/write.rs:264-266 | a file is not left empty on the way |
| SecretWrite.SplitOff | crates/secret_file/src/write.rs:147-154 | a link that cannot be written to is replaced, with the identity kept |
| SecretWrite.ReplaceOrOverwrite | crates/secret_file/src/write.rs:158-162 | atomic throughout, or overwritten because it had to be; an error is that of a call that failed and is not passed over |
| SecretWrite.WriteRegular | crates/secret_file/src/write.rs:142-162 | a regular file is written in place only through a trusted link, or when it could not be replaced for one of the listed reasons; a trusted link is written through, unless that was not permitted |
| SecretWrite.WriteFile | crates/secret_file/src/write.rs:122-163 | atomic at every step, or in place for a reason, changing no other file (so never the target of a link); once written the file holds exactly the contents, with the identity of the regular file before it or private to the process; where the directory could be synced, a new file has no other candidate, and a file written in place the candidates it had; in every state no new file holds anything under another identity than that of the regular file before it, or without one the process's with mode 0600; an error is that of a call that failed and is not passed over, or a path without a name; with a name, and no call failed but the look at a missing entry, the write succeeds, and `path` holds the contents; a trusted link stays, unless writing to it was not permitted |
| SecretWrite.LastsExactly | crates/secret_file/src/write.rs:19-24 | what was written survives every crash under its name if and only if it is a new file or the entry before was sure to be on disk |
| SecretWrite.LostInPlace | crates/secret_file/src/write.rs:251-268 | a disk, an in place write and a crash that loses it |
| ParentDirs.ParentDirs.CreateDirAll | crates/secret_file/src/write.rs:459-485 | unless a call failed that is passed over, all directories are there afterwards, and all new ones last; an error is that of making a directory, or of a sync that is not passed over |
| ParentDirs.ParentDirs.MakeAll | crates/secret_file/src/write.rs:476 | which directories are new, also when it fails on the way |

## Left out

- Rate limiter: `key` (masking IPv6 addresses), the `disabled` switch, the wording and rounding of the refusal, and the
  memory of the map (`shrink_to`).
- Rate limiter runs look up and insert an entry in one event: the source looks under the read lock first, and again under the write
  lock. They remove entries one at a time: a cleanup is several removals, and an eviction any removal of an entry
  nobody holds, which is more than the code does. Lock poisoning and a `try_lock` that would block are not modelled.
- RateLimitSafety.BudgetIsNeverExceeded: counts from the client's last eviction, since `make_room` may evict a client whose
  failures are still in the window.
- Time is a natural number that never goes back; the largest representable instant is a parameter (`farthest`).
- ReloadCache: the change counter is unbounded, not a wrapping `u64`; a load that fails is a call that does not return a value.
- TimeoutCache: the cached result and its error cloning; `retain` with an arbitrary predicate (`Remove` and `Prune` are the same
  removal with a fixed one).
- SessionStore.StoreRefinesMap: assumes that the wall clock does not go back; a random session id is any free one.
- HeaderTimeout: the waker that is registered for the deadline, and the writing half of the stream, which is passed through.
- Merge.MergeObjects: takes the flags of both merges, with `split` off, since the strict merge has no such flag.
- Merge: `split_lists` is in `MergeSource` but not in the laws, which are stated with it off; numbers are integers.
- EnvFile: the error texts (errors are values); how names are lowercased is a parameter (`lower`).
- EnvObject.Walk: models the mutable `current` reference on values, as a path into the object; aliasing is not captured.
- Includes: the file system is a value that does not change during the walk; canonical paths, the paths of a directory's entries, the
  reading of `includes` and the cicada service are given.
- DirScan and LoadOrder: wildcards, `is_env_file`, `has_config_type` and the canonical key are given functions.
- Redact: each regular expression is a scanner of its own; control characters are not escaped by the modelled `{:?}`; `\d` matches
  every Unicode decimal digit, and `Digits` those from 0 to 9 only.
- RedactKinds.CharactersExactly: asks that the text behind the value begins as serde's does (``, expected``), which is so of
  every message about one, and holds no quote.
- RedactKinds.NumbersExactly: asks that the text behind the value begins as serde's does, with `, expected`.
- ClientIp: parsing an entry and matching a range are given functions.
- SecretWrite: extended attributes other than those modelled as the access control part of an identity, setgid bits that the
  kernel drops on its own when setting a mode, setuid and setgid bits that it drops when an unprivileged process writes to the
  file (`FileSystem.FileSystem.WriteAll` keeps the mode), and all but unix.
- SecretWrite.CreateTemp: a temp name is any name but the path's own; that a random name could equal it is not modelled.
- SecretWrite.WriteFile: no other process changes the directory meanwhile, except that `WriteInPlace` is proved for whatever the
  entry has become by then.
- SecretWrite.CopyIdentity: the access control is read from the file that was looked at, which is still the one at `path`.
- SecretWrite.Replace: the metadata of the existing file it is given is that of the file at `path`, as in `write_file`.
- ParentDirs: directories are levels of one path, each present only if those above it are.
- `crates/config/src/lenient.rs`, `interpolate.rs` and the toml, yaml and json parsers, which are driven by serde or by running
  processes.
- The authentication server, cryptography, SQL storage, TLS, CORS, logging, the command line and the user interface.
