# JudgeX verification

Dafny models of the algorithms and protocols at the core of JudgeX, an online
judge, with proofs of what they promise. Each module follows one component of
the system; objects that the Go or TypeScript code changes in place are classes
whose methods are proved against a specification function of the state, and the
theorems are about that function, usually over whole runs. `dafny verify
dfyconfig.toml` checks everything.

| file | component |
|---|---|
| `Text.dfy` | splitting, joining, trimming, numerals, cache keys |
| `RankStore.dfy`, `AcmRanking.dfy`, `IoiRanking.dfy`, `Leaderboard.dfy` | contest ranking over the in-memory hashes and sorted sets |
| `SseStream.dfy` | event stream writer and the browser's incremental parser |
| `SeccompFilter.dfy` | the BPF whitelist compiler and a BPF machine |
| `LruCache.dfy`, `LruRuns.dfy`, `TestDataFreshness.dfy` | test data cache, and its version keys under interleaved uploads |
| `Singleflight.dfy`, `RateLimiter.dfy` | the two protocols of the cache package |
| `RetryQueue.dfy` | local judge queue with panic recovery |
| `CircuitBreaker.dfy` | breaker in front of the LLM |
| `BloomFilter.dfy`, `BloomRebuild.dfy` | the filter, and creates interleaved with its rebuild |
| `OutputCompare.dfy`, `Verdict.dfy`, `AcceptedCounter.dfy` | output comparison, verdict loop, accepted counter |
| `BracketScanner.dfy` | the editor's bracket checker |

## Where the code differs from what is said about it

- The ACM composite `solved * 1,000,000 - penalty` is exact for every history,
  even when decoding it between updates gives a wrong pair: the error of the
  decode cancels in the re-encode (`AcmRanking.RunIsExact`). Only the display is
  limited, to penalties of at most 999,999 (`AcmRanking.DecodeExactlyWhen`). The
  penalty is in seconds, although `internal/cache/redis.go:260` says
  milliseconds, and the instant used is the one of judging, since the worker
  passes its own clock (`internal/worker/worker.go:287`).
- The IOI display truncates instead of rounding up, so it shows the true pair
  exactly for a total time of zero; otherwise one passed test too few and the
  complement of the time. Rounding up would be right for all times below
  10,000,000. While a problem's best score is 0, the time of the latest
  zero-score submission is stored and counts in the total.
- `HALF_OPEN` is described as letting a single probe through; it lets every
  request through until the next outcome is recorded, and its branch in
  `RecordFailure` is unreachable.
- At most `2 * limit - 1` requests pass the limiter in an interval of window
  length, one less than twice the limit, and that is attained. Routes with
  different limits count on one key; the bound then holds for each limit.
- The retry queue can deadlock with the channel full and all workers putting
  tasks back; it takes 1028 unfinished tasks with the shipped sizes.
- Rejudging can count a user twice in `accepted_count`; the excess is exactly
  the number of writes over a user's only Accepted row.
- The two rules give a submission the same status exactly when all tests pass,
  or none does and the first test's verdict is what the words of the first
  non-empty message name. A program that hits limits on every test never gets
  the same: "Runtime Error" under IOI, because limits leave no message.
- A load can mix files of two uploads and caches the mixture under the older
  version's key: with uploads that do not overlap, exactly when an upload of the
  problem begins between its first and last read. It is a snapshot of the
  directory exactly when no file of it was replaced before another one of it was
  written, so it can also hold half of an edit. Nothing in it was replaced before
  the version it read was installed. (`loadTestCasesWithCache` is an alternative
  entry; `JudgeTask` itself calls `loadTestCasesFromDisk`.)
- The bracket checker ends a string at the first delimiter without a backslash
  before it, so never before a compiler does, and at the same place exactly when
  the compiler's closing quote has no backslash before it or does not exist. A
  string that ends in an escaped backslash is reported as unterminated.
- The client trims each event's data and splits at line feeds, but the handler
  sends raw model deltas (`internal/handler/ai_socratic_debugger.go:356`): the
  page shows the text written exactly when no token holds a line feed or starts
  or ends with white space, and less otherwise. The deltas "Hello" and " world"
  are shown as "Helloworld". No event changes what its neighbours deliver.
- A single-flight caller can still join after `fn` has returned, exactly while
  the leader stands between the return of `fn` and its delete.

## Model

| member | source | states |
|---|---|---|
| `Text.JoinOfSplit` | `internal/judge/judge.go:236-243` | splitting a text and joining the parts gives the text back |
| `Text.SplitOfJoin` | `internal/judge/judge.go:236-243` | joining separator-free parts and splitting gives the parts back |
| `Text.PairKeyInjective` | `internal/worker/cache.go:145` | a `problem:version` (or `user:problem`) key determines both numbers |
| `Text.RenderInjective` | `internal/handler/contest_rank.go:81-110` | no two cache entries of any contests, users or problems share a textual key, across all five kinds of keys |
| `Text.ParseOfDecimal` | `internal/handler/contest_rank.go:261` | the leaderboard's parse recovers every user id that the updates formatted |
| `RankStore.MemCache.HIncrBy` | `internal/cache/redis.go:187-200` | adds to one field of one hash, creating either, and changes nothing else; returns the new value |
| `RankStore.MemCache.HGet` | `internal/cache/redis.go:214-226` | the field's value, or absent when hash or field is missing |
| `RankStore.MemCache.Set` | `internal/cache/redis.go:100-105` | stores one value and changes nothing else |
| `RankStore.MemCache.Get` | `internal/cache/redis.go:120-129` | the value stored last under the key, or absent |
| `RankStore.MemCache.ZAdd` | `internal/cache/redis.go:274-286` | sets the score of one member of one sorted set and changes nothing else |
| `RankStore.MemCache.ZRevRangeWithScores` | `internal/cache/redis.go:308-336` | a list of all members, each once with its score, in descending score order, cut to the index range (a negative stop means the end) |
| `RankStore.EnumerationFacts` | `internal/cache/redis.go:321-325` | such a list has the set's size, exactly its members and scores, and no member twice |
| `RankStore.SliceExactly` | `internal/cache/redis.go:326-335` | the range holds exactly the elements from max(0, start) up to stop, or to the end for a negative or too large stop, in order |
| `AcmRanking.UpdateACMRanking` | `internal/handler/contest_rank.go:80-128` | one judged submission moves the store by the specified step: a rejection counts once, a repeated accept does nothing, a first accept credits its penalty |
| `AcmRanking.PreviousTotals` | `internal/handler/contest_rank.go:111-118` | the scan of the ranking finds the user's own entry wherever it stands and decodes it, and gives zeros when there is none |
| `AcmRanking.CreditUser` | `internal/handler/contest_rank.go:109-124` | reading, decoding, adding and writing back equals crediting one solved problem to the stored score |
| `AcmRanking.ElapsedIsWholeSeconds` | `internal/handler/contest_rank.go:102-105` | the solve time counted is the number of whole seconds from start to submission, and zero before the start |
| `AcmRanking.RunIsExact` | `internal/handler/contest_rank.go:80-128` | after every history, with no bound on penalties: each stored score is distinct accepted problems times 1,000,000 minus the penalty folded over the history, each counter is the number of rejections, each solved mark a solved problem, and ranking members are exactly users with an accept |
| `AcmRanking.CompositeAfter` | `internal/handler/contest_rank.go:98-123` | one event moves the reference score of a user by one unit minus the new penalty, exactly when it is that user's first accept of the problem |
| `AcmRanking.RankEntryAfter` | `internal/handler/contest_rank.go:112-124` | re-encoding a decoded score moves it by exactly one unit minus the penalty, whatever the decode rounded, and no other entry moves |
| `AcmRanking.DecodeExactlyWhen` | `internal/handler/contest_rank.go:286-287` | decoding recovers solved count and penalty if and only if the penalty is at most 999,999 |
| `AcmRanking.DecodedPenaltyNonNegative` | `internal/handler/contest_rank.go:287-290` | the clamp of negative penalties never applies |
| `AcmRanking.CompositeOrder` | `internal/handler/contest_rank.go:62-70` | up to 999,999 penalty, higher composite means more solved, or as many with no more penalty |
| `IoiRanking.UpdateIOIRanking` | `internal/handler/contest_rank.go:153-182` | one judged row moves the store by the specified step, including the cases of zero tests and of no improvement |
| `IoiRanking.RecomputeIOIRank` | `internal/handler/contest_rank.go:186-214` | the user's entry becomes the sums over the contest's problems of what is stored, and is left alone when nothing has passed |
| `IoiRanking.BestIsMaximum` | `internal/handler/contest_rank.go:164-177` | the reference best is the maximum passed count over the judged rows, and is attained |
| `IoiRanking.BestTimeMeaning` | `internal/handler/contest_rank.go:170-178` | with a positive best the stored time is that of the first submission to reach it; with best zero, that of the latest submission |
| `IoiRanking.RunIsExact` | `internal/handler/contest_rank.go:153-214` | after every sequential run stored scores and times are those of the history and every rank entry is total passed times 10,000,000 minus total time, present exactly when something passed |
| `IoiRanking.ShownExactlyWhen` | `internal/handler/contest_rank.go:273-277` | the display recovers passed count and time if and only if the total time is zero |
| `IoiRanking.CeilingExactlyWhen` | `internal/handler/contest_rank.go:272-287` | the ACM branch's rounding would recover them if and only if the time is below 10,000,000 |
| `IoiRanking.ShownOtherwise` | `internal/handler/contest_rank.go:273-277` | for other times in range it shows one passed test too few and the complement of the time |
| `Leaderboard.GetLeaderboard` | `internal/handler/contest_rank.go:247-299` | the rows are the first 50 of the descending list, decoded, with non-numeric members skipped but keeping their rank |
| `Leaderboard.RowsOfMembers` | `internal/handler/contest_rank.go:260-298` | for any member list there is one row for each member that is a number, in order, with the rank of the member's own position and its user |
| `Leaderboard.RowsMakeUpScores` | `internal/handler/contest_rank.go:272-297` | the rows of a board rank 1, 2, 3, ...; an ACM row's numbers always make up the exact score, an IOI row's as quotient and remainder when it is not negative |
| `Leaderboard.BoardShowsTop` | `internal/handler/contest_rank.go:247-299` | the board shows min(50, n) distinct users, best first, and nobody left out scores better than anyone shown |
| `Leaderboard.AcmLeaderboard` | `internal/handler/contest_rank.go:80-128` | over every history the ACM board is the top 50 by exact score; a row is right exactly when that user's penalty is at most 999,999; if all are, it is the top 50 by solved descending, then penalty ascending |
| `Leaderboard.IoiLeaderboard` | `internal/handler/contest_rank.go:153-284` | over every run the IOI board is the top 50 by exact score; a row is right exactly when that user's total time is zero; with all total times below 10,000,000 its order, and who is left out, is by total passed descending, then total time ascending |
| `SseStream.AiDiagnose.Start` | `frontend/src/composables/useAiDiagnose.ts:97-121` | the read loop ends with the buffer and page state of the specified feed of all chunks |
| `SseStream.ParsePart` | `frontend/src/composables/useAiDiagnose.ts:107-117` | the last event line and the last data line of a part win, trimmed |
| `SseStream.SplitIncremental` | `frontend/src/composables/useAiDiagnose.ts:101-104` | splitting `s + t` at blank lines is splitting `s`, keeping its remainder, and splitting remainder plus `t` |
| `SseStream.FeedTwice` | `frontend/src/composables/useAiDiagnose.ts:97-121` | two reads handle the events and leave the buffer of one read of their concatenation |
| `SseStream.ChunkingIrrelevant` | `frontend/src/composables/useAiDiagnose.ts:97-121` | any cutting of a stream gives the events and the remainder of the uncut stream |
| `SseStream.ParseOfBlock` | `internal/handler/ai_socratic_debugger.go:115-122` | parsing one written event gives its name and data, trimmed |
| `SseStream.WrittenLines` | `internal/handler/ai_socratic_debugger.go:115-122` | the lines on the wire: the event line if the event is named, the data line, and a blank line |
| `SseStream.StreamDelivers` | `internal/handler/ai_socratic_debugger.go:115-122` | events without newlines arrive exactly once, in order, trimmed, with nothing left over, under every cutting |
| `SseStream.RoundTripExactlyWhenClean` | `frontend/src/composables/useAiDiagnose.ts:95-121` | for every list of events and every cutting the client handles exactly what was written if and only if no name or data holds a newline or starts or ends with white space |
| `SseStream.EventsAreIndependent` | `frontend/src/composables/useAiDiagnose.ts:101-120` | for arbitrary events, line feeds and blank lines included, and every cutting, each event delivers exactly what it delivers alone, in order, and at most one line feed is left over |
| `SseStream.PageAfterStream` | `frontend/src/composables/useAiDiagnose.ts:145-175` | for arbitrary events and every cutting every field of the page: the tokens delivered, concatenated; the data of the last status event; the parsed or raw data of the last trace event; the message or raw data of the last error event; failed if any error event was delivered, else done if a done event was |
| `SseStream.TokensShownExactlyWhen` | `internal/handler/ai_socratic_debugger.go:345-357` | with plain names, the page shows exactly the text of the tokens written if and only if no token holds a line feed or starts or ends with white space; otherwise it shows less |
| `SseStream.PageOfLines` | `internal/handler/ai_socratic_debugger.go:115-122` | for events without line feeds the page shows the trimmed tokens, the same as written exactly when every token is trimmed, and its phase follows from the error and done events written |
| `SseStream.WordsRunTogether` | `internal/ai/client.go:164-168` | the deltas "Hello" and " world" are shown as one word under every cutting |
| `SeccompFilter.BuildBPF` | `internal/sandbox/seccomp.go:187-239` | the appended instructions are the specified program for any whitelist |
| `SeccompFilter.CompiledIsWellFormed` | `internal/sandbox/seccomp.go:187-239` | only known instructions, every jump target in range, a return at the end |
| `SeccompFilter.CompiledAt` | `internal/sandbox/seccomp.go:178-186` | length 2n + 5, and what stands at every position |
| `SeccompFilter.WellFormedReturns` | `internal/sandbox/seccomp.go:187-239` | a well-formed program ends at one of its own returns on every input |
| `SeccompFilter.FilterCorrect` | `internal/sandbox/seccomp.go:187-239` | for every whitelist, architecture and call number the program ends in ALLOW exactly for x86_64 calls in the list, and in KILL otherwise |
| `SeccompFilter.CutProgramExactly` | `internal/sandbox/seccomp.go:266-269` | a program cut to its first n instructions allows exactly the x86_64 calls of the entries kept whole and runs off its end for every other x86_64 call |
| `SeccompFilter.InstalledExactlyWhen` | `internal/sandbox/seccomp.go:266-269` | the 16-bit length describes the whole program if and only if the whitelist has at most 32,765 entries; beyond that only the entries it still covers are allowed, and every other x86_64 call falls off the end, listed or not |
| `LruCache.Lru.Get` | `internal/worker/cache.go:69-89` | list and index stay in bijection; a live hit is returned and moved to the front, an expired entry is removed, a miss changes nothing |
| `LruCache.Lru.Set` | `internal/worker/cache.go:94-119` | list and index stay in bijection; the key is at the front with the new value and an hour to live, and only a new key over capacity evicts, the last entry |
| `LruCache.Lru.EvictOldest` | `internal/worker/cache.go:122-130` | removes the last list element and its key, nothing else, and does nothing on an empty list |
| `LruCache.UnlinkIndexed` | `internal/worker/cache.go:81-87` | removing an element, or moving it to the front, keeps keys and elements in bijection and removes just that key |
| `LruRuns.RunIsSound` | `internal/worker/cache.go:69-130` | in every reachable state keys are distinct and the size is at most the maximum |
| `LruRuns.RunIsRecent` | `internal/worker/cache.go:66-130` | after every history each entry holds the value and expiry last set for its key, and entries stand in order of the last use of their keys |
| `LruRuns.LastSetIs` | `internal/worker/cache.go:98-111` | the value and expiry of a key are those of its latest Set, the expiry one hour after it |
| `LruRuns.HitExactlyWhen` | `internal/worker/cache.go:73-88` | after every history a Get returns a value exactly when the cache holds the key with it and its lifetime is not over |
| `LruRuns.KeysAfterStep` | `internal/worker/cache.go:69-130` | after every history a step loses a key exactly when it is a Get past the key's lifetime, or a Set of a new key on a full cache with that key last; and only a Set brings a key in |
| `LruRuns.EvictsLeastRecent` | `internal/worker/cache.go:115-130` | a Set that overflows loses exactly the entry whose key was used least recently and keeps the others in order |
| `LruRuns.Inclusion` | `internal/worker/cache.go:69-130` | for capacities n <= m and any common timed history every entry of the n-cache is in the m-cache with the same value and expiry, and no hit is lost |
| `LruRuns.RunsAreNested` | `internal/worker/cache.go:69-130` | moreover the n-cache is the m-cache restricted to its keys, in the same order |
| `TestDataFreshness.RunKeepsInv` | `internal/worker/cache.go:137-157` | every step of every interleaving of uploads, edits, loads, evictions and expiry keeps cache and loaders fresh |
| `TestDataFreshness.VersionCountsBumps` | `cmd/server/main.go:570-572` | the version of a problem is the number of bumps so far, so every upload or edit that finishes makes it larger |
| `TestDataFreshness.LoaderHasReadVersion` | `internal/worker/cache.go:138-145` | a load works for the problem it read a version of, and with the version installed at that read |
| `TestDataFreshness.LoadsAreFresh` | `cmd/server/main.go:565-572` | what a load that read version w returns or caches was all read while w or a later version was installed, and whatever replaced a file of it did so only when w was installed; overlapping uploads and in-place edits included |
| `TestDataFreshness.SinceWritten` | `internal/storage/storage.go:139-152` | content found on disk was written by an earlier step and nothing replaced it since |
| `TestDataFreshness.SnapshotExactlyWhen` | `cmd/server/main.go:684-833` | over every interleaving of uploads and edits, what a load returns or caches was on disk together at some moment if and only if no file of it was replaced before another file of it was written |
| `TestDataFreshness.OneUploadExactlyWhen` | `cmd/server/main.go:565-572` | with uploads that do not overlap other changes, what a load returns or caches is of one upload if and only if no upload of the problem began between its first and last read |
| `TestDataFreshness.StoreKeepsCache` | `internal/worker/cache.go:145-155` | a stored entry is fresh for the one problem and version its key denotes |
| `TestDataFreshness.CacheIsLru` | `internal/worker/cache.go:40-155` | over every interleaving the shared cache is what the loads' own calls, one Get each and one Set after a read, make of an LRU cache of 100 entries |
| `TestDataFreshness.LoadsCanMixUploads` | `internal/storage/storage.go:139-152` | a run without overlapping uploads in which a load mixed files of two uploads and cached the mixture under the older version |
| `TestDataFreshness.LoadsCanSplitEdits` | `cmd/server/main.go:747-789` | a run in which a load returned the old input and the new output of an edited case, which were never on disk together |
| `Singleflight.SingleExecution` | `internal/cache/redis.go:440-460` | in every interleaving at most one caller runs `fn` for a key |
| `Singleflight.DeleteRemovesOwnEntry` | `internal/cache/redis.go:455-457` | the leader's delete always finds its own call in the table |
| `Singleflight.ResultIsLeaders` | `internal/cache/redis.go:442-459` | whatever a caller returns is what the `fn` of its call's leader returned for that key, and the leader returns the same |
| `Singleflight.FnReturnsOnce` | `internal/cache/redis.go:452` | no caller's `fn` returns twice |
| `Singleflight.RunsAreShort` | `internal/cache/redis.go:440-460` | every step uses up work: no run takes more than five steps per caller |
| `Singleflight.NeverStuck` | `internal/cache/redis.go:440-460` | while some caller has not returned, some step is enabled |
| `Singleflight.StartsNewCallExactlyWhen` | `internal/cache/redis.go:441-450` | in every reachable state an entering caller starts a new call if and only if no caller leads one for its key |
| `Singleflight.JoinsFinishedExactlyWhen` | `internal/cache/redis.go:442-457` | in every reachable state the call a caller joins already has its result if and only if its leader stands between the return of `fn` and its delete |
| `Singleflight.LateJoinerGetsFinishedResult` | `internal/cache/redis.go:452-457` | a run in which a caller that entered after `fn` had returned got that result |
| `RateLimiter.MemCache.IncrWithTTL` | `internal/cache/redis.go:158-172` | opens a window with count 1 when none is alive, else increments without moving its end; no other key changes |
| `RateLimiter.MemCache.MemGC` | `internal/cache/redis.go:583-595` | one pass removes exactly the expired items |
| `RateLimiter.MemCache.RateLimit` | `internal/middleware/auth.go:194-207` | admits exactly while the returned count is at most the limit, and counts rejected requests too |
| `RateLimiter.CountsIgnoreGC` | `internal/cache/redis.go:583-595` | collector passes anywhere leave every returned count as it is without them |
| `RateLimiter.PassLeavesExactlyAlive` | `internal/cache/redis.go:583-595` | after a collector pass the store holds exactly the counters alive in the store as it would be had nothing been collected |
| `RateLimiter.AdmittedInWindow` | `internal/middleware/auth.go:194-207` | at most `limit` requests of one window are admitted, exactly the first ones |
| `RateLimiter.AdmittedInAnyInterval` | `internal/middleware/auth.go:169-182` | at most 2 * limit - 1 (or none) in every closed interval of window length, for every run with a non-decreasing clock |
| `RateLimiter.MixedLimitsInAnyInterval` | `cmd/server/main.go:199-262` | when routes with different limits share a key, those with a limit up to `top` together admit at most 2 * top - 1 requests in any closed interval of window length |
| `RateLimiter.BoundIsTight` | `internal/middleware/auth.go:194-207` | for every limit and window some run admits that many |
| `RetryQueue.EachTaskOnce` | `internal/queue/queue.go:255-266` | over every interleaving each published task is in exactly one of publishing, queued, held by a worker, done or dropped, once, and nothing else is |
| `RetryQueue.FirstInFirstOut` | `internal/queue/queue.go:256-261` | over every interleaving the ids received so far followed by those queued are the ids sent, in order |
| `RetryQueue.FirstRunsInOrder` | `internal/queue/queue.go:350-363` | a task's first run starts before that of any task first sent later |
| `RetryQueue.AtMostFourRuns` | `internal/queue/queue.go:392-402` | a task runs at most four times; a finished one panicked on all runs but the last, a dropped one on all four |
| `RetryQueue.StepUsesWork` | `internal/queue/queue.go:350-414` | every step but a new publication decreases the work left |
| `RetryQueue.RunsAreShort` | `internal/queue/queue.go:350-414` | n publications allow at most 14 n steps in all |
| `RetryQueue.StuckExactlyWhen` | `internal/queue/queue.go:350-365` | a reachable state is stuck if and only if all work is finished, or the channel is full and every worker is blocked requeueing |
| `RetryQueue.NoDeadlockBelow` | `internal/queue/queue.go:255-266` | no such deadlock while fewer than capacity plus workers published tasks are unfinished |
| `RetryQueue.OutstandingCounts` | `internal/queue/queue.go:255-266` | unfinished, done and dropped tasks add up to the published ones |
| `RetryQueue.DeadlockReachable` | `internal/queue/queue.go:392-414` | for every capacity and number of workers some run reaches the deadlock |
| `RetryQueue.ShippedQueueCanDeadlock` | `internal/queue/queue.go:255-257` | so does the shipped queue of 1024 slots and 4 workers |
| `CircuitBreaker.Breaker.AllowRequest` | `internal/ai/breaker.go:80-107` | the answer and the new fields of one call, per state |
| `CircuitBreaker.Breaker.RecordFailure` | `internal/ai/breaker.go:127-147` | the new fields after a failure, with both branches that open the breaker |
| `CircuitBreaker.Breaker.RecordSuccess` | `internal/ai/breaker.go:112-122` | a success closes the breaker from any state and clears the count |
| `CircuitBreaker.RunForm` | `internal/ai/breaker.go:80-147` | after every run with a non-decreasing clock the fields are functions of the outcomes: trailing failures, last failure, closed exactly below the threshold |
| `CircuitBreaker.AllowClosedForm` | `internal/ai/breaker.go:80-107` | a request passes exactly when trailing failures are below the threshold or the timeout since the last failure is over |
| `CircuitBreaker.ProbeFailedBranchUnreachable` | `internal/ai/breaker.go:141-146` | the probe-failed branch is never taken, on any run and any clock |
| `CircuitBreaker.AllowsAreNotConsumed` | `internal/ai/breaker.go:75-103` | the answer does not depend on earlier requests, only on recorded outcomes |
| `CircuitBreaker.ProbesExactly` | `internal/ai/breaker.go:79-103` | between two outcomes a tripped breaker passes exactly the requests made once the timeout is over |
| `CircuitBreaker.TwoProbesPass` | `internal/ai/breaker.go:100-103` | a run in which two requests pass a breaker in HALF_OPEN before any outcome |
| `BloomFilter.Filter.Add` | `internal/cache/bloom.go:76-82` | the set of set bits grows by exactly the k positions of the element, in the packed words |
| `BloomFilter.Filter.MightContain` | `internal/cache/bloom.go:86-94` | true exactly when all k positions are set |
| `BloomFilter.Filter.Reset` | `internal/cache/bloom.go:106-109` | no bit is set |
| `BloomFilter.SetPosition` | `internal/cache/bloom.go:79` | the word update sets that one bit of the whole array |
| `BloomFilter.BitsExactly` | `internal/cache/bloom.go:76-109` | after every sequence a bit is set exactly when some element added since the last Reset hashes to it |
| `BloomFilter.BitsDependOnSet` | `internal/cache/bloom.go:76-109` | the bits depend on the set of added elements only |
| `BloomFilter.PassesExactly` | `internal/cache/bloom.go:84-94` | no added element is denied; another passes exactly when each of its hashes is hit by some added element |
| `BloomRebuild.DeniedExactlyWhenOverlapped` | `internal/cache/bloom.go:158-183` | in every run a stored problem with a finished create is denied if and only if its insert came after the scan of the latest rebuild and its pointer read before that rebuild's swap |
| `BloomRebuild.QuietAdmitsAll` | `internal/handler/problem.go:79-95` | in every run where no create inserts between scan and swap, every stored problem with a finished create is admitted |
| `BloomRebuild.PassesExactlyWhen` | `internal/cache/bloom.go:157-183` | in every run with a rebuild an id passes exactly when its row was there at the scan of the latest rebuild or its create read the pointer behind the swap and has added it; so a deleted problem is denied from the next rebuild on |
| `BloomRebuild.OverlapCanDeny` | `internal/cache/bloom.go:129-138` | with the overlap a stored problem can be denied |
| `OutputCompare.NormalizeOutput` | `internal/judge/judge.go:234-244` | the loops over the lines compute the specified normal form |
| `OutputCompare.CompareOutput` | `internal/judge/judge.go:249-256` | agreement exactly for equal normal forms, otherwise both normal forms are reported |
| `OutputCompare.NothingToDrop` | `internal/judge/judge.go:240-242` | on input that is not all white space the trailing-empty-line loop removes nothing |
| `OutputCompare.NormalizeIsStrip` | `internal/judge/judge.go:234-244` | so normalising is trimming the whole and then each line's end |
| `OutputCompare.StripCons` | `internal/judge/judge.go:237-239` | a character of a line is dropped exactly when it is a blank followed only by blanks on its line |
| `OutputCompare.NormalizeIdempotent` | `internal/judge/judge.go:231-244` | normalising twice is normalising once |
| `OutputCompare.BlankBeforeNewline` | `internal/judge/judge.go:231-244` | a blank before a line feed makes no difference anywhere in the output |
| `OutputCompare.CrLfIgnored` | `internal/judge/judge.go:231-244` | CRLF and LF versions of an output compare equal |
| `OutputCompare.EqualExactlyWhenConnected` | `internal/judge/judge.go:246-256` | two outputs compare equal if and only if one becomes the other by inserting and removing white space at the two ends and blanks before line feeds |
| `Verdict.JudgeTask` | `internal/worker/worker.go:130-259` | the row written is the one described: under ACM that of the first failing test, otherwise maxima, number of passing tests, first non-empty message and closing status |
| `Verdict.FinalStatus` | `internal/worker/worker.go:225-240` | the closing status by passed count, rule and words of the message |
| `Verdict.VerdictIsUnique` | `internal/worker/worker.go:130-240` | the outcomes of the tests determine the whole row |
| `Verdict.TallyMeaning` | `internal/worker/worker.go:130-220` | the accumulators are the maxima, the number of passing tests and the first non-empty message |
| `Verdict.AcceptedExactlyWhenAllPass` | `internal/worker/worker.go:130-240` | both rules say Accepted on exactly the same outcomes of a non-empty list, all tests passing, which is also when passed equals total |
| `Verdict.PartialExactlyWhenSomePass` | `internal/worker/worker.go:237-240` | Partial Score exactly for IOI with 0 < passed < total, and IOI's passed count is the number of passing tests |
| `Verdict.AcmStopsAtFirstFailure` | `internal/worker/worker.go:149-216` | ACM records either the first failure, with passed count equal to its index, or Accepted, never both |
| `Verdict.FailureRowSays` | `internal/worker/worker.go:162-203` | every field of the row of a first failure: the test's own status or Wrong Answer, its time, its memory, its index, the total, and its error or the text with expected and actual output |
| `Verdict.ClosingRowSays` | `internal/worker/worker.go:130-259` | the row at the end of the list: largest time and memory, number of passing tests, a failed test's message, and without a pass the status that the words of the message call for |
| `Verdict.AcmPassesAtMostIoi` | `internal/worker/worker.go:149-220` | ACM's passed count is at most IOI's, and equal exactly when nothing passes after the first failure |
| `Verdict.CaseNumberExactlyWhen` | `internal/worker/worker.go:190` | the message of a mismatch is the one numbered by the test's position exactly when all earlier tests passed |
| `Verdict.NoPassMeansRuntimeError` | `internal/worker/worker.go:225-236` | an IOI submission with no pass is never Wrong Answer or Compile Error, and Time or Memory Limit only by the words in some message, which no time-out or overrun leaves |
| `Verdict.StatusesAgreeExactlyWhen` | `internal/worker/worker.go:149-240` | for every non-empty list both rules give the same status if and only if all tests pass, or none does and the first test's verdict is what the words of the first non-empty message name |
| `Verdict.AgreementWithoutPass` | `internal/worker/worker.go:225-236` | without a pass, and limits leaving no message: agreement exactly for a first runtime error whose submission's first message names no limit, or a first limit named by a later test's message; never for Wrong Answer or Compile Error first |
| `Verdict.OnlyLimitsNeverAgree` | `internal/judge/judge.go:203-229` | a submission that hits a limit on every test gets the first limit under ACM and Runtime Error under IOI |
| `Verdict.AllTimeoutsDiffer` | `internal/judge/judge.go:203-229` | in particular one that times out on every test |
| `AcceptedCounter.Database.FinishJudging` | `internal/worker/worker.go:248-273` | the transaction writes the status and counts exactly when the user has no other Accepted row for the problem |
| `AcceptedCounter.Database.Create` | `internal/handler/submission.go:118-125` | a new pending row, with the counter unchanged |
| `AcceptedCounter.Database.ReJudge` | `internal/handler/submission.go:306-313` | a reset takes the row's acceptance away and leaves the counter |
| `AcceptedCounter.RowsSayLastVerdict` | `internal/worker/worker.go:248-260` | after every run a row is there exactly when it was submitted, belongs to that user and problem, and is Accepted exactly when the last judging since its last reset said so |
| `AcceptedCounter.StepExcess` | `internal/worker/worker.go:248-273` | every submit, reset and judging step moves counter minus distinct accepted users by one if it writes over a user's only Accepted row, and not at all otherwise |
| `AcceptedCounter.CountIsHoldersPlusLosses` | `internal/worker/worker.go:248-273` | after every run the counter is the number of distinct accepted users plus the number of such writes in the run |
| `AcceptedCounter.NeverBelow` | `internal/handler/submission.go:372-379` | the counter is never below the number of distinct accepted users, and equal if and only if no step of the run wrote over a user's only Accepted row |
| `AcceptedCounter.JudgedOnceCountsUsers` | `internal/worker/worker.go:243-273` | equal in every run that writes each submission at most once |
| `AcceptedCounter.RejudgeCountsTwice` | `internal/handler/submission.go:306-313` | one submission judged, rejudged and accepted again counts its user twice |
| `BracketScanner.CheckCommon` | `frontend/src/composables/useSyntaxChecker.ts:20-119` | the nested loops report exactly the unmatched closers in order, then the unclosed openers, then an open string or block comment |
| `BracketScanner.VisibleExactly` | `frontend/src/composables/useSyntaxChecker.ts:30-85` | for every text the scan sees exactly the brackets at the positions of code, in order and at their lines and columns, where the positions are read off the text by skipping comments and strings whole |
| `BracketScanner.SilentByReading` | `frontend/src/composables/useSyntaxChecker.ts:20-119` | nothing is reported if and only if the brackets at those positions form a balanced word and the text ends outside strings and block comments |
| `BracketScanner.PlainTextIsCode` | `frontend/src/composables/useSyntaxChecker.ts:56-85` | a text without quotes and slashes is code at every position |
| `BracketScanner.LineEndIs` | `frontend/src/composables/useSyntaxChecker.ts:31-60` | a line comment is skipped to the first line feed |
| `BracketScanner.CommentEndIs` | `frontend/src/composables/useSyntaxChecker.ts:50-54` | a block comment is skipped behind the first end mark, or to the end of the text without one |
| `BracketScanner.MatchExactly` | `frontend/src/composables/useSyntaxChecker.ts:66-84` | for every word of brackets a closer is reported exactly when no opener that pairs with it is the innermost open one among the brackets kept before it, and the stack holds the openers still open |
| `BracketScanner.ReportInOrder` | `frontend/src/composables/useSyntaxChecker.ts:70-99` | unmatched closers come first, then unclosed openers, each in text order and at most once |
| `BracketScanner.EndComplaints` | `frontend/src/composables/useSyntaxChecker.ts:97-117` | an open string, and an open block comment, is reported exactly when the text ends inside one, at the last line |
| `BracketScanner.SilentExactlyWhen` | `frontend/src/composables/useSyntaxChecker.ts:20-119` | nothing is reported if and only if the brackets outside strings and comments form a balanced word and the text ends outside both |
| `BracketScanner.CountsAgree` | `frontend/src/composables/useSyntaxChecker.ts:66-84` | after any brackets seen: openers = pops + stack height, closers = pops + mismatches |
| `BracketScanner.ReportCounts` | `frontend/src/composables/useSyntaxChecker.ts:90-119` | every bracket is half of a popped pair or reported once |
| `BracketScanner.ReportPointsAtBrackets` | `frontend/src/composables/useSyntaxChecker.ts:73-99` | every reported line and column holds the bracket named, a closer when unmatched, an opener when unclosed |
| `BracketScanner.StringHides` | `frontend/src/composables/useSyntaxChecker.ts:41-48` | a string hides everything, across lines, up to its first delimiter not behind a backslash, and without one to the end |
| `BracketScanner.BlockCommentHides` | `frontend/src/composables/useSyntaxChecker.ts:50-54` | a block comment hides everything up to the first end mark |
| `BracketScanner.LineCommentHides` | `frontend/src/composables/useSyntaxChecker.ts:33-60` | a line comment hides exactly the rest of its line |
| `BracketScanner.ClosingQuoteAgreesExactlyWhen` | `frontend/src/composables/useSyntaxChecker.ts:41-48` | for every string body, escaped quotes included, the scanner and a reader that pairs escapes agree on the quote behind it if and only if no backslash or an odd number of them precedes it |
| `BracketScanner.StringEndsAgreeExactlyWhen` | `frontend/src/composables/useSyntaxChecker.ts:41-48` | for every text behind an opening quote the scanner resumes no earlier than a reader that pairs escapes, and at the same place if and only if that reader's closing quote has no backslash before it or does not exist |
| `BracketScanner.CompilerEndIs` | `frontend/src/composables/useSyntaxChecker.ts:41-42` | that reader ends a string at its first delimiter that no escape covers |
| `BracketScanner.EscapedBackslashIsReported` | `frontend/src/composables/useSyntaxChecker.ts:101-109` | a complete string of one escaped backslash is reported as unterminated |

## Left out

- Redis, NSQ, S3 and MySQL: only the in-memory back ends are modelled; tables are values with atomic transactions.
- Running and compiling submissions, chroot, cgroups, prctl and the kernel's own filter limits: each test comes with an arbitrary result of its run.
- Floating point: scores are integers, and the elapsed time is an exact division where the code goes through `Seconds()`; integer widths other than the filter's length field and the Bloom words are unbounded.
- RankStore: the JSON text of stored values, and the 24 and 48 hour expiry of ranking keys; a contest is taken to end first.
- `RankStore.MemCache.ZRevRangeWithScores`: the order of equal scores stays open, as in `sort.Slice` over a map.
- Contest lookups, user names, publishing of rank updates, and reading the latest submission row, which is a parameter of the IOI update.
- `IoiRanking.RunIsExact`: runs are sequential and the contest's problems fixed; two judgings that finish at once can read each other's latest row.
- Sequential ACM updates only: the read-decode-write of one update is not atomic in the code.
- SseStream: decoding of bytes to text across chunks, aborts and HTTP errors; `JSON.parse` is an arbitrary partial function to text.
- LruCache: the clock is a parameter and is read once per call; the mutex makes each call one step.
- TestDataFreshness: a file is written in one step and a directory cleared in one step; which names a load lists, and the uncached fallbacks when the version query fails, are not modelled.
- Singleflight: an `fn` that panics or never returns.
- RetryQueue: handlers that never return, the Redis and NSQ consumers, and fairness among blocked senders.
- BloomFilter: the size formula and the hash function, which is arbitrary; unsynchronised concurrent `Add` calls on one filter.
- BloomRebuild: false positives of the filter itself; a filter is the set of ids added to it.
- OutputCompare: the wording of the mismatch message around the two texts, and invalid UTF-8.
- Verdict: loading of tests, the fallback to the database, and what is published after the row is written.
- AcceptedCounter: transactions are serialised; deletion of problems, submissions whose insertion failed, and the stand-alone `cmd/worker`, which writes Accepted without touching the counter.
- RateLimiter: the window of a key is fixed; all routes that share a key use one minute.
- BracketScanner: the texts of the messages, end columns, and the language heuristics `checkCpp` and `checkPython`.
