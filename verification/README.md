# Sourcegraph tooling, modelled and proved in Dafny

This project models five parts of the Sourcegraph repository and proves what they promise, for
every input, every run or every interleaving. `dafny verify dfyconfig.toml` checks all of it.

- **Dependency graph** (`dev/depgraph`): the depth-bounded breadth-first search behind
  `depgraph trace`, including the in-place pruning of slices it shares with its input (`Trace`); the
  fixed-point closure behind `depgraph summary` (`Summary`); walks, distances and reversal (`Graph`);
  sorted listings (`StringOrder`).
- **Build checker** (`dev/buildchecker`): the scan for consecutive failures and the decision to lock
  (`Builds`), the history report (`History`, with its per-day counters in `Tally`) and what it says build
  by build (`HistoryMeaning`), the gap-filling table (`Records`), and the lock protocol over repeated cycles (`BranchLock`).
- **Authorization header** (`internal/authz/header.go`): the parser (`AuthHeader`), the lists of the
  grammar of RFC 7235 and what its scanner makes of them (`AuthHeaderList`), the round trips of
  parameters and whole headers (`AuthHeaderRoundTrip`), and its panics (`AuthHeaderPanics`).
- **Actor propagation** (`internal/actor`): the HTTP and gRPC codecs and chains of hops (`Actor`), on
  decimal numerals (`Decimal`).
- **Streaming, concurrency, caching**: the line-counting writer of `dev/src-expose` (`LineCount`), the
  sitemap worker pool (`WorkerPool`) and its query cache (`QueryDatabase`).

Code that updates variables, slices or fields is modelled by methods, arrays and classes, each proved
against a specification function; the laws are lemmas about those functions. Remote services, the
clock and lookups are parameters.

## Where the code falls short of its promise

The model does what the code does. In each place below it differs from what the documentation or the
grammar promises, and a lemma says exactly when the promise is kept.

- At depth zero or below, pruning overwrites the caller's relation; it survives exactly if the depth
  is at least one or the root's own list names the root before anything else
  (`InputSurvivesExactlyWhen`, `DepthZeroCanCorruptInput`).
- The grammar the header parser cites allows null elements in a list and white space around `=`. A list
  of parameters with distinct keys comes back as it was meant exactly if no element but the last is
  null and there is no such white space (`ComesBackExactlyWhen`, with `NullElementExample`,
  `SpaceBeforeEquals` and `SpaceAfterEquals`). What it comes back as otherwise is in `ParamsRoundTrip`
  and `ParamsHeaderRoundTrip`.
- The grammar allows any number of spaces after the scheme. A list of parameters is read the same after
  all of them, a token68 exactly after one (`ParamsHeaderRoundTrip`, `Token68HeaderExactlyWhen`).
- Schemes are case-insensitive in RFC 7235; only the two lower-case spellings are recognised
  (`SchemeRecognisedExactlyWhen`, `CapitalSchemeExample`).
- The header parser panics exactly if it reaches a parameter whose value is a lone quotation mark,
  which balanced quotes do not rule out (`PanicsExactlyWhen`, `PanicExamples`).
- A lock replaces rules that the unlock does not restore (`UnlockUndoesLockExactlyWhen`,
  `CodeOwnerReviewsAreLost`), and over any run the first lock fixes them for good
  (`RunRestoresExactlyWhen`).
- The main loop of the sitemap generator waits for the last claim, not for the workers. Two workers
  can leave it without any good page, one worker without the last
  (`ReadCanMissExactlyWhen`, `ExitCanMissAPage`).
- Calls to the query cache that run side by side fetch the same key more than once exactly if they
  look before the first result is stored (`FetchedAgainExactlyWhen`, `TwoCallsBothFetch`).
- Clearing the query cache needs the bucket's name; the request's name clears nothing of its own
  (`Database.Delete`, `RequestNameClearsNothingOfItsOwn`). A call under way can bring a cleared key back
  (`ClearedUntilStored`, `DeletedKeyComesBack`).
- The two actor decoders are documented to work exactly the same; they do exactly outside two cases
  (`DecodersAgreeExactlyWhen` with `InvalidUIDExample` and `EmptyAnonymousExample`). A missing actor
  arrives as such exactly if nothing stale is in its way (`HTTPHopExactlyWhen`,
  `StaleAnonymousHeader`). A user ID beyond int32 is served as another user
  (`NumeralServedExactlyWhen`, `NumeralWraps`).

## Model

| member | source | states |
|---|---|---|
| Graph.BallIsWithinSteps | dev/depgraph/trace.go:64-82 | the set a breadth-first search computes at radius n is exactly what walks of at most n edges reach |
| Graph.FirstRadiusIsDistance | dev/depgraph/trace.go:69-76 | the radius at which a vertex first appears is the length of its shortest walk |
| Graph.BallSaturates | dev/depgraph/trace.go:69-82 | from a radius of as many edges as there are vertices, the visited set is closed under the relation |
| Graph.ClosureIsReaches | dev/depgraph/summary.go:123-146 | a set with the direct targets that is closed and holds only reachable vertices is exactly the vertices reachable by one or more edges |
| Graph.ReverseGraph | dev/depgraph/internal/graph/graph.go:66-75 | the result has every edge turned around with its multiplicity, for any map iteration order |
| Graph.ReachesBothWays | dev/depgraph/internal/graph/graph.go:66-75 | u reaches v in a relation exactly if v reaches u in its inverse |
| Trace.PruneSlice | dev/depgraph/trace.go:101-106 | one slice filtered in place: its kept targets in order with repetitions, and what is left in the rest of its backing array |
| Trace.PruneEdges | dev/depgraph/trace.go:99-108 | every edge list is filtered in place to known vertices, for any map iteration order |
| Trace.KeepCounts | dev/depgraph/trace.go:102-106 | filtering keeps the multiplicity of every kept target and drops every other |
| Trace.VisitFrontier | dev/depgraph/trace.go:70-81 | one round over a frontier with repeated and known vertices is the round of the pure search, and only copies are made |
| Trace.RoundIsAtRadius | dev/depgraph/trace.go:69-82 | after n rounds exactly the ball of radius n is visited, each vertex at its own radius, and only the frontier lies just outside |
| Trace.Search | dev/depgraph/trace.go:65-82 | the loop visits the whole ball of the given depth, also when it stops early on an empty frontier, with fresh lists for all but the root |
| Trace.DepthsAreDistances | dev/depgraph/trace.go:69-76 | the vertices recorded are those within the depth, each one below its shortest distance |
| StringOrder.SortedList | dev/depgraph/trace.go:84-88 | the keys of a map as a sorted list without repetitions, for any map iteration order |
| StringOrder.SortedListIsUnique | dev/depgraph/trace.go:84-88 | two sorted lists with the same elements are equal, so the listing does not depend on the iteration order |
| StringOrder.LessExactly | dev/depgraph/trace.go:88 | a string sorts before another exactly if it is a proper prefix of it or has the smaller character where they first differ |
| Trace.TraceTraverse | dev/depgraph/trace.go:64-95 | lists exactly the vertices within maxDepth edges in order, records depth as distance minus one, returns the input's edges between visited vertices, and says what becomes of the shared slice and of the input |
| Trace.TraceExample | dev/depgraph/trace.go:64-95 | from b, which imports a, depth one lists a and b |
| Trace.InputSurvivesExactlyWhen | dev/depgraph/trace.go:67-108 | the shared slice is unchanged exactly if maxDepth is at least one or self-loops come first in it |
| Trace.DepthZeroCanCorruptInput | dev/depgraph/trace.go:67-108 | at depth zero the list a, r of root r becomes r, r |
| Summary.DirectTargets | dev/depgraph/summary.go:124-127 | the direct targets are in the map and flagged true |
| Summary.Pass | dev/depgraph/summary.go:131-140 | one pass over the keys in any order adds a missing target flagged false, or the map is closed |
| Summary.SummaryTraverse | dev/depgraph/summary.go:123-146 | terminates with exactly the vertices reachable by one or more edges, flagged true exactly if direct |
| Summary.SummaryIsUnique | dev/depgraph/summary.go:131-140 | the result does not depend on the map iteration order |
| Summary.SummaryExample | dev/depgraph/summary.go:123-146 | with a importing b and b importing c, the summary of a flags b direct and c transitive |
| Summary.TraceAgreesWithSummary | dev/depgraph/trace.go:64-95 | with a depth of at least the number of vertices, the search visits exactly the root and the summary's keys |
| Summary.DependenciesAndDependentsAreDual | dev/depgraph/summary.go:51-63 | d is a direct or transitive dependency of p exactly if p is a dependent of d of the same kind |
| Builds.FindConsecutiveFailures | dev/buildchecker/failures.go:14-67 | returns the failures before the first passed unscheduled build, whether they are at least one and at least the threshold in number, and the index the scan was left at |
| Builds.FailuresConcat | dev/buildchecker/failures.go:25-64 | the failures of two lists joined are their failures joined |
| Builds.SkipQuiet | dev/buildchecker/checker.go:71-76 | starting the scan after builds that are neither failures nor passed finds the same run |
| Builds.FailureExactlyWhen | dev/buildchecker/checker.go:113-132 | in the states, sources and times of the API: which builds failed, passed, count against the branch or end a run |
| Builds.FailuresAt | dev/buildchecker/failures.go:42-59 | every failure of a list is reported, once and in order, with the commit, number, URL, creation time and author of its own build, and nothing else is |
| Builds.CurrentRunAt | dev/buildchecker/failures.go:23-66 | the current run reports exactly the failures before the first passed unscheduled build |
| Builds.PanicsExactlyWhen | dev/buildchecker/checker.go:53-95 | the check panics exactly if the newest build that passed or failed has no number, or a negative threshold meets a failure |
| Builds.CheckBuilds | dev/buildchecker/checker.go:41-111 | locks exactly if it does not panic and the failures newer than the newest passed build are at least one and at least the threshold in number, reports the oldest threshold of them, and panics exactly on a missing build number or a negative threshold with a failure |
| Builds.DecisionExample | dev/buildchecker/failures.go:61-63 | one failed build reaches threshold one and not two, and panics exactly without a number |
| Tally.HoldsDayAmounts | dev/buildchecker/history.go:12-20 | a counter map has a key for exactly the days added to, with all that was added on that day |
| Tally.TotalIsAmount | dev/buildchecker/history.go:12-20 | over any list naming each day once, the counters sum to what was added |
| History.ScanToFailed | dev/buildchecker/history.go:26-34 | finds the next failed build, index zero if there is none, and the last passed build before it |
| History.SkipToFailed | dev/buildchecker/history.go:35 | restarting one build before the next failed build loses nothing of the report |
| History.ScanPassed | dev/buildchecker/history.go:53-57 | takes over the last passed build of a batch |
| History.Advance | dev/buildchecker/history.go:51-62 | moves past the batch with the last passed build up to date |
| History.CountBatch | dev/buildchecker/history.go:39-49 | a batch is counted as one incident or as one flake per failure |
| History.NextRound | dev/buildchecker/history.go:25-63 | a round shortens the list and splits what was still to be found into the batch scanned and the rest |
| History.GenerateHistory | dev/buildchecker/history.go:11-66 | terminates with exactly the totals, flakes and incident minutes per day of the list cut at every passed unscheduled build |
| History.RunsAreAllFailures | dev/buildchecker/failures.go:23-66 | the runs between cuts, one after the other, are exactly the failures of the list |
| History.HistoryConserves | dev/buildchecker/history.go:11-66 | totals sum to the builds, flakes to the failures in runs below the threshold, all other failures are in long runs, and each long run makes one incident |
| History.RedTimeIsNotNegative | dev/buildchecker/history.go:39-43 | with builds newest first and no build after the window start, no incident adds negative minutes |
| History.LastPassedIs | dev/buildchecker/history.go:24-33 | the green time is the creation of the last build passed before a position, or the start of the window if none passed |
| HistoryMeaning.FlakesAt | dev/buildchecker/history.go:44-48 | the flakes are exactly the failures whose stretch between two passed unscheduled builds stays below the threshold, each reported once |
| HistoryMeaning.IncidentsAt | dev/buildchecker/history.go:39-43 | there is exactly one incident per stretch that reaches the threshold, on the day its oldest failure was created, in whole minutes up to the last build passed before the first failed build of the stretch |
| HistoryMeaning.TotalsPerDay | dev/buildchecker/history.go:12-16 | the total of a day is the number of builds created on it, without a key for a day without builds |
| HistoryMeaning.FlakesPerDay | dev/buildchecker/history.go:44-48 | the flakes of a day are the number of such failures created on it |
| HistoryMeaning.IncidentDays | dev/buildchecker/history.go:39-43 | a day has incident minutes exactly if an incident is dated on it |
| HistoryMeaning.HistoryExample | dev/buildchecker/history.go:39-43 | red time runs between creation times: minute 40 to minute 100 is sixty minutes |
| Records.SortedRecords | dev/buildchecker/history.go:75-83 | the entries of the map in ascending order of day, for any map iteration order |
| Records.FillGap | dev/buildchecker/history.go:95-100 | inserting into the list being iterated adds exactly the days before the current row |
| Records.MapToRecords | dev/buildchecker/history.go:74-105 | each day from the earliest to the latest once, in order, with the map's value or zero; empty exactly for the empty map |
| Records.FilledExactly | dev/buildchecker/history.go:88-104 | a filled table goes day by day, each row with what the map has for its day, else zero |
| BranchLock.Repository.Lock | dev/buildchecker/branch.go:36-90 | plans nothing if restrictions exist, gives up if a commit's author is not found, else restricts to the active members among the authors and the fallback team, keeping the status checks |
| BranchLock.AllowedExactly | dev/buildchecker/branch.go:46-69 | a user is on the allow-list exactly if they wrote one of the commits and are an active member |
| BranchLock.AllowedAt | dev/buildchecker/branch.go:46-69 | the allow-list has one entry for each commit with such an author, in the order of the commits |
| BranchLock.Repository.Unlock | dev/buildchecker/branch.go:92-116 | plans a change exactly if the branch is restricted and no call fails, nothing exactly if it is unrestricted and can be read, and the change takes away the restrictions and no other rule |
| BranchLock.Repository.Cycle | dev/buildchecker/main.go:120-161 | the check, the announcement and the action as one step on the protection, with every early exit |
| BranchLock.RepeatedVerdictIsNoOp | dev/buildchecker/branch.go:41-44 | a verdict that already holds changes and announces nothing |
| BranchLock.NoSilentLock | dev/buildchecker/main.go:138-149 | in one cycle a lock takes effect only if announced, only an unlock can go through unannounced, and without an action nothing changes |
| BranchLock.LockTakesEffectExactlyWhen | dev/buildchecker/main.go:132-161 | a lock of an unrestricted branch takes effect exactly if the read succeeds, every author resolves, the announcement succeeds and the action does not fail, and what every rule is then |
| BranchLock.UnlockTakesEffectExactlyWhen | dev/buildchecker/main.go:138-161 | an unlock of a restricted branch takes effect exactly if the read, the request and the action succeed, announced or not |
| BranchLock.CompletedExactlyWhen | dev/buildchecker/main.go:119-161 | a cycle runs to its end exactly if it has nothing to do or nothing it needs fails |
| BranchLock.CleanCyclePrevails | dev/buildchecker/main.go:119-161 | after any run, one cycle in which nothing fails puts its verdict in force |
| BranchLock.EveryLockWasAnnounced | dev/buildchecker/main.go:132-161 | over any run from an unrestricted branch, behind a restriction there is an announced, completed lock of an unrestricted branch that no completed unlock followed, and the allow-list is that lock's |
| BranchLock.UnlockUndoesLockExactlyWhen | dev/buildchecker/branch.go:71-89 | lock and unlock restore the protection exactly if it already had linear history, enforced admins and one plain review, and allowed neither force pushes nor deletions nor asked for resolved conversations |
| BranchLock.CodeOwnerReviewsAreLost | dev/buildchecker/branch.go:78-84 | a branch that only adds reviews by code owners loses them |
| BranchLock.RulesAfterAnyRun | dev/buildchecker/branch.go:71-89 | after any run the other rules are the original ones if nothing was ever locked, else those a lock leaves |
| BranchLock.RunRestoresExactlyWhen | dev/buildchecker/branch.go:71-115 | a run gives an unrestricted branch back as it was exactly if no cycle completed or the latest completed one decided to unlock, and nothing was ever locked or the rules were already those a lock leaves |
| BranchLock.NothingCompletedNothingChanged | dev/buildchecker/main.go:127-160 | cycles that end early leave the protection as it was |
| BranchLock.LatestVerdictHolds | dev/buildchecker/checker.go:77-110 | after any run the branch is restricted exactly if the latest completed cycle decided to lock |
| BranchLock.FirstLockOfStreakDecides | dev/buildchecker/branch.go:41-76 | the allow-list stays that of the first lock of the current streak |
| BranchLock.StatusChecksSurvive | dev/buildchecker/branch.go:78-79 | every run keeps the required status checks, although a lock replaces every rule, and the signatures |
| AuthHeader.ParseHTTPHeaderList | internal/authz/header.go:140-177 | the buffer loop computes the elements of the list scanner |
| AuthHeader.ParseHTTPAuthParams | internal/authz/header.go:110-131 | the loop computes the parameter map, the first complaint, or the panic, for every table of case folding |
| AuthHeader.FoldsExactly | internal/authz/header.go:124 | keys that differ only in the case of letters fold to the same, and ASCII keys only then |
| AuthHeader.SpacesByCodePoint | internal/authz/header.go:114 | white space is that of Unicode, by code point |
| AuthHeaderList.ListRoundTrip | internal/authz/header.go:140-177 | scanning any list of the grammar delivers its elements one by one, whatever commas, quotes, escapes and white space it has: each parameter, and an empty text for each null element but one at the end |
| AuthHeaderRoundTrip.ParamsRoundTrip | internal/authz/header.go:110-131 | what any list of the grammar parses to, for every table of case folding: the duplicate-key error exactly if a key is repeated before the first null element, else no value exactly if an element other than the last is null, else the map of the keys and values read |
| AuthHeaderRoundTrip.ComesBackExactlyWhen | internal/authz/header.go:105-131 | a list with distinct keys, quoted or bare values, comes back as the map meant exactly if no element but the last is null and no white space stands at any equals sign |
| AuthHeaderRoundTrip.SpacedKeysDiffer | internal/authz/header.go:124-128 | white space before an equals sign changes the key set of a list, for every table of case folding |
| AuthHeaderRoundTrip.MapOfHolds | internal/authz/header.go:124-128 | with distinct keys the map holds each parameter's own text |
| AuthHeaderRoundTrip.CaseOfKeysIsIgnored | internal/authz/header.go:107-128 | two lists of the grammar that differ only in the case of their keys parse to the same result |
| AuthHeaderRoundTrip.CaseDoesNotTellKeysApart | internal/authz/header.go:124-127 | two keys that differ only in case, before the first null element, give the duplicate-key error |
| AuthHeaderRoundTrip.CapitalKeyExample | internal/authz/header.go:124 | Token="x" is read under the key token, and token Token="x" yields the token x |
| AuthHeaderRoundTrip.EveryTextCanBeWritten | internal/authz/header.go:149-161 | any text at all has a quoted-string form |
| AuthHeaderRoundTrip.ParamsHeaderRoundTrip | internal/authz/header.go:38-102 | a header with any list of the grammar after one or more spaces: the duplicate-key error; with a null element before the last, the whole list as the token or the refusal of token-sudo; else an error in dotcom mode, an error for a missing token, or its token and user |
| AuthHeaderRoundTrip.SudoHeaderRoundTrip | internal/authz/header.go:38-67 | token-sudo with token T and user U, quoted or bare, parses to T and U |
| AuthHeaderRoundTrip.NullElementExample | internal/authz/header.go:163-165 | token token="x",,user="y" yields the whole list as its token, and token-sudo refuses it |
| AuthHeaderRoundTrip.SchemeRecognisedExactlyWhen | internal/authz/header.go:38-46 | a scheme is refused exactly if it is spelt neither token nor token-sudo and the parameters raise no error |
| AuthHeaderRoundTrip.CapitalSchemeExample | internal/authz/header.go:44-46 | Token x is not recognised |
| AuthHeaderRoundTrip.HeaderWithoutSpace | internal/authz/header.go:84-89 | a header without a space is a scheme alone: not recognised, disabled in dotcom mode, or without a token |
| AuthHeaderRoundTrip.Token68HasNoParams | internal/authz/header.go:91-96 | a token68 with any padding is never taken for parameters |
| AuthHeaderRoundTrip.Token68HeaderExactlyWhen | internal/authz/header.go:84-102 | token, n spaces and a token68 yield the token with n-1 spaces before it, so exactly the token if and only if n is one |
| AuthHeaderRoundTrip.SpaceBeforeEquals | internal/authz/header.go:119-124 | a space before the equals sign ends up in the key |
| AuthHeaderRoundTrip.SpaceAfterEquals | internal/authz/header.go:119-124 | a space after the equals sign ends up in the value, with the quotes |
| AuthHeaderPanics.PanicsExactlyWhen | internal/authz/header.go:119-123 | the parser panics exactly if, before any complaint, it reaches a pair whose value is a lone quotation mark |
| AuthHeaderPanics.PanicExamples | internal/authz/header.go:119-123 | an open quotation mark panics, and so does a balanced pair that begins in the key |
| Decimal.ItoaRoundTrip | internal/actor/actor.go:73 | reading undoes writing for every 64-bit integer |
| Decimal.ItoaIsPlain | internal/actor/actor.go:73 | numbers are written without leading zeros, with a sign only if negative |
| Decimal.AtoiExactly | internal/actor/http.go:132 | exactly the numerals of 64-bit integers, with or without a sign, are read, as what they stand for |
| Decimal.ToInt32 | internal/actor/http.go:147 | the conversion is congruent modulo two to the 32nd and within int32 |
| Actor.Request.RoundTrip | internal/actor/http.go:69-97 | sets the actor header to internal, the user ID or none and the anonymous header only for an anonymous user, touches no other, and every receiver gets the normal form of the actor exactly if there is one, or neither an anonymous ID in the request before nor an actor at the receiver |
| Actor.UIDSurvives | internal/actor/actor.go:73 | every int32 user ID is read back as itself and never mistaken for a keyword or an absent header |
| Actor.HTTPHopExactlyWhen | internal/actor/http.go:74-154 | an HTTP hop is never refused and delivers the normal form exactly if there is an actor to deliver, or no stale anonymous header and no actor in the receiving context |
| Actor.StaleAnonymousHeader | internal/actor/http.go:88-92 | a request that already carries an anonymous ID makes that user of nobody |
| Actor.GRPCHopExactlyWhen | internal/actor/grpc.go:15-57 | a gRPC hop delivers the normal form exactly if there is an actor to deliver or none in the receiving context |
| Actor.EncodersAgree | internal/actor/grpc.go:15-29 | metadata carries the same values under the same keys as the headers of a new request |
| Actor.OnlyFirstValueCounts | internal/actor/grpc.go:32-43 | of a metadata key sent several times only the first value counts |
| Actor.NormalIsFixed | internal/actor/actor.go:25 | the normal form has at most one of internal, user and anonymous user set, and is its own normal form |
| Actor.ChainDeliversNormal | internal/actor/grpc.go:10-12 | any non-empty chain of HTTP and gRPC hops delivers the one normal form and is never refused |
| Actor.DecodersAgreeExactlyWhen | internal/actor/grpc.go:31-57 | on the same values both decoders arrive at the same actor exactly if the user ID is not invalid and no empty anonymous ID meets an actor in the context |
| Actor.InvalidUIDExample | internal/actor/grpc.go:45-50 | a user ID that is not a number is refused over HTTP and ignored over gRPC |
| Actor.EmptyAnonymousExample | internal/actor/grpc.go:40-43 | an empty anonymous ID takes the user out of a context over gRPC and not over HTTP |
| Actor.NumeralServedExactlyWhen | internal/actor/http.go:131-149 | both decoders accept every 64-bit numeral, and the user served has the number written exactly if it lies in int32 |
| Actor.NumeralWraps | internal/actor/http.go:132-147 | 4294967297 is served as user 1 |
| LineCount.LineCountWriter.BeginLine | dev/src-expose/snapshot.go:107-113 | counts a new line and writes the prefix, as much as fits |
| LineCount.NextPart | dev/src-expose/snapshot.go:115-125 | splits after the first newline, or takes all |
| LineCount.LineCountWriter.Write | dev/src-expose/snapshot.go:104-134 | renders a piece byte for byte as specified, or as much as fits, with the number of stream bytes delivered, the lines begun and whether one is still open |
| LineCount.LineCountWriter.Close | dev/src-expose/snapshot.go:136-144 | ends an unfinished line |
| LineCount.RenderedConcat | dev/src-expose/snapshot.go:96-134 | rendering two pieces in turn is rendering them joined |
| LineCount.OneLine | dev/src-expose/snapshot.go:104-125 | a line, or the beginning of one, is written after the prefix, and the rest of a line without it |
| LineCount.CarriedIsMost | dev/src-expose/snapshot.go:125-131 | after a failed write the count is the longest beginning of the piece whose rendering fits |
| LineCount.RenderExample | dev/src-expose/snapshot.go:104-134 | two lines of which the second does not end, byte for byte |
| LineCount.WriteAll | dev/src-expose/snapshot.go:80-94 | output and line count depend on the stream and not on how it is cut; if the sink fails it holds a beginning of that output |
| LineCount.StripUndoesRendering | dev/src-expose/snapshot.go:104-134 | taking the prefix off each line gives the stream back |
| LineCount.OutputDeterminesStream | dev/src-expose/snapshot.go:136-144 | the closed output gives back the stream with its last line ended |
| LineCount.LinesAreNewlines | dev/src-expose/snapshot.go:107-123 | lines are newlines, corrected for a line begun before and a line not ended |
| LineCount.NoLinesMeansNothing | dev/src-expose/snapshot.go:50-54 | the line count is zero exactly if the stream is empty, and is newlines plus one for an unfinished line |
| WorkerPool.InvAlways | cmd/sitemap/main.go:199-256 | in every interleaving no pair is in two hands and the pages are the good pairs claimed and no longer held, each once |
| WorkerPool.ClaimsInOrder | cmd/sitemap/main.go:202-215 | pairs are handed out one after the other, none twice |
| WorkerPool.ExitLeavesAtMostOnePerWorker | cmd/sitemap/main.go:257-265 | when the waiting ends all pairs are claimed and the missing pages are those in a worker's hands, at most one per worker |
| WorkerPool.AllReturnedMeansComplete | cmd/sitemap/main.go:203-206 | once every worker has returned the pages are exactly the pairs whose lookup found one or more references, each once |
| WorkerPool.ReadCanMissExactlyWhen | cmd/sitemap/main.go:257-281 | some interleaving reads the pages without a good one exactly if there are two workers and a good pair, or one worker and the last pair is good |
| WorkerPool.ReadMissesAtMostOnePerWorker | cmd/sitemap/main.go:257-281 | however late the pages are read, at most one page per worker is missing |
| WorkerPool.ExitCanMissAPage | cmd/sitemap/main.go:257-268 | with one worker and one good pair the main loop can go on without the page |
| WorkerPool.WorkersAreBounded | cmd/sitemap/main.go:201-254 | no interleaving lets the workers take more than three steps per pair and one per worker |
| WorkerPool.WorkersNeverStuck | cmd/sitemap/main.go:201-254 | while a worker has not returned, some worker can take a step |
| QueryDatabase.Database.Request | cmd/sitemap/query_database.go:31-76 | for one caller alone: fetches exactly if it can look and finds nothing, a hit answers what is stored if it decodes, a stored result is found from then on, no other key's answer changes, and a failure changes nothing |
| QueryDatabase.Database.Delete | cmd/sitemap/query_database.go:93-97 | succeeds exactly if the bucket exists and the transaction does, clears its keys and no others, and a failure changes nothing |
| QueryDatabase.PutTouchesOneKey | cmd/sitemap/query_database.go:64-71 | storing a result changes the answer to its own key only, and not even that if the entry is refused |
| QueryDatabase.OneCallInARow | cmd/sitemap/query_database.go:31-76 | the three steps of one call in a row give the response and the store of a request of one caller alone |
| QueryDatabase.RequestedIsUnique | cmd/sitemap/query_database.go:31-76 | that determines the response, whether it fetched, and every later answer |
| QueryDatabase.StoreRefinesMemo | cmd/sitemap/query_database.go:41-75 | in every interleaving of the steps of any number of calls and deletes, the buckets hold exactly what a memo table of the log holds |
| QueryDatabase.ViewAnswersFromMemo | cmd/sitemap/query_database.go:39-57 | after any interleaving a call misses, and goes on to fetch, exactly if the memo table has nothing; a hit answers the result stored last if it decodes |
| QueryDatabase.FetchedAgainExactlyWhen | cmd/sitemap/query_database.go:39-76 | with no deletion in between, a call fetches a key that another call is the first to store exactly if it looked before the other had stored it |
| QueryDatabase.SecondFetchLookedEarly | cmd/sitemap/query_database.go:39-76 | a call that fetches a key after it was stored, with no deletion since, looked and missed before it was stored |
| QueryDatabase.TwoCallsBothFetch | cmd/sitemap/query_database.go:41-75 | two calls that look side by side both fetch and store, and the later one wins |
| QueryDatabase.QuietRunKeepsTheStore | cmd/sitemap/query_database.go:39-76 | looks, fetches and failed updates and deletes, in any number and order, leave the store as it was |
| QueryDatabase.ClearedUntilStored | cmd/sitemap/query_database.go:64-97 | after a delete of its bucket and until another, a key is answered exactly if a result for it has been stored since |
| QueryDatabase.DeletedKeyComesBack | cmd/sitemap/query_database.go:59-97 | a result fetched before a delete and stored after it is answered again |
| QueryDatabase.RequestNameClearsNothingOfItsOwn | cmd/sitemap/query_database.go:42 | deleting by the request's own name clears none of its entries |

## Left out

- TraceTraverse: is one direction; `traceWalkGraph` appends the list of dependents to the list of dependencies, so the root is listed twice, and that list is not modelled.
- GenerateHistory: a day number stands for the formatted date, days are those of UTC, and every build must have a creation time, without which the program panics.
- Minutes: is exact; the float rounding of `Duration.Minutes` for spans of centuries and the saturation of `Time.Sub` are not modelled.
- MapToRecords: keys are days, so keys that do not parse as dates are not modelled.
- CheckBuilds: the Slack ID looked up for each reported commit is not modelled; one fixed time is used for all builds of a run.
- Repository.Cycle: a remote call that fails is taken to change nothing, and nobody else edits the protection during or between cycles.
- Protection: a rule that an update does not mention is taken to fall back to its default, and signatures to be left alone because they have a call of their own; the application behind a status check, and that the service drops repeated names from an allow-list, are not modelled.
- ParseHTTPHeaderList: works on characters; bytes that are not UTF-8 are not modelled.
- Database.Request: is one caller alone, and calls that run side by side are the interleaving model beside it; bytes are strings, and whether an entry can be stored or decoded is a parameter. The program goes on using the value it found after the read transaction that lent it has ended (cmd/sitemap/query_database.go:40-57); the store here hands out values that stay what they were.
- Actor: the lazily loaded user record, metrics, and what an HTTP stack does to header values on the wire.
- WorkerPool: a page is the number of its pair, and the main program's use of the pages is one read at some time after it stops waiting; page paths, statistics counters and sitemap files are reporting.
- `ParseBearerHeader`, `AnonymousUIDMiddleware`, `keys` of the query cache: a split at the first space, one conditional update of a context, and a list of bucket names; nothing modelled depends on them.
- Loading and printing of the dependency graph, Slack messages, report delivery: input and output.
- The rest of the repository: configuration, command wiring, network clients, generated code and the web client.
