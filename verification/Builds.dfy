/**
 Builds as dev/buildchecker sees them, the scan for consecutive failures
 (dev/buildchecker/failures.go) and the decision to lock (dev/buildchecker/checker.go).

 Times are integers (nanoseconds since the epoch). The clock that `isBuildFailed` reads is a
 field of the options: one fixed `now` per run.
 */
module Builds {
  import opened Optional

  datatype Author = Author(name: string, email: string)

  /** A Buildkite build; every field of the API object may be missing. */
  datatype Build = Build(
    state: Option<string>,
    source: Option<string>,
    created: Option<int>,
    finished: Option<int>,
    number: Option<int>,
    commit: Option<string>,
    webURL: Option<string>,
    author: Option<Author>)

  datatype Options = Options(threshold: int, timeout: int, now: int)

  datatype CommitInfo = CommitInfo(
    commit: string,
    author: string,
    number: int,
    url: string,
    created: Option<int>)

  predicate IsScheduled(b: Build) {
    b.source == Some("scheduled")
  }

  predicate IsPassed(b: Build) {
    b.state == Some("passed")
  }

  predicate IsFailed(b: Build, o: Options) {
    || b.state == Some("failed")
    || b.state == Some("cancelled")
    || (o.timeout > 0 && b.created.Some? && b.finished.None? && o.now > b.created.value + o.timeout)
  }

  /** A build that counts against the branch. A passed build never does, even if it overran. */
  predicate IsFailure(b: Build, o: Options) {
    !IsScheduled(b) && !IsPassed(b) && IsFailed(b, o)
  }

  /** A build that ends a run of failures. */
  predicate IsCut(b: Build) {
    !IsScheduled(b) && IsPassed(b)
  }

  function OrEmpty(s: Option<string>): string {
    if s.Some? then s.value else ""
  }

  function CommitOf(b: Build): CommitInfo {
    CommitInfo(
      OrEmpty(b.commit),
      if b.author.Some? then b.author.value.name + " (" + b.author.value.email + ")" else "",
      if b.number.Some? then b.number.value else 0,
      if b.number.Some? then OrEmpty(b.webURL) else "",
      b.created)
  }

  /**
   In the words of the API. A build failed if it is in state failed or cancelled, or has not finished
   within the timeout; unless it is scheduled or passed, that counts against the branch.
   */
  lemma FailureExactlyWhen(b: Build, o: Options)
    ensures IsFailed(b, o) <==>
            || b.state in {Some("failed"), Some("cancelled")}
            || (o.timeout >= 1 && b.finished == None && exists t :: b.created == Some(t) && o.now - t > o.timeout)
    ensures IsFailure(b, o) <==> IsFailed(b, o) && b.source != Some("scheduled") && b.state != Some("passed")
    ensures IsPassed(b) <==> b.state == Some("passed")
    ensures IsCut(b) <==> b.state == Some("passed") && b.source != Some("scheduled")
  {
  }

  /** An entry reports a build: what the build has, and blanks for what it lacks. */
  ghost predicate Reports(c: CommitInfo, b: Build) {
    && c.created == b.created
    && (b.commit == Some(c.commit) || (b.commit == None && c.commit == ""))
    && (match b.number
        case Some(n) => c.number == n && (b.webURL == Some(c.url) || (b.webURL == None && c.url == ""))
        case None => c.number == 0 && c.url == "")
    && (match b.author
        case Some(a) => c.author == a.name + " (" + a.email + ")"
        case None => c.author == "")
  }

  lemma CommitOfReports(b: Build)
    ensures Reports(CommitOf(b), b)
  {
  }

  // ----- Specification: runs of failures -----

  /** The position of the first passed unscheduled build at or after `from`, or the end. */
  ghost function CutFrom(builds: seq<Build>, from: nat): (end: nat)
    requires from <= |builds|
    ensures from <= end <= |builds|
    ensures end < |builds| ==> IsCut(builds[end])
    ensures forall i :: from <= i < end ==> !IsCut(builds[i])
    decreases |builds| - from
  {
    if from == |builds| || IsCut(builds[from]) then from else CutFrom(builds, from + 1)
  }

  /** The failures among `builds`, newest first as the builds are. */
  ghost function Failures(builds: seq<Build>, o: Options): (r: seq<CommitInfo>)
    ensures |r| <= |builds|
  {
    if builds == [] then []
    else
      var last := builds[|builds| - 1];
      Failures(builds[..|builds| - 1], o) + if IsFailure(last, o) then [CommitOf(last)] else []
  }

  /** The failures newer than the newest passed build. */
  ghost function CurrentRun(builds: seq<Build>, o: Options): seq<CommitInfo> {
    Failures(builds[..CutFrom(builds, 0)], o)
  }

  /** A run is an incident once it is as long as the threshold; an empty run never is. */
  ghost predicate Exceeds(run: seq<CommitInfo>, o: Options) {
    run != [] && |run| >= o.threshold
  }

  lemma {:induction false} FailuresConcat(a: seq<Build>, b: seq<Build>, o: Options)
    ensures Failures(a + b, o) == Failures(a, o) + Failures(b, o)
    decreases |b|
  {
    if b == [] {
      assert a + b == a;
    } else {
      var front, last := b[..|b| - 1], b[|b| - 1];
      FailuresConcat(a, front, o);
      assert (a + b)[..|a + b| - 1] == a + front;
    }
  }

  lemma FailuresSnoc(builds: seq<Build>, i: nat, o: Options)
    requires i < |builds|
    ensures Failures(builds[..i + 1], o) ==
            Failures(builds[..i], o) + if IsFailure(builds[i], o) then [CommitOf(builds[i])] else []
  {
    assert builds[..i + 1][..i] == builds[..i];
  }

  lemma {:induction false} NoFailures(builds: seq<Build>, o: Options)
    requires forall b :: b in builds ==> !IsFailure(b, o)
    ensures Failures(builds, o) == []
    decreases |builds|
  {
    if builds != [] {
      NoFailures(builds[..|builds| - 1], o);
    }
  }

  /** Leading builds that are neither failures nor cuts change nothing. */
  lemma SkipQuiet(builds: seq<Build>, k: nat, o: Options)
    requires k <= |builds|
    requires forall i :: 0 <= i < k ==> !IsFailure(builds[i], o) && !IsCut(builds[i])
    ensures CurrentRun(builds[k..], o) == CurrentRun(builds, o)
  {
    var end := CutFrom(builds, 0);
    CutSuffix(builds, k, 0);
    CutSkips(builds, 0, k);
    assert builds[..end] == builds[..k] + builds[k..end];
    assert builds[k..][..end - k] == builds[k..end];
    FailuresConcat(builds[..k], builds[k..end], o);
    NoFailures(builds[..k], o);
  }

  lemma CutSkips(builds: seq<Build>, from: nat, later: nat)
    requires from <= later <= |builds|
    requires forall i :: from <= i < later ==> !IsCut(builds[i])
    ensures CutFrom(builds, from) == CutFrom(builds, later)
  {
  }

  lemma CutSuffix(builds: seq<Build>, k: nat, from: nat)
    requires k + from <= |builds|
    ensures CutFrom(builds[k..], from) + k == CutFrom(builds, k + from)
  {
  }

  // ----- The same by position -----

  ghost predicate Increasing(at: seq<nat>) {
    forall i, j :: 0 <= i < j < |at| ==> at[i] < at[j]
  }

  ghost function Positions(at: seq<nat>): set<nat> {
    set i | i in at
  }

  lemma {:induction false} PositionsCount(at: seq<nat>)
    requires Increasing(at)
    ensures |Positions(at)| == |at|
    decreases |at|
  {
    if at != [] {
      var front, last := at[..|at| - 1], at[|at| - 1];
      PositionsCount(front);
      assert at == front + [last];
      assert Positions(at) == Positions(front) + {last};
      assert last !in front;
    }
  }

  /** Entry by entry, `run` reports the builds at the positions `at`, which are in order. */
  ghost predicate ReportsAt(builds: seq<Build>, at: seq<nat>, run: seq<CommitInfo>) {
    && Increasing(at) && |at| == |run|
    && forall k :: 0 <= k < |at| ==> at[k] < |builds| && Reports(run[k], builds[at[k]])
  }

  lemma ReportsBefore(builds: seq<Build>, n: nat, at: seq<nat>, run: seq<CommitInfo>)
    requires n <= |builds| && ReportsAt(builds[..n], at, run)
    ensures ReportsAt(builds, at, run)
    ensures forall i :: i in at ==> i < n
  {
  }

  lemma ReportsOneMore(builds: seq<Build>, at: seq<nat>, run: seq<CommitInfo>, i: nat, c: CommitInfo)
    requires ReportsAt(builds, at, run)
    requires i < |builds| && Reports(c, builds[i]) && forall j :: j in at ==> j < i
    ensures ReportsAt(builds, at + [i], run + [c])
  {
    assert forall k :: 0 <= k < |at| ==> at[k] in at;
  }

  /** Every failure is reported, once and in order, and nothing else. */
  lemma {:induction false} FailuresAt(builds: seq<Build>, o: Options) returns (at: seq<nat>)
    ensures ReportsAt(builds, at, Failures(builds, o))
    ensures forall i: nat :: i in at <==> i < |builds| && IsFailure(builds[i], o)
    decreases |builds|
  {
    at := [];
    if builds != [] {
      var last := |builds| - 1;
      at := FailuresAt(builds[..last], o);
      assert forall i: nat :: i < last ==> builds[..last][i] == builds[i];
      ReportsBefore(builds, last, at, Failures(builds[..last], o));
      if IsFailure(builds[last], o) {
        CommitOfReports(builds[last]);
        ReportsOneMore(builds, at, Failures(builds[..last], o), last, CommitOf(builds[last]));
        at := at + [last];
      }
    }
  }

  /** The positions of the failures newer than the newest passed build. */
  ghost function CurrentFailures(builds: seq<Build>, o: Options): set<nat> {
    set i: nat | i < |builds| && IsFailure(builds[i], o) && forall j :: 0 <= j < i ==> !IsCut(builds[j])
  }

  /** The current run reports exactly these builds, newest first. */
  lemma CurrentRunAt(builds: seq<Build>, o: Options) returns (at: seq<nat>)
    ensures ReportsAt(builds, at, CurrentRun(builds, o))
    ensures Positions(at) == CurrentFailures(builds, o)
    ensures |CurrentRun(builds, o)| == |CurrentFailures(builds, o)|
  {
    var end := CutFrom(builds, 0);
    at := FailuresAt(builds[..end], o);
    forall i: nat
      ensures i in at <==> i in CurrentFailures(builds, o)
    {
      assert i < end ==> builds[..end][i] == builds[i];
    }
    PositionsCount(at);
  }

  /** At least one failure, and at least as many as the threshold. */
  ghost predicate Reached(failures: set<nat>, o: Options) {
    |failures| >= 1 && |failures| >= o.threshold
  }

  lemma ReachedExactly(builds: seq<Build>, o: Options)
    ensures Exceeds(CurrentRun(builds, o), o) <==> Reached(CurrentFailures(builds, o), o)
  {
    var at := CurrentRunAt(builds, o);
  }

  // ----- The scan -----

  /**
   Scans up to the first passed build. `scanned` is the index the loop variable was left at:
   that of the passed build, or of the last build if none passed, or zero for no builds.
   */
  method ScanFailures(builds: seq<Build>, o: Options)
    returns (failed: seq<CommitInfo>, exceeded: bool, scanned: nat)
    ensures failed == CurrentRun(builds, o)
    ensures exceeded <==> Exceeds(failed, o)
    ensures scanned == if builds == [] then 0
                       else if CutFrom(builds, 0) < |builds| then CutFrom(builds, 0)
                       else |builds| - 1
  {
    var consecutive := 0;
    failed, exceeded, scanned := [], false, 0;
    for i := 0 to |builds|
      invariant scanned == if i == 0 then 0 else i - 1
      invariant consecutive == |failed|
      invariant exceeded <==> Exceeds(failed, o)
      invariant failed == Failures(builds[..i], o)
      invariant forall j :: 0 <= j < i ==> !IsCut(builds[j])
    {
      scanned := i;
      var build := builds[i];
      FailuresSnoc(builds, i, o);
      if IsScheduled(build) {
        continue;
      }
      if IsPassed(build) {
        CutSkips(builds, 0, i);
        return;
      } else if !IsFailed(build, o) {
        continue;
      }
      consecutive := consecutive + 1;
      failed := failed + [CommitOf(build)];
      if consecutive >= o.threshold {
        exceeded := true;
      }
    }
    CutSkips(builds, 0, |builds|);
    assert builds[..|builds|] == builds;
  }

  /** So what it reports is decided by the failures before the first passed build. */
  method FindConsecutiveFailures(builds: seq<Build>, o: Options)
    returns (failed: seq<CommitInfo>, exceeded: bool, scanned: nat)
    ensures failed == CurrentRun(builds, o)
    ensures exceeded <==> Exceeds(failed, o)
    ensures exceeded <==> Reached(CurrentFailures(builds, o), o)
    ensures scanned == if builds == [] then 0
                       else if CutFrom(builds, 0) < |builds| then CutFrom(builds, 0)
                       else |builds| - 1
  {
    failed, exceeded, scanned := ScanFailures(builds, o);
    ReachedExactly(builds, o);
  }

  // ----- The decision -----

  /** What the check wants done, with the commits it reports; a panic of the program is an outcome. */
  datatype Verdict = Unlock(failed: seq<CommitInfo>) | Lock(failed: seq<CommitInfo>) | Panic

  ghost predicate IsFinished(b: Build, o: Options) {
    !IsScheduled(b) && (IsPassed(b) || IsFailed(b, o))
  }

  /** The newest finished build has no number, which the log line dereferences. */
  ghost predicate NewestHasNoNumber(builds: seq<Build>, o: Options) {
    exists i :: && 0 <= i < |builds|
                && IsFinished(builds[i], o)
                && builds[i].number.None?
                && forall j :: 0 <= j < i ==> !IsFinished(builds[j], o)
  }

  ghost predicate Panics(builds: seq<Build>, o: Options) {
    || NewestHasNoNumber(builds, o)
    || (o.threshold < 0 && CurrentRun(builds, o) != [])
  }

  /** The newest build that passed or failed has no number, or a negative threshold meets a failure. */
  lemma PanicsExactlyWhen(builds: seq<Build>, o: Options)
    ensures Panics(builds, o) <==>
            || (o.threshold < 0 && CurrentFailures(builds, o) != {})
            || exists i :: && 0 <= i < |builds| && builds[i].number == None
                           && (IsCut(builds[i]) || IsFailure(builds[i], o))
                           && forall j :: 0 <= j < i ==> !IsCut(builds[j]) && !IsFailure(builds[j], o)
  {
    var at := CurrentRunAt(builds, o);
    assert CurrentRun(builds, o) == [] <==> CurrentFailures(builds, o) == {};
  }

  /** The oldest `n` of a run. */
  ghost function Oldest(run: seq<CommitInfo>, n: nat): (r: seq<CommitInfo>)
    ensures |r| == if |run| <= n then |run| else n
    ensures r == run[|run| - |r|..]
  {
    if |run| > n then run[|run| - n..] else run
  }

  method CheckBuilds(builds: seq<Build>, o: Options) returns (verdict: Verdict)
    ensures verdict.Panic? <==> Panics(builds, o)
    ensures verdict.Lock? <==> !Panics(builds, o) && Reached(CurrentFailures(builds, o), o)
    ensures verdict.Lock? ==> o.threshold >= 0 && verdict.failed == Oldest(CurrentRun(builds, o), o.threshold)
    ensures verdict.Unlock? ==> verdict.failed == CurrentRun(builds, o)
  {
    ReachedExactly(builds, o);
    var firstFailedBuildIndex := 0;
    for i := 0 to |builds|
      invariant firstFailedBuildIndex == 0
      invariant forall j :: 0 <= j < i ==> !IsFinished(builds[j], o)
    {
      var b := builds[i];
      if IsScheduled(b) {
        continue;
      }
      if IsPassed(b) {
        CutSkips(builds, 0, i);
        NoFailures(builds[..i], o);
        return if b.number.None? then Panic else Unlock([]);
      }
      if IsFailed(b, o) {
        if b.number.None? {
          return Panic;
        }
        firstFailedBuildIndex := i;
        break;
      }
    }
    var start := if firstFailedBuildIndex - 1 < 0 then 0 else firstFailedBuildIndex - 1;
    SkipQuiet(builds, start, o);
    var failed, exceeded, _ := FindConsecutiveFailures(builds[start..], o);
    if !exceeded {
      return Unlock(failed);
    }
    if |failed| > o.threshold {
      if o.threshold < 0 {
        return Panic;
      }
      failed := failed[|failed| - o.threshold..];
    }
    return Lock(failed);
  }

  /** One failed build locks at threshold one and does not at threshold two; without a number it panics. */
  lemma DecisionExample(b: Build, now: int)
    requires b.state == Some("failed") && b.source == None
    ensures Reached(CurrentFailures([b], Options(1, 0, now)), Options(1, 0, now))
    ensures !Reached(CurrentFailures([b], Options(2, 0, now)), Options(2, 0, now))
    ensures Panics([b], Options(1, 0, now)) <==> b.number == None
  {
    assert CurrentFailures([b], Options(1, 0, now)) == {0};
    assert CurrentFailures([b], Options(2, 0, now)) == {0};
    assert [b][0] == b;
  }
}
