/**
 The history report of dev/buildchecker/history.go: builds per day, flakes per day and minutes
 of incident per day.

 The specification cuts the list at every passed unscheduled build and looks at the failures
 between two cuts. The program reaches the same counts by rescanning from one build before the
 next failed build it finds.
 */
module History {
  import opened Builds
  import opened Optional
  import opened Tally

  const NANOS_PER_MINUTE := 60_000_000_000
  const NANOS_PER_DAY := 1440 * NANOS_PER_MINUTE

  /** The day a time falls on; the day number stands for its formatted date. */
  function Day(time: int): (d: int)
    ensures d * 86_400_000_000_000 <= time < (d + 1) * 86_400_000_000_000
  {
    time / NANOS_PER_DAY
  }

  /** A duration in whole minutes, truncated towards zero. */
  function Minutes(duration: int): (m: int)
    ensures duration >= 0 ==> m * 60_000_000_000 <= duration < (m + 1) * 60_000_000_000
    ensures duration <= 0 ==> (m - 1) * 60_000_000_000 < duration <= m * 60_000_000_000
  {
    if duration >= 0 then duration / NANOS_PER_MINUTE else -((-duration) / NANOS_PER_MINUTE)
  }

  ghost predicate AllCreated(builds: seq<Build>) {
    forall b :: b in builds ==> b.created.Some?
  }

  // ----- Specification -----

  ghost function Totals(builds: seq<Build>): (r: seq<Addition>)
    requires AllCreated(builds)
    ensures |r| == |builds|
  {
    if builds == [] then []
    else Totals(builds[..|builds| - 1]) + [Addition(Day(builds[|builds| - 1].created.value), 1)]
  }

  ghost predicate HasTimes(run: seq<CommitInfo>) {
    forall c :: c in run ==> c.created.Some?
  }

  lemma {:induction false} FailuresHaveTimes(builds: seq<Build>, o: Options)
    requires AllCreated(builds)
    ensures HasTimes(Failures(builds, o))
    decreases |builds|
  {
    if builds != [] {
      FailuresHaveTimes(builds[..|builds| - 1], o);
    }
  }

  /** The failures between `from` and the next cut. */
  ghost function Run(builds: seq<Build>, from: nat, o: Options): (run: seq<CommitInfo>)
    requires from <= |builds|
    ensures AllCreated(builds) ==> HasTimes(run)
  {
    FailuresHaveTimesIf(builds[from..CutFrom(builds, from)], o);
    Failures(builds[from..CutFrom(builds, from)], o)
  }

  lemma FailuresHaveTimesIf(builds: seq<Build>, o: Options)
    ensures AllCreated(builds) ==> HasTimes(Failures(builds, o))
  {
  }

  /** The runs from `from` on, one for each stretch between two cuts. */
  ghost function Runs(builds: seq<Build>, from: nat, o: Options): seq<seq<CommitInfo>>
    decreases |builds| - from
  {
    if from >= |builds| then []
    else [Run(builds, from, o)] + Runs(builds, CutFrom(builds, from) + 1, o)
  }

  /** When the last passed build before position `i` was created, else the window's start. */
  ghost function LastPassed(builds: seq<Build>, i: nat, windowStart: int): int
    requires i <= |builds| && AllCreated(builds)
  {
    if i == 0 then windowStart
    else if IsPassed(builds[i - 1]) then builds[i - 1].created.value
    else LastPassed(builds, i - 1, windowStart)
  }

  /** Build `j` is the last passed one before position `i`. */
  ghost predicate PassedLast(builds: seq<Build>, j: nat, i: nat) {
    j < i <= |builds| && IsPassed(builds[j]) && forall k :: j < k < i ==> !IsPassed(builds[k])
  }

  /** It is the creation time of that build, or the window's start if no build passed before. */
  lemma {:induction false} LastPassedIs(builds: seq<Build>, i: nat, windowStart: int) returns (passed: Option<nat>)
    requires i <= |builds| && AllCreated(builds)
    ensures passed.Some? ==>
              PassedLast(builds, passed.value, i) && builds[passed.value].created == Some(LastPassed(builds, i, windowStart))
    ensures passed.None? ==>
              LastPassed(builds, i, windowStart) == windowStart && forall j :: 0 <= j < i ==> !IsPassed(builds[j])
    decreases i
  {
    if i == 0 {
      passed := None;
    } else if IsPassed(builds[i - 1]) {
      assert builds[i - 1] in builds;
      passed := Some(i - 1);
    } else {
      passed := LastPassedIs(builds, i - 1, windowStart);
    }
  }

  /** The first failed build from `from` on, scheduled or not; the end if there is none. */
  ghost function FirstFailed(builds: seq<Build>, from: nat, o: Options): (i: nat)
    requires from <= |builds|
    ensures from <= i <= |builds|
    ensures forall j :: from <= j < i ==> !IsFailed(builds[j], o)
    ensures i < |builds| ==> IsFailed(builds[i], o)
    decreases |builds| - from
  {
    if from == |builds| || IsFailed(builds[from], o) then from else FirstFailed(builds, from + 1, o)
  }

  /** One flake for every failure of a run that stayed below the threshold. */
  ghost function Flakes(builds: seq<Build>, from: nat, o: Options): (r: seq<CommitInfo>)
    ensures AllCreated(builds) ==> HasTimes(r)
    decreases |builds| - from
  {
    if from >= |builds| then []
    else (if Exceeds(Run(builds, from, o), o) then [] else Run(builds, from, o)) +
         Flakes(builds, CutFrom(builds, from) + 1, o)
  }

  /** When a run from `from` on turned green again: the passed build just before its first failed build. */
  ghost function GreenAgain(builds: seq<Build>, from: nat, windowStart: int, o: Options): int
    requires from <= |builds| && AllCreated(builds)
  {
    LastPassed(builds, FirstFailed(builds, from, o), windowStart)
  }

  /** Red time runs from the oldest failure of a run to the passed build that came after it. */
  ghost function Incident(builds: seq<Build>, from: nat, windowStart: int, o: Options): Addition
    requires from <= |builds| && AllCreated(builds)
    requires Exceeds(Run(builds, from, o), o)
  {
    var run := Run(builds, from, o);
    var oldest := run[|run| - 1].created.value;
    Addition(Day(oldest), Minutes(GreenAgain(builds, from, windowStart, o) - oldest))
  }

  ghost function Incidents(builds: seq<Build>, from: nat, windowStart: int, o: Options): seq<Addition>
    requires AllCreated(builds)
    decreases |builds| - from
  {
    if from >= |builds| then []
    else (if Exceeds(Run(builds, from, o), o) then [Incident(builds, from, windowStart, o)] else []) +
         Incidents(builds, CutFrom(builds, from) + 1, windowStart, o)
  }

  /** What the report counts: failures as flakes, and red minutes. */
  datatype Findings = Findings(flakes: seq<CommitInfo>, incidents: seq<Addition>)

  ghost function Then(a: Findings, b: Findings): Findings {
    Findings(a.flakes + b.flakes, a.incidents + b.incidents)
  }

  /** What is found from position `from` on. */
  ghost function Rest(builds: seq<Build>, from: nat, windowStart: int, o: Options): (r: Findings)
    requires AllCreated(builds)
    ensures HasTimes(r.flakes)
  {
    Findings(Flakes(builds, from, o), Incidents(builds, from, windowStart, o))
  }

  /** What is found between `from` and the next cut. */
  ghost function Batch(builds: seq<Build>, from: nat, windowStart: int, o: Options): (r: Findings)
    requires from <= |builds| && AllCreated(builds)
    ensures HasTimes(r.flakes)
  {
    if Exceeds(Run(builds, from, o), o) then Findings([], [Incident(builds, from, windowStart, o)])
    else Findings(Run(builds, from, o), [])
  }

  ghost function OnePerCommit(commits: seq<CommitInfo>): (r: seq<Addition>)
    requires HasTimes(commits)
    ensures |r| == |commits|
  {
    if commits == [] then []
    else OnePerCommit(commits[..|commits| - 1]) + [Addition(Day(commits[|commits| - 1].created.value), 1)]
  }

  // ----- Builds that are not failed can be skipped -----

  lemma QuietRun(builds: seq<Build>, from: nat, o: Options)
    requires from < |builds| && !IsFailed(builds[from], o) && !IsCut(builds[from])
    ensures CutFrom(builds, from) == CutFrom(builds, from + 1)
    ensures Run(builds, from, o) == Run(builds, from + 1, o)
  {
    var end := CutFrom(builds, from + 1);
    assert builds[from..end] == [builds[from]] + builds[from + 1..end];
    FailuresConcat([builds[from]], builds[from + 1..end], o);
    NoFailures([builds[from]], o);
  }

  lemma QuietStep(builds: seq<Build>, from: nat, windowStart: int, o: Options)
    requires AllCreated(builds)
    requires from < |builds| && !IsFailed(builds[from], o)
    ensures Rest(builds, from, windowStart, o) == Rest(builds, from + 1, windowStart, o)
  {
    if IsCut(builds[from]) {
      assert Run(builds, from, o) == [];
    } else {
      QuietRun(builds, from, o);
    }
    assert Flakes(builds, from, o) == Flakes(builds, from + 1, o);
    assert Incidents(builds, from, windowStart, o) == Incidents(builds, from + 1, windowStart, o);
  }

  lemma {:induction false} Quiet(builds: seq<Build>, from: nat, later: nat, windowStart: int, o: Options)
    requires AllCreated(builds)
    requires from <= later <= |builds|
    requires forall i :: from <= i < later ==> !IsFailed(builds[i], o)
    ensures Rest(builds, from, windowStart, o) == Rest(builds, later, windowStart, o)
    decreases later - from
  {
    if from < later {
      QuietStep(builds, from, windowStart, o);
      Quiet(builds, from + 1, later, windowStart, o);
    }
  }

  lemma {:induction false} LastPassedSkips(builds: seq<Build>, from: nat, later: nat, windowStart: int)
    requires AllCreated(builds)
    requires from <= later <= |builds|
    requires forall i :: from <= i < later ==> !IsPassed(builds[i])
    ensures LastPassed(builds, from, windowStart) == LastPassed(builds, later, windowStart)
    decreases later - from
  {
    if from < later {
      LastPassedSkips(builds, from, later - 1, windowStart);
    }
  }

  // ----- The program -----

  method CountTotals(builds: seq<Build>) returns (totals: Counters)
    requires AllCreated(builds)
    ensures totals == Of(Totals(builds))
  {
    totals := map[];
    for i := 0 to |builds|
      invariant totals == Of(Totals(builds[..i]))
    {
      assert builds[..i + 1][..i] == builds[..i];
      OfAppend(Totals(builds[..i]), Addition(Day(builds[i].created.value), 1));
      totals := Add(totals, Addition(Day(builds[i].created.value), 1));
    }
    assert builds[..|builds|] == builds;
  }

  /** `lastPassed` is right for position `pos`, unless nothing that follows needs it. */
  ghost predicate UpToDate(builds: seq<Build>, pos: nat, lastPassed: int, windowStart: int, o: Options)
    requires pos <= |builds| && AllCreated(builds)
  {
    || lastPassed == LastPassed(builds, pos, windowStart)
    || forall i :: pos <= i < |builds| ==> !IsFailed(builds[i], o)
  }

  lemma FirstFailedSkips(builds: seq<Build>, from: nat, later: nat, o: Options)
    requires from <= later <= |builds|
    requires forall i :: from <= i < later ==> !IsFailed(builds[i], o)
    ensures FirstFailed(builds, from, o) == FirstFailed(builds, later, o)
  {
  }

  /**
   The first inner loop: the next failed build, and the passed builds met on the way to it. The
   index stays zero if there is none.
   */
  method ScanToFailed(ghost all: seq<Build>, ghost pos: nat, scanBuilds: seq<Build>, lastPassed0: int, ghost windowStart: int,
                      o: Options)
    returns (firstFailed: nat, lastPassed: int)
    requires AllCreated(all) && pos < |all| && scanBuilds == all[pos..]
    requires UpToDate(all, pos, lastPassed0, windowStart, o)
    ensures FirstFailed(all, pos, o) < |all| ==>
              && pos + firstFailed == FirstFailed(all, pos, o)
              && lastPassed == GreenAgain(all, pos, windowStart, o)
    ensures FirstFailed(all, pos, o) == |all| ==> firstFailed == 0
  {
    firstFailed, lastPassed := 0, lastPassed0;
    for i := 0 to |scanBuilds|
      invariant firstFailed == 0
      invariant forall j :: pos <= j < pos + i ==> !IsFailed(all[j], o)
      invariant lastPassed0 == LastPassed(all, pos, windowStart) ==> lastPassed == LastPassed(all, pos + i, windowStart)
    {
      assert scanBuilds[i] == all[pos + i];
      if IsFailed(scanBuilds[i], o) {
        FirstFailedSkips(all, pos, pos + i, o);
        return i, lastPassed;
      } else if IsPassed(scanBuilds[i]) {
        lastPassed := scanBuilds[i].created.value;
      }
    }
    FirstFailedSkips(all, pos, |all|, o);
  }

  /** The last inner loop: the passed builds of the batch just scanned. */
  method ScanPassed(ghost all: seq<Build>, ghost pos: nat, batch: seq<Build>, lastPassed0: int, ghost windowStart: int)
    returns (lastPassed: int)
    requires AllCreated(all) && pos + |batch| <= |all| && batch == all[pos..pos + |batch|]
    ensures (exists i :: 0 <= i < |batch| && IsPassed(batch[i])) ==>
              lastPassed == LastPassed(all, pos + |batch|, windowStart)
    ensures (forall i :: 0 <= i < |batch| ==> !IsPassed(batch[i])) ==> lastPassed == lastPassed0
  {
    lastPassed := lastPassed0;
    for i := 0 to |batch|
      invariant (exists j :: 0 <= j < i && IsPassed(batch[j])) ==> lastPassed == LastPassed(all, pos + i, windowStart)
      invariant (forall j :: 0 <= j < i ==> !IsPassed(batch[j])) ==> lastPassed == lastPassed0
    {
      assert batch[i] == all[pos + i];
      if IsPassed(batch[i]) {
        lastPassed := batch[i].created.value;
      }
    }
  }

  method AddFlakes(flakes0: Counters, failed: seq<CommitInfo>, ghost before: seq<CommitInfo>) returns (flakes: Counters)
    requires HasTimes(before) && HasTimes(failed)
    requires flakes0 == Of(OnePerCommit(before))
    ensures flakes == Of(OnePerCommit(before + failed))
  {
    flakes := flakes0;
    assert before + failed[..0] == before;
    for i := 0 to |failed|
      invariant flakes == Of(OnePerCommit(before + failed[..i]))
    {
      ghost var done := before + failed[..i];
      assert before + failed[..i + 1] == done + [failed[i]];
      assert (done + [failed[i]])[..|done|] == done;
      OfAppend(OnePerCommit(done), Addition(Day(failed[i].created.value), 1));
      flakes := Add(flakes, Addition(Day(failed[i].created.value), 1));
    }
    assert failed[..|failed|] == failed;
  }

  /** Where the next batch starts. */
  ghost function NextBatch(builds: seq<Build>, from: nat): (next: nat)
    requires from < |builds|
    ensures from < next <= |builds|
  {
    var end := CutFrom(builds, from);
    if end < |builds| then end + 1 else end
  }

  lemma RestStartsWithBatch(builds: seq<Build>, from: nat, windowStart: int, o: Options)
    requires AllCreated(builds) && from < |builds|
    ensures Rest(builds, from, windowStart, o) ==
            Then(Batch(builds, from, windowStart, o), Rest(builds, NextBatch(builds, from), windowStart, o))
  {
    var next := NextBatch(builds, from);
    var rest := Rest(builds, next, windowStart, o);
    assert Flakes(builds, CutFrom(builds, from) + 1, o) == Flakes(builds, next, o);
    assert Incidents(builds, CutFrom(builds, from) + 1, windowStart, o) == Incidents(builds, next, windowStart, o);
    assert [] + rest.flakes == rest.flakes && [] + rest.incidents == rest.incidents;
  }

  lemma FoundGrows(builds: seq<Build>, from: nat, windowStart: int, o: Options, found: Findings, all: Findings)
    requires AllCreated(builds) && from < |builds|
    requires Then(found, Rest(builds, from, windowStart, o)) == all
    ensures Then(Then(found, Batch(builds, from, windowStart, o)), Rest(builds, NextBatch(builds, from), windowStart, o)) == all
  {
    RestStartsWithBatch(builds, from, windowStart, o);
    ThenRegroups(found, Batch(builds, from, windowStart, o), Rest(builds, NextBatch(builds, from), windowStart, o));
  }

  lemma NothingYet(all: Findings)
    ensures Then(Findings([], []), all) == all
  {
  }

  lemma NothingLeft(builds: seq<Build>, windowStart: int, o: Options, found: Findings)
    requires AllCreated(builds)
    ensures Then(found, Rest(builds, |builds|, windowStart, o)) == found
  {
  }

  /** The batch at `from`, in the values the program has at hand. */
  lemma BatchIs(builds: seq<Build>, from: nat, lastPassed: int, windowStart: int, o: Options, run: seq<CommitInfo>)
    requires from < |builds| && AllCreated(builds)
    requires FirstFailed(builds, from, o) < |builds| ==> lastPassed == GreenAgain(builds, from, windowStart, o)
    requires run == CurrentRun(builds[from..], o)
    ensures HasTimes(run)
    ensures Batch(builds, from, windowStart, o) ==
            if Exceeds(run, o) then
              var oldest := run[|run| - 1].created.value;
              Findings([], [Addition(Day(oldest), Minutes(lastPassed - oldest))])
            else Findings(run, [])
  {
    RunOfSuffix(builds, from, o);
    if Exceeds(run, o) {
      RunHasFailed(builds, from, o);
    }
  }

  lemma ThenRegroups(a: Findings, b: Findings, c: Findings)
    ensures Then(a, Then(b, c)) == Then(Then(a, b), c)
  {
  }

  lemma RunOfSuffix(builds: seq<Build>, from: nat, o: Options)
    requires from <= |builds|
    ensures CurrentRun(builds[from..], o) == Run(builds, from, o)
    ensures CutFrom(builds[from..], 0) + from == CutFrom(builds, from)
  {
    CutSuffix(builds, from, 0);
    assert builds[from..][..CutFrom(builds, from) - from] == builds[from..CutFrom(builds, from)];
  }

  lemma RunHasFailed(builds: seq<Build>, from: nat, o: Options)
    requires from <= |builds|
    requires Run(builds, from, o) != []
    ensures exists i :: from <= i < |builds| && IsFailed(builds[i], o)
  {
    if forall i :: from <= i < |builds| ==> !IsFailed(builds[i], o) {
      NoFailures(builds[from..CutFrom(builds, from)], o);
    }
  }

  /** Moves on to the build just before the next failed one. */
  method SkipToFailed(ghost all: seq<Build>, ghost pos: nat, scanBuilds: seq<Build>, lastPassed0: int,
                      ghost windowStart: int, o: Options)
    returns (skip: nat, rest: seq<Build>, lastPassed: int)
    requires AllCreated(all) && pos < |all| && scanBuilds == all[pos..]
    requires UpToDate(all, pos, lastPassed0, windowStart, o)
    ensures pos + skip < |all| && rest == all[pos + skip..]
    ensures Rest(all, pos + skip, windowStart, o) == Rest(all, pos, windowStart, o)
    ensures FirstFailed(all, pos + skip, o) < |all| ==>
              && FirstFailed(all, pos + skip, o) <= pos + skip + 1
              && lastPassed == GreenAgain(all, pos + skip, windowStart, o)
  {
    var firstFailed;
    firstFailed, lastPassed := ScanToFailed(all, pos, scanBuilds, lastPassed0, windowStart, o);
    skip := if firstFailed < 1 then 0 else firstFailed - 1;
    rest := scanBuilds[skip..];
    Quiet(all, pos, pos + skip, windowStart, o);
    FirstFailedSkips(all, pos, pos + skip, o);
  }

  /** Takes in the passed builds of a batch and moves past it. */
  method Advance(ghost all: seq<Build>, ghost pos: nat, scanBuilds: seq<Build>, scanned: nat, lastPassed0: int,
                 ghost windowStart: int, o: Options)
    returns (rest: seq<Build>, lastPassed: int)
    requires AllCreated(all) && pos < |all| && scanBuilds == all[pos..]
    requires pos + scanned + 1 == NextBatch(all, pos)
    requires FirstFailed(all, pos, o) < |all| ==>
               FirstFailed(all, pos, o) <= pos + 1 && lastPassed0 == GreenAgain(all, pos, windowStart, o)
    ensures rest == all[NextBatch(all, pos)..]
    ensures UpToDate(all, NextBatch(all, pos), lastPassed, windowStart, o)
  {
    var batch := scanBuilds[..scanned + 1];
    lastPassed := ScanPassed(all, pos, batch, lastPassed0, windowStart);
    rest := scanBuilds[scanned + 1..];
    ghost var ff := FirstFailed(all, pos, o);
    if ff < |all| && forall i :: 0 <= i < |batch| ==> !IsPassed(batch[i]) {
      assert forall i :: pos <= i < pos + |batch| ==> all[i] == batch[i - pos];
      LastPassedSkips(all, ff, pos + |batch|, windowStart);
    }
  }

  /** The counters hold exactly what was found. */
  ghost predicate Counted(found: Findings, flakes: Counters, incidents: Counters) {
    && HasTimes(found.flakes)
    && flakes == Of(OnePerCommit(found.flakes))
    && incidents == Of(found.incidents)
  }

  lemma CountedIncident(found: Findings, incident: Addition, flakes: Counters, incidents: Counters)
    requires Counted(found, flakes, incidents)
    ensures Counted(Then(found, Findings([], [incident])), flakes, Add(incidents, incident))
  {
    OfAppend(found.incidents, incident);
    assert found.flakes + [] == found.flakes;
  }

  lemma CountedFlakes(found: Findings, run: seq<CommitInfo>, flakes: Counters, incidents: Counters)
    requires HasTimes(found.flakes) && HasTimes(run)
    requires flakes == Of(OnePerCommit(found.flakes + run))
    requires incidents == Of(found.incidents)
    ensures Counted(Then(found, Findings(run, [])), flakes, incidents)
  {
    assert found.incidents + [] == found.incidents;
  }

  /** A scanned batch as its part of the report. */
  ghost function BatchOf(failed: seq<CommitInfo>, exceeded: bool, lastPassed: int): Findings
    requires HasTimes(failed) && (exceeded ==> failed != [])
  {
    if exceeded then
      var oldest := failed[|failed| - 1].created.value;
      Findings([], [Addition(Day(oldest), Minutes(lastPassed - oldest))])
    else Findings(failed, [])
  }

  /** Scans one batch. */
  method ScanBatch(ghost all: seq<Build>, ghost pos: nat, scanBuilds: seq<Build>, lastPassed: int, ghost windowStart: int,
                   o: Options)
    returns (failed: seq<CommitInfo>, exceeded: bool, scanned: nat)
    requires AllCreated(all) && pos < |all| && scanBuilds == all[pos..]
    requires FirstFailed(all, pos, o) < |all| ==> lastPassed == GreenAgain(all, pos, windowStart, o)
    ensures pos + scanned + 1 == NextBatch(all, pos)
    ensures HasTimes(failed) && (exceeded ==> failed != [])
    ensures Batch(all, pos, windowStart, o) == BatchOf(failed, exceeded, lastPassed)
  {
    failed, exceeded, scanned := FindConsecutiveFailures(scanBuilds, o);
    RunOfSuffix(all, pos, o);
    BatchIs(all, pos, lastPassed, windowStart, o, failed);
  }

  /** Counts one batch, as an incident or as flakes. */
  method CountBatch(failed: seq<CommitInfo>, exceeded: bool, lastPassed: int,
                    ghost found: Findings, flakes0: Counters, incidents0: Counters)
    returns (flakes: Counters, incidents: Counters)
    requires HasTimes(failed) && (exceeded ==> failed != [])
    requires Counted(found, flakes0, incidents0)
    ensures Counted(Then(found, BatchOf(failed, exceeded, lastPassed)), flakes, incidents)
  {
    flakes, incidents := flakes0, incidents0;
    if exceeded {
      var oldest := failed[|failed| - 1];
      var redTime := lastPassed - oldest.created.value;
      var incident := Addition(Day(oldest.created.value), Minutes(redTime));
      CountedIncident(found, incident, flakes, incidents);
      incidents := Add(incidents, incident);
    } else {
      flakes := AddFlakes(flakes, failed, found.flakes);
      CountedFlakes(found, failed, flakes, incidents);
    }
  }

  /** Where the loop stands: the counters hold what was found before `pos`, and the rest is still to come. */
  ghost predicate Standing(builds: seq<Build>, windowStart: int, o: Options, pos: nat, scanBuilds: seq<Build>, lastPassed: int,
                           found: Findings, all: Findings)
    requires AllCreated(builds)
  {
    && pos <= |builds| && scanBuilds == builds[pos..]
    && Then(found, Rest(builds, pos, windowStart, o)) == all
    && UpToDate(builds, pos, lastPassed, windowStart, o)
  }

  /** One round of the loop: skips to the next failed build, scans its batch and moves past it. */
  method NextRound(ghost builds: seq<Build>, ghost windowStart: int, o: Options, ghost pos0: nat, scanBuilds0: seq<Build>,
                   lastPassed0: int, ghost found0: Findings, ghost all: Findings)
    returns (failed: seq<CommitInfo>, exceeded: bool, greenAgain: int,
             scanBuilds: seq<Build>, lastPassed: int, ghost pos: nat, ghost found: Findings)
    requires AllCreated(builds) && |scanBuilds0| > 0
    requires Standing(builds, windowStart, o, pos0, scanBuilds0, lastPassed0, found0, all)
    ensures HasTimes(failed) && (exceeded ==> failed != [])
    ensures found == Then(found0, BatchOf(failed, exceeded, greenAgain))
    ensures Standing(builds, windowStart, o, pos, scanBuilds, lastPassed, found, all)
    ensures |scanBuilds| < |scanBuilds0|
  {
    var skip, scanned;
    skip, scanBuilds, lastPassed := SkipToFailed(builds, pos0, scanBuilds0, lastPassed0, windowStart, o);
    pos, greenAgain := pos0 + skip, lastPassed;
    failed, exceeded, scanned := ScanBatch(builds, pos, scanBuilds, lastPassed, windowStart, o);
    FoundGrows(builds, pos, windowStart, o, found0, all);
    found := Then(found0, Batch(builds, pos, windowStart, o));
    if |scanBuilds| > scanned {
      scanBuilds, lastPassed := Advance(builds, pos, scanBuilds, scanned, lastPassed, windowStart, o);
    } else {
      scanBuilds := [];
    }
    pos := NextBatch(builds, pos);
  }

  method GenerateHistory(builds: seq<Build>, windowStart: int, o: Options)
    returns (totals: Counters, flakes: Counters, incidents: Counters)
    requires AllCreated(builds)
    ensures totals == Of(Totals(builds))
    ensures flakes == Of(OnePerCommit(Flakes(builds, 0, o)))
    ensures incidents == Of(Incidents(builds, 0, windowStart, o))
  {
    totals := CountTotals(builds);
    flakes, incidents := map[], map[];
    var scanBuilds, lastPassed := builds, windowStart;
    ghost var pos: nat, found, all := 0, Findings([], []), Rest(builds, 0, windowStart, o);
    NothingYet(all);
    while |scanBuilds| > 0
      invariant Standing(builds, windowStart, o, pos, scanBuilds, lastPassed, found, all)
      invariant Counted(found, flakes, incidents)
      decreases |scanBuilds|
    {
      ghost var before := found;
      var failed, exceeded, greenAgain;
      failed, exceeded, greenAgain, scanBuilds, lastPassed, pos, found :=
        NextRound(builds, windowStart, o, pos, scanBuilds, lastPassed, found, all);
      flakes, incidents := CountBatch(failed, exceeded, greenAgain, before, flakes, incidents);
    }
    NothingLeft(builds, windowStart, o, found);
  }

  // ----- What the counts mean -----

  ghost function Concat(runs: seq<seq<CommitInfo>>): seq<CommitInfo> {
    if runs == [] then [] else runs[0] + Concat(runs[1..])
  }

  lemma ConcatCons(run: seq<CommitInfo>, rest: seq<seq<CommitInfo>>)
    ensures Concat([run] + rest) == run + Concat(rest)
    ensures multiset(Concat([run] + rest)) == multiset(run) + multiset(Concat(rest))
  {
  }

  ghost function Long(runs: seq<seq<CommitInfo>>, o: Options): seq<seq<CommitInfo>> {
    if runs == [] then []
    else if Exceeds(runs[0], o) then [runs[0]] + Long(runs[1..], o)
    else Long(runs[1..], o)
  }

  ghost function Short(runs: seq<seq<CommitInfo>>, o: Options): seq<seq<CommitInfo>> {
    if runs == [] then []
    else if Exceeds(runs[0], o) then Short(runs[1..], o)
    else [runs[0]] + Short(runs[1..], o)
  }

  lemma {:induction false} LongAndShort(runs: seq<seq<CommitInfo>>, o: Options)
    ensures multiset(Concat(runs)) == multiset(Concat(Short(runs, o))) + multiset(Concat(Long(runs, o)))
    decreases |runs|
  {
    if runs != [] {
      var run, rest := runs[0], runs[1..];
      LongAndShort(rest, o);
      assert Concat(runs) == run + Concat(rest);
      if Exceeds(run, o) {
        ConcatCons(run, Long(rest, o));
      } else {
        ConcatCons(run, Short(rest, o));
      }
    }
  }

  lemma FailuresSplit(builds: seq<Build>, from: nat, mid: nat, o: Options)
    requires from <= mid <= |builds|
    ensures Failures(builds[from..], o) == Failures(builds[from..mid], o) + Failures(builds[mid..], o)
  {
    assert builds[from..] == builds[from..mid] + builds[mid..];
    FailuresConcat(builds[from..mid], builds[mid..], o);
  }

  lemma NoFailureAtCut(builds: seq<Build>, from: nat, o: Options)
    requires from < |builds|
    ensures Failures(builds[CutFrom(builds, from)..], o) == Failures(builds[NextBatch(builds, from)..], o)
  {
    var end, next := CutFrom(builds, from), NextBatch(builds, from);
    if end < |builds| {
      FailuresSplit(builds, end, next, o);
      assert builds[end..next] == [builds[end]];
      NoFailures([builds[end]], o);
    }
  }

  lemma CutIsNoFailure(builds: seq<Build>, from: nat, o: Options)
    requires from < |builds|
    ensures Failures(builds[from..], o) == Run(builds, from, o) + Failures(builds[NextBatch(builds, from)..], o)
  {
    FailuresSplit(builds, from, CutFrom(builds, from), o);
    NoFailureAtCut(builds, from, o);
  }

  /** The runs, one after the other, are exactly the failures of the list. */
  lemma {:induction false} RunsAreAllFailures(builds: seq<Build>, from: nat, o: Options)
    requires from <= |builds|
    ensures Concat(Runs(builds, from, o)) == Failures(builds[from..], o)
    decreases |builds| - from
  {
    if from < |builds| {
      var next := NextBatch(builds, from);
      CutIsNoFailure(builds, from, o);
      RunsAreAllFailures(builds, next, o);
      assert Runs(builds, CutFrom(builds, from) + 1, o) == Runs(builds, next, o);
      assert Runs(builds, from, o)[1..] == Runs(builds, next, o);
    }
  }

  lemma {:induction false} FlakesAreShortRuns(builds: seq<Build>, from: nat, o: Options)
    ensures Flakes(builds, from, o) == Concat(Short(Runs(builds, from, o), o))
    decreases |builds| - from
  {
    if from < |builds| {
      var next := CutFrom(builds, from) + 1;
      FlakesAreShortRuns(builds, next, o);
      var runs := Runs(builds, from, o);
      assert runs[1..] == Runs(builds, next, o);
      ConcatCons(runs[0], Short(runs[1..], o));
    }
  }

  lemma {:induction false} OneIncidentPerLongRun(builds: seq<Build>, from: nat, windowStart: int, o: Options)
    requires AllCreated(builds)
    ensures |Incidents(builds, from, windowStart, o)| == |Long(Runs(builds, from, o), o)|
    decreases |builds| - from
  {
    if from < |builds| {
      var next := CutFrom(builds, from) + 1;
      OneIncidentPerLongRun(builds, next, windowStart, o);
      assert Runs(builds, from, o)[1..] == Runs(builds, next, o);
    }
  }

  lemma {:induction false} OnesAmount(adds: seq<Addition>)
    requires forall a :: a in adds ==> a.amount == 1
    ensures Amount(adds) == |adds|
    decreases |adds|
  {
    if adds != [] {
      OnesAmount(adds[..|adds| - 1]);
    }
  }

  lemma {:induction false} TotalsAreOnes(builds: seq<Build>)
    requires AllCreated(builds)
    ensures forall a :: a in Totals(builds) ==> a.amount == 1
    decreases |builds|
  {
    if builds != [] {
      TotalsAreOnes(builds[..|builds| - 1]);
    }
  }

  lemma {:induction false} CommitsAreOnes(commits: seq<CommitInfo>)
    requires HasTimes(commits)
    ensures forall a :: a in OnePerCommit(commits) ==> a.amount == 1
    decreases |commits|
  {
    if commits != [] {
      CommitsAreOnes(commits[..|commits| - 1]);
    }
  }

  /** Days that cover everything added. */
  ghost predicate Covers(days: seq<int>, adds: seq<Addition>) {
    Distinct(days) && forall a :: a in adds ==> a.day in days
  }

  /**
   Nothing is lost and nothing counted twice. The totals sum to the number of builds. The flakes
   sum to the failures in runs below the threshold, the other failures are exactly those of the
   long runs, and each long run makes one incident.
   */
  lemma HistoryConserves(builds: seq<Build>, windowStart: int, o: Options, days: seq<int>)
    requires AllCreated(builds)
    requires Covers(days, Totals(builds))
    requires Covers(days, OnePerCommit(Flakes(builds, 0, o)))
    ensures Total(Of(Totals(builds)), days) == |builds|
    ensures Total(Of(OnePerCommit(Flakes(builds, 0, o))), days) == |Concat(Short(Runs(builds, 0, o), o))|
    ensures multiset(Flakes(builds, 0, o)) + multiset(Concat(Long(Runs(builds, 0, o), o))) == multiset(Failures(builds, o))
    ensures |Incidents(builds, 0, windowStart, o)| == |Long(Runs(builds, 0, o), o)|
  {
    TotalIsAmount(Totals(builds), days);
    TotalsAreOnes(builds);
    OnesAmount(Totals(builds));
    var flakes := Flakes(builds, 0, o);
    TotalIsAmount(OnePerCommit(flakes), days);
    CommitsAreOnes(flakes);
    OnesAmount(OnePerCommit(flakes));
    FlakesAreShortRuns(builds, 0, o);
    assert builds[0..] == builds;
    RunsAreAllFailures(builds, 0, o);
    LongAndShort(Runs(builds, 0, o), o);
    OneIncidentPerLongRun(builds, 0, windowStart, o);
  }

  // ----- Red time is never negative -----

  ghost predicate NewestFirst(builds: seq<Build>, windowStart: int)
    requires AllCreated(builds)
  {
    && (forall i :: 0 <= i < |builds| ==> windowStart >= builds[i].created.value)
    && (forall i, j :: 0 <= i < j < |builds| ==> builds[i].created.value >= builds[j].created.value)
  }

  lemma {:induction false} LastPassedIsNewer(builds: seq<Build>, i: nat, k: nat, windowStart: int)
    requires AllCreated(builds) && NewestFirst(builds, windowStart)
    requires i <= k < |builds|
    ensures LastPassed(builds, i, windowStart) >= builds[k].created.value
    decreases i
  {
    if i > 0 && !IsPassed(builds[i - 1]) {
      LastPassedIsNewer(builds, i - 1, k, windowStart);
    }
  }

  lemma {:induction false} LastFailureIsABuild(builds: seq<Build>, o: Options) returns (k: nat)
    requires Failures(builds, o) != []
    ensures k < |builds| && IsFailed(builds[k], o)
    ensures Failures(builds, o)[|Failures(builds, o)| - 1] == CommitOf(builds[k])
    decreases |builds|
  {
    k := |builds| - 1;
    if !IsFailure(builds[k], o) {
      k := LastFailureIsABuild(builds[..k], o);
    }
  }

  lemma IncidentIsNotNegative(builds: seq<Build>, from: nat, windowStart: int, o: Options)
    requires AllCreated(builds) && NewestFirst(builds, windowStart)
    requires from <= |builds| && Exceeds(Run(builds, from, o), o)
    ensures Incident(builds, from, windowStart, o).amount >= 0
  {
    var k := LastFailureIsABuild(builds[from..CutFrom(builds, from)], o);
    assert builds[from..CutFrom(builds, from)][k] == builds[from + k];
    LastPassedIsNewer(builds, FirstFailed(builds, from, o), from + k, windowStart);
  }

  /** With builds newest first and a window that starts no earlier, every incident adds minutes. */
  lemma {:induction false} RedTimeIsNotNegative(builds: seq<Build>, from: nat, windowStart: int, o: Options)
    requires AllCreated(builds) && NewestFirst(builds, windowStart)
    ensures forall k :: 0 <= k < |Incidents(builds, from, windowStart, o)| ==> Incidents(builds, from, windowStart, o)[k].amount >= 0
    decreases |builds| - from
  {
    if from < |builds| {
      RedTimeIsNotNegative(builds, CutFrom(builds, from) + 1, windowStart, o);
      if Exceeds(Run(builds, from, o), o) {
        IncidentIsNotNegative(builds, from, windowStart, o);
      }
    }
  }
}
