/**
 What the history report says, build by build: which builds are flakes, which one an incident is
 dated and measured by, and what is counted on a day.
 */
module HistoryMeaning {
  import opened Builds
  import opened History
  import opened Optional
  import opened Tally

  // ----- Stretches between two passed unscheduled builds -----

  /** No passed unscheduled build lies between the two, or is one of them. */
  ghost predicate SameStretch(builds: seq<Build>, i: nat, j: nat) {
    forall k :: 0 <= k < |builds| && (i <= k <= j || j <= k <= i) ==> !IsCut(builds[k])
  }

  /** The failures in the stretch of build `i`. */
  ghost function StretchFailures(builds: seq<Build>, i: nat, o: Options): set<nat> {
    set j: nat | j < |builds| && IsFailure(builds[j], o) && SameStretch(builds, i, j)
  }

  /** A stretch begins with the list or after a passed unscheduled build. */
  ghost predicate IsStart(builds: seq<Build>, from: nat) {
    from <= |builds| && (from == 0 || IsCut(builds[from - 1]))
  }

  /** A failure whose stretch stays below the threshold. */
  ghost predicate IsFlake(builds: seq<Build>, i: nat, o: Options) {
    i < |builds| && IsFailure(builds[i], o) && |StretchFailures(builds, i, o)| < o.threshold
  }

  /** The oldest failure of a stretch that reaches the threshold. */
  ghost predicate IsIncident(builds: seq<Build>, i: nat, o: Options) {
    && i < |builds| && IsFailure(builds[i], o) && |StretchFailures(builds, i, o)| >= o.threshold
    && forall j :: j in StretchFailures(builds, i, o) ==> j <= i
  }

  /** The flakes from `from` on. */
  ghost function FlakesFrom(builds: seq<Build>, from: nat, o: Options): set<nat> {
    set i: nat | from <= i < |builds| && IsFlake(builds, i, o)
  }

  /** The incidents from `from` on. */
  ghost function IncidentsFrom(builds: seq<Build>, from: nat, o: Options): set<nat> {
    set i: nat | from <= i < |builds| && IsIncident(builds, i, o)
  }

  ghost predicate Shifted(at: seq<nat>, n: nat, later: seq<nat>) {
    |later| == |at| && forall k :: 0 <= k < |at| ==> later[k] == at[k] + n
  }

  lemma ReportsShifted(builds: seq<Build>, from: nat, end: nat, at: seq<nat>, later: seq<nat>, run: seq<CommitInfo>)
    requires from <= end <= |builds| && ReportsAt(builds[from..end], at, run) && Shifted(at, from, later)
    ensures ReportsAt(builds, later, run)
    ensures forall i: nat :: i in later <==> i >= from && i - from in at
  {
    forall i: nat | i >= from && i - from in at
      ensures i in later
    {
      var k :| 0 <= k < |at| && at[k] == i - from;
      assert later[k] == i;
    }
  }

  /** A run reports exactly the failures from its start to the next cut. */
  lemma RunAt(builds: seq<Build>, from: nat, o: Options) returns (at: seq<nat>)
    requires from <= |builds|
    ensures ReportsAt(builds, at, Run(builds, from, o))
    ensures forall i: nat :: i in at <==> from <= i < CutFrom(builds, from) && IsFailure(builds[i], o)
  {
    var end := CutFrom(builds, from);
    var within := FailuresAt(builds[from..end], o);
    at := seq(|within|, k requires 0 <= k < |within| => within[k] + from);
    ReportsShifted(builds, from, end, within, at, Run(builds, from, o));
    assert forall i: nat :: from <= i < end ==> builds[from..end][i - from] == builds[i];
  }

  lemma StretchFrom(builds: seq<Build>, from: nat, i: nat, j: nat)
    requires IsStart(builds, from) && from <= i < CutFrom(builds, from) && j < |builds| && !IsCut(builds[j])
    ensures SameStretch(builds, i, j) <==> from <= j < CutFrom(builds, from)
  {
    var end := CutFrom(builds, from);
    if j < from {
      assert j <= from - 1 <= i && IsCut(builds[from - 1]);
    } else if end <= j {
      assert i <= end <= j && IsCut(builds[end]);
    }
  }

  /** The failures of a stretch are those of its run. */
  lemma StretchIsRun(builds: seq<Build>, from: nat, i: nat, at: seq<nat>, o: Options)
    requires IsStart(builds, from) && from <= i < CutFrom(builds, from)
    requires ReportsAt(builds, at, Run(builds, from, o))
    requires forall j: nat :: j in at <==> from <= j < CutFrom(builds, from) && IsFailure(builds[j], o)
    ensures StretchFailures(builds, i, o) == Positions(at)
    ensures |StretchFailures(builds, i, o)| == |Run(builds, from, o)|
  {
    forall j: nat
      ensures j in StretchFailures(builds, i, o) <==> j in Positions(at)
    {
      if j < |builds| && IsFailure(builds[j], o) {
        StretchFrom(builds, from, i, j);
      }
    }
    PositionsCount(at);
  }

  // ----- Flakes -----

  lemma ReportsConcat(builds: seq<Build>, at: seq<nat>, run: seq<CommitInfo>, at': seq<nat>, run': seq<CommitInfo>, end: nat)
    requires ReportsAt(builds, at, run) && ReportsAt(builds, at', run')
    requires (forall i :: i in at ==> i < end) && forall i :: i in at' ==> end <= i
    ensures ReportsAt(builds, at + at', run + run')
  {
    assert forall k :: 0 <= k < |at| ==> at[k] in at;
    assert forall k :: 0 <= k < |at'| ==> at'[k] in at';
  }

  /** Whether the failures of a stretch are flakes is decided by the length of its run. */
  lemma FlakesOfStretch(builds: seq<Build>, from: nat, at: seq<nat>, o: Options)
    requires from < |builds| && IsStart(builds, from)
    requires ReportsAt(builds, at, Run(builds, from, o))
    requires forall j: nat :: j in at <==> from <= j < CutFrom(builds, from) && IsFailure(builds[j], o)
    ensures forall i: nat :: from <= i <= CutFrom(builds, from) ==>
              (IsFlake(builds, i, o) <==> i in at && !Exceeds(Run(builds, from, o), o))
  {
    forall i: nat | from <= i <= CutFrom(builds, from)
      ensures IsFlake(builds, i, o) <==> i in at && !Exceeds(Run(builds, from, o), o)
    {
      if i < CutFrom(builds, from) && IsFailure(builds[i], o) {
        StretchIsRun(builds, from, i, at, o);
        assert at != [];
      }
    }
  }

  lemma FlakesSplit(builds: seq<Build>, from: nat, own: seq<nat>, o: Options)
    requires from < |builds| && IsStart(builds, from)
    requires ReportsAt(builds, own, Run(builds, from, o))
    requires forall j: nat :: j in own <==> from <= j < CutFrom(builds, from) && IsFailure(builds[j], o)
    ensures FlakesFrom(builds, from, o) ==
            (if Exceeds(Run(builds, from, o), o) then {} else Positions(own)) + FlakesFrom(builds, CutFrom(builds, from) + 1, o)
  {
    FlakesOfStretch(builds, from, own, o);
  }

  lemma NoFlakeFirst(builds: seq<Build>, from: nat, o: Options)
    requires from < |builds| && IsStart(builds, from) && Exceeds(Run(builds, from, o), o)
    ensures FlakesFrom(builds, from, o) == FlakesFrom(builds, CutFrom(builds, from) + 1, o)
  {
    var own := RunAt(builds, from, o);
    FlakesSplit(builds, from, own, o);
  }

  /** One stretch below the threshold, before flakes already listed. */
  lemma FlakesFirst(builds: seq<Build>, from: nat, o: Options, at: seq<nat>, run: seq<CommitInfo>) returns (own: seq<nat>)
    requires from < |builds| && IsStart(builds, from) && !Exceeds(Run(builds, from, o), o)
    requires ReportsAt(builds, at, run) && Positions(at) == FlakesFrom(builds, CutFrom(builds, from) + 1, o)
    ensures ReportsAt(builds, own + at, Run(builds, from, o) + run)
    ensures Positions(own + at) == FlakesFrom(builds, from, o)
  {
    own := RunAt(builds, from, o);
    FlakesSplit(builds, from, own, o);
    PositionsConcat(own, at);
    assert forall i :: i in at ==> i in Positions(at);
    ReportsConcat(builds, own, Run(builds, from, o), at, run, CutFrom(builds, from));
  }

  lemma PositionsConcat(at: seq<nat>, at': seq<nat>)
    ensures Positions(at + at') == Positions(at) + Positions(at')
  {
  }

  /** The flakes counted are exactly the failures in stretches below the threshold, each once. */
  lemma {:induction false} FlakesAt(builds: seq<Build>, from: nat, o: Options) returns (at: seq<nat>, run: seq<CommitInfo>)
    requires from > |builds| || IsStart(builds, from)
    ensures run == Flakes(builds, from, o)
    ensures ReportsAt(builds, at, run)
    ensures Positions(at) == FlakesFrom(builds, from, o)
    decreases |builds| - from
  {
    at, run := [], [];
    if from >= |builds| {
      assert Positions([]) == FlakesFrom(builds, from, o);
    } else {
      at, run := FlakesAt(builds, CutFrom(builds, from) + 1, o);
      if Exceeds(Run(builds, from, o), o) {
        NoFlakeFirst(builds, from, o);
        assert [] + run == run;
      } else {
        var own := FlakesFirst(builds, from, o, at, run);
        at, run := own + at, Run(builds, from, o) + run;
      }
    }
  }

  // ----- Incidents -----

  /** The stretch of build `i` begins at `s`. */
  ghost predicate StartsAt(builds: seq<Build>, s: nat, i: nat) {
    IsStart(builds, s) && s <= i < |builds| && SameStretch(builds, s, i)
  }

  /**
   The incident of build `i`, in the stretch that begins at `s`: on the day it was created, as many
   minutes as from then to the creation of the last build passed before the first failed build of
   the stretch.
   */
  ghost predicate Measures(builds: seq<Build>, s: nat, i: nat, windowStart: int, o: Options, a: Addition)
    requires AllCreated(builds)
  {
    && StartsAt(builds, s, i)
    && var created, green := builds[i].created.value, LastPassed(builds, FirstFailed(builds, s, o), windowStart);
       a == Addition(Day(created), Minutes(green - created))
  }

  /** Entry by entry, `adds` are the incidents of the builds at the positions `at`, in order. */
  ghost predicate MeasuresAt(builds: seq<Build>, starts: seq<nat>, at: seq<nat>, windowStart: int, o: Options, adds: seq<Addition>)
    requires AllCreated(builds)
  {
    && Increasing(at) && |starts| == |at| == |adds|
    && forall k :: 0 <= k < |at| ==> Measures(builds, starts[k], at[k], windowStart, o, adds[k])
  }

  lemma MeasuresOneMore(builds: seq<Build>, s: nat, i: nat, a: Addition, starts: seq<nat>, at: seq<nat>, adds: seq<Addition>,
                        windowStart: int, o: Options)
    requires AllCreated(builds) && Measures(builds, s, i, windowStart, o, a)
    requires MeasuresAt(builds, starts, at, windowStart, o, adds) && forall j :: j in at ==> i < j
    ensures MeasuresAt(builds, [s] + starts, [i] + at, windowStart, o, [a] + adds)
  {
    IncreasingCons(i, at);
    forall k | 0 <= k < |[i] + at|
      ensures Measures(builds, ([s] + starts)[k], ([i] + at)[k], windowStart, o, ([a] + adds)[k])
    {
      if k > 0 {
        assert ([s] + starts)[k] == starts[k - 1] && ([i] + at)[k] == at[k - 1] && ([a] + adds)[k] == adds[k - 1];
      }
    }
  }

  lemma IncreasingCons(i: nat, at: seq<nat>)
    requires Increasing(at) && forall j :: j in at ==> i < j
    ensures Increasing([i] + at)
  {
    assert forall k :: 0 <= k < |at| ==> at[k] in at;
  }

  lemma StretchBegins(builds: seq<Build>, from: nat, i: nat)
    requires IsStart(builds, from) && from <= i < CutFrom(builds, from)
    ensures StartsAt(builds, from, i)
  {
  }

  lemma OldestIsReported(builds: seq<Build>, at: seq<nat>, run: seq<CommitInfo>)
    requires ReportsAt(builds, at, run) && run != []
    ensures at[|at| - 1] in at && at[|at| - 1] < |builds| && run[|run| - 1].created == builds[at[|at| - 1]].created
  {
  }

  lemma IncidentMeasures(builds: seq<Build>, from: nat, at: seq<nat>, windowStart: int, o: Options)
    requires AllCreated(builds) && from < |builds| && IsStart(builds, from) && Exceeds(Run(builds, from, o), o)
    requires ReportsAt(builds, at, Run(builds, from, o))
    requires forall j: nat :: j in at <==> from <= j < CutFrom(builds, from) && IsFailure(builds[j], o)
    ensures Measures(builds, from, at[|at| - 1], windowStart, o, Incident(builds, from, windowStart, o))
  {
    OldestIsReported(builds, at, Run(builds, from, o));
    StretchBegins(builds, from, at[|at| - 1]);
  }

  /** In a stretch that reaches the threshold the oldest failure is the incident. */
  lemma IncidentOfStretch(builds: seq<Build>, from: nat, at: seq<nat>, i: nat, o: Options)
    requires from < |builds| && IsStart(builds, from) && Exceeds(Run(builds, from, o), o)
    requires ReportsAt(builds, at, Run(builds, from, o))
    requires forall j: nat :: j in at <==> from <= j < CutFrom(builds, from) && IsFailure(builds[j], o)
    requires from <= i <= CutFrom(builds, from)
    ensures IsIncident(builds, i, o) <==> i == at[|at| - 1]
  {
    assert at[|at| - 1] in at;
    if i < CutFrom(builds, from) && IsFailure(builds[i], o) {
      StretchIsRun(builds, from, i, at, o);
      assert forall j :: j in at ==> j <= at[|at| - 1];
      assert at[|at| - 1] in Positions(at);
    }
  }

  lemma NoIncidentInStretch(builds: seq<Build>, from: nat, at: seq<nat>, o: Options)
    requires from < |builds| && IsStart(builds, from) && !Exceeds(Run(builds, from, o), o)
    requires ReportsAt(builds, at, Run(builds, from, o))
    requires forall j: nat :: j in at <==> from <= j < CutFrom(builds, from) && IsFailure(builds[j], o)
    ensures forall i: nat :: from <= i <= CutFrom(builds, from) ==> !IsIncident(builds, i, o)
  {
    FlakesOfStretch(builds, from, at, o);
  }

  lemma IncidentsSplit(builds: seq<Build>, from: nat, own: seq<nat>, o: Options)
    requires from < |builds| && IsStart(builds, from)
    requires ReportsAt(builds, own, Run(builds, from, o))
    requires forall j: nat :: j in own <==> from <= j < CutFrom(builds, from) && IsFailure(builds[j], o)
    ensures IncidentsFrom(builds, from, o) ==
            (if Exceeds(Run(builds, from, o), o) then {own[|own| - 1]} else {}) +
            IncidentsFrom(builds, CutFrom(builds, from) + 1, o)
  {
    if Exceeds(Run(builds, from, o), o) {
      assert own[|own| - 1] in own;
      forall i: nat | from <= i <= CutFrom(builds, from) {
        IncidentOfStretch(builds, from, own, i, o);
      }
    } else {
      NoIncidentInStretch(builds, from, own, o);
    }
  }

  lemma NoIncidentFirst(builds: seq<Build>, from: nat, o: Options)
    requires from < |builds| && IsStart(builds, from) && !Exceeds(Run(builds, from, o), o)
    ensures IncidentsFrom(builds, from, o) == IncidentsFrom(builds, CutFrom(builds, from) + 1, o)
  {
    var own := RunAt(builds, from, o);
    IncidentsSplit(builds, from, own, o);
  }

  lemma LongStretchMeasures(builds: seq<Build>, from: nat, own: seq<nat>, windowStart: int, o: Options,
                            starts: seq<nat>, rest: seq<nat>, adds: seq<Addition>)
    requires AllCreated(builds) && from < |builds| && IsStart(builds, from) && Exceeds(Run(builds, from, o), o)
    requires ReportsAt(builds, own, Run(builds, from, o))
    requires forall j: nat :: j in own <==> from <= j < CutFrom(builds, from) && IsFailure(builds[j], o)
    requires MeasuresAt(builds, starts, rest, windowStart, o, adds) && forall i :: i in rest ==> CutFrom(builds, from) < i
    ensures MeasuresAt(builds, [from] + starts, [own[|own| - 1]] + rest, windowStart, o, [Incident(builds, from, windowStart, o)] + adds)
  {
    assert own[|own| - 1] in own;
    IncidentMeasures(builds, from, own, windowStart, o);
    MeasuresOneMore(builds, from, own[|own| - 1], Incident(builds, from, windowStart, o), starts, rest, adds, windowStart, o);
  }

  lemma LaterIncidents(builds: seq<Build>, from: nat, o: Options, at: seq<nat>)
    requires Positions(at) == IncidentsFrom(builds, from, o)
    ensures forall i :: i in at ==> from <= i
  {
    assert forall i :: i in at ==> i in Positions(at);
  }

  lemma PositionsCons(i: nat, at: seq<nat>)
    ensures Positions([i] + at) == {i} + Positions(at)
  {
  }

  /** One stretch that reaches the threshold, before incidents already listed. */
  lemma IncidentFirst(builds: seq<Build>, from: nat, windowStart: int, o: Options, starts: seq<nat>, rest: seq<nat>, adds: seq<Addition>)
    returns (i: nat)
    requires AllCreated(builds) && from < |builds| && IsStart(builds, from) && Exceeds(Run(builds, from, o), o)
    requires MeasuresAt(builds, starts, rest, windowStart, o, adds)
    requires Positions(rest) == IncidentsFrom(builds, CutFrom(builds, from) + 1, o)
    ensures MeasuresAt(builds, [from] + starts, [i] + rest, windowStart, o, [Incident(builds, from, windowStart, o)] + adds)
    ensures Positions([i] + rest) == IncidentsFrom(builds, from, o)
  {
    var own := RunAt(builds, from, o);
    i := own[|own| - 1];
    LaterIncidents(builds, CutFrom(builds, from) + 1, o, rest);
    LongStretchMeasures(builds, from, own, windowStart, o, starts, rest, adds);
    PositionsCons(i, rest);
    IncidentsSplit(builds, from, own, o);
  }

  lemma WithIncident(builds: seq<Build>, from: nat, windowStart: int, o: Options, starts0: seq<nat>, at0: seq<nat>, adds0: seq<Addition>)
    returns (starts: seq<nat>, at: seq<nat>, adds: seq<Addition>)
    requires AllCreated(builds) && from < |builds| && IsStart(builds, from) && Exceeds(Run(builds, from, o), o)
    requires adds0 == Incidents(builds, CutFrom(builds, from) + 1, windowStart, o)
    requires MeasuresAt(builds, starts0, at0, windowStart, o, adds0)
    requires Positions(at0) == IncidentsFrom(builds, CutFrom(builds, from) + 1, o)
    ensures adds == Incidents(builds, from, windowStart, o)
    ensures MeasuresAt(builds, starts, at, windowStart, o, adds)
    ensures Positions(at) == IncidentsFrom(builds, from, o)
  {
    var i := IncidentFirst(builds, from, windowStart, o, starts0, at0, adds0);
    starts, at, adds := [from] + starts0, [i] + at0, [Incident(builds, from, windowStart, o)] + adds0;
  }

  lemma WithoutIncident(builds: seq<Build>, from: nat, windowStart: int, o: Options)
    requires AllCreated(builds) && from < |builds| && IsStart(builds, from) && !Exceeds(Run(builds, from, o), o)
    ensures Incidents(builds, from, windowStart, o) == Incidents(builds, CutFrom(builds, from) + 1, windowStart, o)
    ensures IncidentsFrom(builds, from, o) == IncidentsFrom(builds, CutFrom(builds, from) + 1, o)
  {
    NoIncidentFirst(builds, from, o);
    var adds := Incidents(builds, CutFrom(builds, from) + 1, windowStart, o);
    assert [] + adds == adds;
  }

  lemma NoIncidentsAt(builds: seq<Build>, from: nat, windowStart: int, o: Options)
    requires AllCreated(builds) && from >= |builds|
    ensures Incidents(builds, from, windowStart, o) == [] && MeasuresAt(builds, [], [], windowStart, o, [])
    ensures Positions([]) == IncidentsFrom(builds, from, o)
  {
  }

  /** There is one incident for the oldest failure of each stretch that reaches the threshold, and no other. */
  lemma {:induction false} IncidentsAt(builds: seq<Build>, from: nat, windowStart: int, o: Options)
    returns (starts: seq<nat>, at: seq<nat>, adds: seq<Addition>)
    requires AllCreated(builds) && (from > |builds| || IsStart(builds, from))
    ensures adds == Incidents(builds, from, windowStart, o)
    ensures MeasuresAt(builds, starts, at, windowStart, o, adds)
    ensures Positions(at) == IncidentsFrom(builds, from, o)
    decreases |builds| - from
  {
    if from >= |builds| {
      NoIncidentsAt(builds, from, windowStart, o);
      return [], [], [];
    }
    starts, at, adds := IncidentsAt(builds, CutFrom(builds, from) + 1, windowStart, o);
    if Exceeds(Run(builds, from, o), o) {
      starts, at, adds := WithIncident(builds, from, windowStart, o, starts, at, adds);
    } else {
      WithoutIncident(builds, from, windowStart, o);
    }
  }

  // ----- What is counted on a day -----

  ghost predicate OnePerBuild(builds: seq<Build>, at: seq<nat>, adds: seq<Addition>)
    requires AllCreated(builds)
  {
    && Increasing(at) && |at| == |adds|
    && forall k :: 0 <= k < |at| ==> at[k] < |builds| && adds[k] == Addition(Day(builds[at[k]].created.value), 1)
  }

  ghost function BuildsOn(builds: seq<Build>, at: seq<nat>, day: int): set<nat>
    requires AllCreated(builds)
  {
    set i: nat | i in at && i < |builds| && Day(builds[i].created.value) == day
  }

  lemma OnDaySnoc(adds: seq<Addition>, a: Addition, day: int)
    ensures OnDay(adds + [a], day) == if a.day == day then OnDay(adds, day) + [a] else OnDay(adds, day)
  {
    assert (adds + [a])[..|adds|] == adds;
    assert OnDay(adds, day) + [] == OnDay(adds, day);
  }

  lemma {:induction false} OnesOnDay(adds: seq<Addition>, day: int)
    requires forall a :: a in adds ==> a.amount == 1
    ensures forall a :: a in OnDay(adds, day) ==> a.amount == 1
    decreases |adds|
  {
    if adds != [] {
      var front, last := adds[..|adds| - 1], adds[|adds| - 1];
      assert adds == front + [last];
      OnesOnDay(front, day);
      OnDaySnoc(front, last, day);
    }
  }

  lemma {:induction false} CountedOn(builds: seq<Build>, at: seq<nat>, adds: seq<Addition>, day: int)
    requires AllCreated(builds) && OnePerBuild(builds, at, adds)
    ensures |OnDay(adds, day)| == |BuildsOn(builds, at, day)|
    decreases |at|
  {
    if at != [] {
      var front, last := at[..|at| - 1], at[|at| - 1];
      var before, a := adds[..|adds| - 1], adds[|adds| - 1];
      assert at == front + [last] && last !in front && adds == before + [a];
      CountedOn(builds, front, before, day);
      CountedOneMore(builds, front, last, day);
      OnDaySnoc(before, a, day);
    }
  }

  lemma CountedOneMore(builds: seq<Build>, front: seq<nat>, last: nat, day: int)
    requires AllCreated(builds) && last < |builds| && last !in front
    ensures |BuildsOn(builds, front + [last], day)| ==
            |BuildsOn(builds, front, day)| + if Day(builds[last].created.value) == day then 1 else 0
  {
    if Day(builds[last].created.value) == day {
      assert BuildsOn(builds, front + [last], day) == BuildsOn(builds, front, day) + {last};
    } else {
      assert BuildsOn(builds, front + [last], day) == BuildsOn(builds, front, day);
    }
  }

  /** A counter map has, for each day, the number of builds counted on it, and no key for a day without one. */
  lemma CounterHolds(builds: seq<Build>, at: seq<nat>, adds: seq<Addition>, day: int)
    requires AllCreated(builds) && OnePerBuild(builds, at, adds)
    ensures day in Of(adds) <==> BuildsOn(builds, at, day) != {}
    ensures day in Of(adds) ==> Of(adds)[day] == |BuildsOn(builds, at, day)|
  {
    HoldsDayAmounts(adds, day);
    CountedOn(builds, at, adds, day);
    OnesOnDay(adds, day);
    OnesAmount(OnDay(adds, day));
  }

  lemma {:induction false} OnePerCommitAt(commits: seq<CommitInfo>, k: nat)
    requires HasTimes(commits) && k < |commits|
    ensures commits[k] in commits && OnePerCommit(commits)[k] == Addition(Day(commits[k].created.value), 1)
    decreases |commits|
  {
    if k < |commits| - 1 {
      OnePerCommitAt(commits[..|commits| - 1], k);
    }
  }

  lemma {:induction false} TotalsAt(builds: seq<Build>, k: nat)
    requires AllCreated(builds) && k < |builds|
    ensures builds[k] in builds && Totals(builds)[k] == Addition(Day(builds[k].created.value), 1)
    decreases |builds|
  {
    if k < |builds| - 1 {
      TotalsAt(builds[..|builds| - 1], k);
    }
  }

  ghost function UpTo(n: nat): (at: seq<nat>)
    ensures |at| == n && Increasing(at) && forall i: nat :: i in at <==> i < n
    ensures forall k :: 0 <= k < n ==> at[k] == k
  {
    if n == 0 then [] else UpTo(n - 1) + [n - 1]
  }

  lemma TotalsAreOnePerBuild(builds: seq<Build>)
    requires AllCreated(builds)
    ensures OnePerBuild(builds, UpTo(|builds|), Totals(builds))
  {
    forall k | 0 <= k < |builds|
      ensures Totals(builds)[k] == Addition(Day(builds[k].created.value), 1)
    {
      TotalsAt(builds, k);
    }
  }

  /** The totals of a day are the builds created on it. */
  lemma TotalsPerDay(builds: seq<Build>, day: int)
    requires AllCreated(builds)
    ensures var totals := Of(Totals(builds));
            var on := set i: nat | i < |builds| && Day(builds[i].created.value) == day;
            (day in totals <==> on != {}) && (day in totals ==> totals[day] == |on|)
  {
    TotalsAreOnePerBuild(builds);
    CounterHolds(builds, UpTo(|builds|), Totals(builds), day);
    assert BuildsOn(builds, UpTo(|builds|), day) == set i: nat | i < |builds| && Day(builds[i].created.value) == day;
  }

  /** The flakes of a day are the failures created on it whose stretch stays below the threshold. */
  lemma FlakesPerDay(builds: seq<Build>, o: Options, day: int)
    requires AllCreated(builds)
    ensures var flakes := Of(OnePerCommit(Flakes(builds, 0, o)));
            var on := set i: nat | i < |builds| && IsFlake(builds, i, o) && Day(builds[i].created.value) == day;
            (day in flakes <==> on != {}) && (day in flakes ==> flakes[day] == |on|)
  {
    var at, run := FlakesAt(builds, 0, o);
    forall k | 0 <= k < |run|
      ensures OnePerCommit(run)[k] == Addition(Day(builds[at[k]].created.value), 1)
    {
      OnePerCommitAt(run, k);
      assert Reports(run[k], builds[at[k]]);
    }
    CounterHolds(builds, at, OnePerCommit(run), day);
    assert forall i :: i in at <==> i in Positions(at);
    assert BuildsOn(builds, at, day) == set i: nat | i < |builds| && IsFlake(builds, i, o) && Day(builds[i].created.value) == day;
  }

  lemma IncidentDated(builds: seq<Build>, windowStart: int, o: Options, day: int,
                      starts: seq<nat>, at: seq<nat>, adds: seq<Addition>)
    requires AllCreated(builds) && MeasuresAt(builds, starts, at, windowStart, o, adds)
    ensures (exists k :: 0 <= k < |adds| && adds[k].day == day) <==>
            exists i: nat :: i in at && i < |builds| && Day(builds[i].created.value) == day
  {
    forall k | 0 <= k < |at|
      ensures at[k] in at && at[k] < |builds| && adds[k].day == Day(builds[at[k]].created.value)
    {
      assert Measures(builds, starts[k], at[k], windowStart, o, adds[k]);
    }
  }

  /** And a day has a key for incidents exactly if an incident is dated on it. */
  lemma IncidentDays(builds: seq<Build>, windowStart: int, o: Options, day: int)
    requires AllCreated(builds)
    ensures day in Of(Incidents(builds, 0, windowStart, o)) <==>
            exists i: nat :: i in IncidentsFrom(builds, 0, o) && Day(builds[i].created.value) == day
  {
    var starts, at, adds := IncidentsAt(builds, 0, windowStart, o);
    HoldsDayAmounts(adds, day);
    OnDayIn(adds, day);
    IncidentDated(builds, windowStart, o, day, starts, at, adds);
    assert forall i :: i in at <==> i in Positions(at);
  }

  lemma {:induction false} OnDayIn(adds: seq<Addition>, day: int)
    ensures OnDay(adds, day) != [] <==> exists k :: 0 <= k < |adds| && adds[k].day == day
    decreases |adds|
  {
    if adds != [] {
      var front := adds[..|adds| - 1];
      OnDayIn(front, day);
      assert forall k :: 0 <= k < |front| ==> front[k] == adds[k];
    }
  }

  ghost function Timed(state: string, created: int, finished: int): Build {
    Build(Some(state), None, Some(created * 60_000_000_000), Some(finished * 60_000_000_000), Some(1), Some("c"), None, None)
  }

  /** A build that failed in minute 40, and one in minute 100 that passed and finished in minute 130: an hour of red. */
  lemma HistoryExample(windowStart: int, now: int)
    ensures var builds := [Timed("passed", 100, 130), Timed("failed", 40, 50)];
            AllCreated(builds) && Incidents(builds, 0, windowStart, Options(1, 0, now)) == [Addition(0, 60)]
  {
    var builds, o := [Timed("passed", 100, 130), Timed("failed", 40, 50)], Options(1, 0, now);
    assert CutFrom(builds, 0) == 0 && Run(builds, 0, o) == [];
    assert CutFrom(builds, 1) == 2;
    assert builds[1..2] == [builds[1]] && [builds[1]][..0] == [];
    assert Failures([builds[1]], o) == [CommitOf(builds[1])];
    assert Run(builds, 1, o) == [CommitOf(builds[1])];
    assert FirstFailed(builds, 1, o) == 1 && LastPassed(builds, 1, windowStart) == 100 * 60_000_000_000;
    assert Incident(builds, 1, windowStart, o) == Addition(0, 60);
    assert Incidents(builds, 3, windowStart, o) == [];
  }
}
