/**
 The lock protocol of dev/buildchecker: planning a lock or unlock (branch.go), and one
 check-and-act cycle that announces a change before making it (main.go).

 GitHub and Slack are a protection record and the responses a cycle gets. A call that fails
 leaves the protection as it was, and nobody else edits it.
 */
module BranchLock {
  import opened Builds
  import opened Optional

  const FALLBACK_TEAM := "dev-experience"

  datatype Restrictions = Restrictions(users: seq<string>, teams: seq<string>)

  datatype StatusChecks = StatusChecks(strict: bool, contexts: seq<string>)

  datatype Reviews = Reviews(count: nat, dismissStale: bool, codeOwners: bool, dismissers: Option<seq<string>>)

  /** The rules of a protected branch. Signatures are set by a call of their own. */
  datatype Protection = Protection(
    restrictions: Option<Restrictions>,
    statusChecks: Option<StatusChecks>,
    reviews: Option<Reviews>,
    linearHistory: bool,
    enforceAdmins: bool,
    forcePushes: bool,
    deletions: bool,
    conversationResolution: bool,
    signatures: bool)

  datatype CommitLookup = LookupFailed | NoAuthor | Author(login: string)

  datatype Membership = MembershipFailed | NotAMember | Member(state: string)

  /** What the remote services answer during one cycle. */
  datatype Responses = Responses(
    readFails: bool,
    commitOf: string -> CommitLookup,
    memberOf: string -> Membership,
    requestFails: bool,
    announceSucceeds: bool,
    actionFails: bool)

  /** The callback a plan returns. */
  datatype Action = Restrict(to: Restrictions, keeping: Option<StatusChecks>) | DeleteRestrictions

  /** No plan because of an error or a panic, nothing to do, or an action to take. */
  datatype Plan = Abort | Keep | Change(action: Action)

  // ----- Specification -----

  ghost predicate Restricted(p: Protection) {
    p.restrictions.Some?
  }

  ghost predicate AuthorsResolve(commits: seq<CommitInfo>, r: Responses) {
    forall c :: c in commits ==> r.commitOf(c.commit).Author?
  }

  /** The authors of the commits who are active members, in order, once per commit. */
  ghost function Allowed(commits: seq<CommitInfo>, r: Responses): seq<string> {
    if commits == [] then []
    else
      var found := r.commitOf(commits[|commits| - 1].commit);
      Allowed(commits[..|commits| - 1], r) +
      if found.Author? && r.memberOf(found.login) == Member("active") then [found.login] else []
  }

  /** Who is on an allow-list: the authors of the commits who are active members. */
  lemma {:induction false} AllowedExactly(commits: seq<CommitInfo>, r: Responses, u: string)
    ensures u in Allowed(commits, r) <==>
            r.memberOf(u) == Member("active") && exists c :: c in commits && r.commitOf(c.commit) == CommitLookup.Author(u)
    decreases |commits|
  {
    if commits != [] {
      var front, last := commits[..|commits| - 1], commits[|commits| - 1];
      assert commits == front + [last];
      AllowedExactly(front, r, u);
    }
  }

  ghost predicate IsActive(commit: string, r: Responses) {
    var found := r.commitOf(commit);
    found.Author? && r.memberOf(found.login) == Member("active")
  }

  /** Name by name, `users` are the authors of the commits at the positions `at`, which are in order. */
  ghost predicate AuthorsAt(commits: seq<CommitInfo>, r: Responses, at: seq<nat>, users: seq<string>) {
    && Increasing(at) && |at| == |users|
    && forall k :: 0 <= k < |at| ==>
         at[k] < |commits| && r.commitOf(commits[at[k]].commit) == CommitLookup.Author(users[k])
  }

  lemma AuthorsOneMore(commits: seq<CommitInfo>, r: Responses, at: seq<nat>, users: seq<string>, i: nat, u: string)
    requires AuthorsAt(commits, r, at, users) && forall j :: j in at ==> j < i
    requires i < |commits| && r.commitOf(commits[i].commit) == CommitLookup.Author(u)
    ensures AuthorsAt(commits, r, at + [i], users + [u])
  {
    assert forall k :: 0 <= k < |at| ==> at[k] in at;
  }

  lemma AuthorsBefore(commits: seq<CommitInfo>, n: nat, r: Responses, at: seq<nat>, users: seq<string>)
    requires n <= |commits| && AuthorsAt(commits[..n], r, at, users)
    ensures AuthorsAt(commits, r, at, users) && forall i :: i in at ==> i < n
  {
  }

  /** And in which order: as the commits are, one entry for each of them that has such an author. */
  lemma {:induction false} AllowedAt(commits: seq<CommitInfo>, r: Responses) returns (at: seq<nat>)
    ensures AuthorsAt(commits, r, at, Allowed(commits, r))
    ensures forall i: nat :: i in at <==> i < |commits| && IsActive(commits[i].commit, r)
    decreases |commits|
  {
    at := [];
    if commits != [] {
      var last := |commits| - 1;
      at := AllowedAt(commits[..last], r);
      assert forall i: nat :: i < last ==> commits[..last][i] == commits[i];
      AuthorsBefore(commits, last, r, at, Allowed(commits[..last], r));
      if IsActive(commits[last].commit, r) {
        AuthorsOneMore(commits, r, at, Allowed(commits[..last], r), last, r.commitOf(commits[last].commit).login);
        at := at + [last];
      }
    }
  }

  /** The only review rules a lock asks for. */
  const ONE_REVIEW := Reviews(1, false, false, None)

  /**
   An update replaces every rule: those in the request by what it says, the others by their
   defaults. A delete takes the restrictions away and nothing else.
   */
  function Performed(p: Protection, action: Action): Protection {
    match action
    case Restrict(to, keeping) =>
      Protection(Some(to), keeping, Some(ONE_REVIEW), true, true, false, false, false, p.signatures)
    case DeleteRestrictions => p.(restrictions := None)
  }

  ghost function LockPlan(p: Protection, commits: seq<CommitInfo>, r: Responses): Plan {
    if r.readFails then Abort
    else if p.restrictions.Some? then Keep
    else if !AuthorsResolve(commits, r) then Abort
    else Change(Restrict(Restrictions(Allowed(commits, r), [FALLBACK_TEAM]), p.statusChecks))
  }

  ghost function UnlockPlan(p: Protection, r: Responses): Plan {
    if r.readFails then Abort
    else if p.restrictions.None? then Keep
    else if r.requestFails then Abort
    else Change(DeleteRestrictions)
  }

  ghost function PlanFor(p: Protection, verdict: Verdict, r: Responses): Plan {
    match verdict
    case Panic => Abort
    case Lock(failed) => LockPlan(p, failed, r)
    case Unlock(_) => UnlockPlan(p, r)
  }

  datatype Outcome = Outcome(after: Protection, completed: bool, announced: bool, acted: bool)

  /** What one cycle does to a branch protected as `p`. */
  ghost function CycleOutcome(p: Protection, verdict: Verdict, r: Responses): Outcome {
    var plan := PlanFor(p, verdict, r);
    if plan.Abort? then Outcome(p, false, false, false)
    else if plan.Keep? then Outcome(p, true, false, false)
    else if !r.announceSucceeds && verdict.Lock? then Outcome(p, false, false, false)
    else if r.actionFails then Outcome(p, false, r.announceSucceeds, false)
    else Outcome(Performed(p, plan.action), true, r.announceSucceeds, true)
  }

  // ----- The program -----

  class Repository {
    var protection: Protection

    constructor (p: Protection)
      ensures protection == p
    {
      protection := p;
    }

    method Lock(commits: seq<CommitInfo>, r: Responses) returns (plan: Plan)
      ensures plan == LockPlan(protection, commits, r)
    {
      if r.readFails {
        return Abort;
      }
      var protects := protection;
      if protects.restrictions.Some? {
        return Keep;
      }
      var authors: seq<CommitLookup> := [];
      for i := 0 to |commits|
        invariant |authors| == i
        invariant forall j :: 0 <= j < i ==> authors[j] == r.commitOf(commits[j].commit) && !authors[j].LookupFailed?
      {
        var found := r.commitOf(commits[i].commit);
        if found.LookupFailed? {
          assert commits[i] in commits;
          return Abort;
        }
        authors := authors + [found];
      }
      var allow: seq<string> := [];
      for i := 0 to |authors|
        invariant allow == Allowed(commits[..i], r)
        invariant forall j :: 0 <= j < i ==> authors[j].Author?
      {
        assert commits[..i + 1][..i] == commits[..i];
        if authors[i].NoAuthor? {
          assert commits[i] in commits;
          return Abort;
        }
        var login := authors[i].login;
        var membership := r.memberOf(login);
        if membership.MembershipFailed? {
          continue;
        }
        if membership.NotAMember? || membership.state != "active" {
          continue;
        }
        allow := allow + [login];
      }
      assert commits[..|commits|] == commits;
      return Change(Restrict(Restrictions(allow, [FALLBACK_TEAM]), protects.statusChecks));
    }

    method Unlock(r: Responses) returns (plan: Plan)
      ensures plan.Change? <==> Restricted(protection) && !r.readFails && !r.requestFails
      ensures plan.Keep? <==> !Restricted(protection) && !r.readFails
      ensures plan.Change? ==>
                && !Restricted(Performed(protection, plan.action))
                && Performed(protection, plan.action).(restrictions := protection.restrictions) == protection
    {
      if r.readFails {
        return Abort;
      }
      if protection.restrictions.None? {
        return Keep;
      }
      if r.requestFails {
        return Abort;
      }
      return Change(DeleteRestrictions);
    }

    /** The check, then the announcement, then the action; false if the program ended early. */
    method Cycle(builds: seq<Build>, o: Options, r: Responses)
      returns (completed: bool, announced: bool, acted: bool, ghost verdict: Verdict)
      modifies this
      ensures verdict.Lock? <==> !Panics(builds, o) && Reached(CurrentFailures(builds, o), o)
      ensures verdict.Panic? <==> Panics(builds, o)
      ensures verdict.Lock? ==> o.threshold >= 0 && verdict.failed == Oldest(CurrentRun(builds, o), o.threshold)
      ensures CycleOutcome(old(protection), verdict, r) == Outcome(protection, completed, announced, acted)
    {
      completed, announced, acted := false, false, false;
      var decided := CheckBuilds(builds, o);
      verdict := decided;
      var plan;
      match decided {
        case Panic => return;
        case Lock(failed) => plan := Lock(failed, r);
        case Unlock(_) => plan := Unlock(r);
      }
      if plan.Abort? {
        return;
      }
      if plan.Change? {
        announced := r.announceSucceeds;
        if !announced && decided.Lock? {
          return;
        }
        if r.actionFails {
          return;
        }
        protection := Performed(protection, plan.action);
        acted := true;
      }
      completed := true;
    }
  }

  // ----- One cycle -----

  /** A verdict that already holds changes nothing and announces nothing. */
  lemma RepeatedVerdictIsNoOp(p: Protection, verdict: Verdict, r: Responses)
    requires !verdict.Panic? && (verdict.Lock? <==> Restricted(p))
    ensures var out := CycleOutcome(p, verdict, r);
            out.after == p && !out.announced && !out.acted && (out.completed <==> !r.readFails)
  {
  }

  /** Every lock that takes effect was announced; only an unlock can go through in silence. */
  lemma NoSilentLock(p: Protection, verdict: Verdict, r: Responses)
    ensures var out := CycleOutcome(p, verdict, r);
            && (Restricted(out.after) && !Restricted(p) ==> verdict.Lock? && out.announced)
            && (out.acted && !out.announced ==> verdict.Unlock? && !Restricted(out.after))
            && (!out.acted ==> out.after == p)
  {
  }

  /**
   When a lock takes effect on an unrestricted branch, and what it leaves: push access for the
   active authors and the fallback team, one plain review, linear history, enforced admins, the
   status checks and signatures as they were, and every other rule off.
   */
  lemma LockTakesEffectExactlyWhen(p: Protection, commits: seq<CommitInfo>, r: Responses)
    requires !Restricted(p)
    ensures var out := CycleOutcome(p, Lock(commits), r);
            var planned := !r.readFails && forall c :: c in commits ==> r.commitOf(c.commit).Author?;
            && (Restricted(out.after) <==> planned && r.announceSucceeds && !r.actionFails)
            && (out.announced <==> planned && r.announceSucceeds)
            && (out.completed <==> Restricted(out.after)) && (out.acted <==> Restricted(out.after))
            && out.after == if !Restricted(out.after) then p
                            else Protection(Some(Restrictions(Allowed(commits, r), ["dev-experience"])), p.statusChecks,
                                            Some(Reviews(1, false, false, None)), true, true, false, false, false, p.signatures)
  {
  }

  /** When an unlock takes effect on a restricted branch, announced or not: the restrictions go and nothing else. */
  lemma UnlockTakesEffectExactlyWhen(p: Protection, failed: seq<CommitInfo>, r: Responses)
    requires Restricted(p)
    ensures var out := CycleOutcome(p, Unlock(failed), r);
            && (!Restricted(out.after) <==> !r.readFails && !r.requestFails && !r.actionFails)
            && (out.announced <==> !r.readFails && !r.requestFails && r.announceSucceeds)
            && (out.completed <==> !Restricted(out.after)) && (out.acted <==> !Restricted(out.after))
            && out.after.(restrictions := p.restrictions) == p
  {
  }

  /** A panic ends the cycle before anything is done. */
  lemma PanicDoesNothing(p: Protection, r: Responses)
    ensures CycleOutcome(p, Panic, r) == Outcome(p, false, false, false)
  {
  }

  /** The branch already has every rule that a lock imposes or resets. */
  ghost predicate AsLocksLeaveIt(p: Protection) {
    && p.reviews == Some(ONE_REVIEW)
    && p.linearHistory && p.enforceAdmins
    && !p.forcePushes && !p.deletions && !p.conversationResolution
  }

  /**
   Locking and unlocking again gives the branch back as it was exactly if it already had the
   rules that a lock leaves: the unlock takes away the restrictions only.
   */
  lemma UnlockUndoesLockExactlyWhen(p: Protection, commits: seq<CommitInfo>, r: Responses)
    requires LockPlan(p, commits, r).Change?
    ensures Performed(Performed(p, LockPlan(p, commits, r).action), DeleteRestrictions) == p <==> AsLocksLeaveIt(p)
  {
  }

  /** Reviews by code owners are switched off by a lock and stay off. */
  lemma CodeOwnerReviewsAreLost(commits: seq<CommitInfo>, r: Responses)
    requires !r.readFails && AuthorsResolve(commits, r)
    ensures var p := Protection(None, Some(StatusChecks(false, ["buildkite/sourcegraph"])), Some(Reviews(1, false, true, None)),
                                true, true, false, false, false, false);
            && LockPlan(p, commits, r).Change?
            && Performed(Performed(p, LockPlan(p, commits, r).action), DeleteRestrictions) == p.(reviews := Some(ONE_REVIEW)) != p
  {
  }

  // ----- Whole runs -----

  datatype Step = Step(verdict: Verdict, responses: Responses)

  /** The protection after all steps. */
  ghost function After(p: Protection, steps: seq<Step>): Protection {
    if steps == [] then p
    else CycleOutcome(After(p, steps[..|steps| - 1]), steps[|steps| - 1].verdict, steps[|steps| - 1].responses).after
  }

  /** Whether step `i` of the run ran to its end. */
  ghost predicate Completed(p: Protection, steps: seq<Step>, i: nat)
    requires i < |steps|
  {
    CycleOutcome(After(p, steps[..i]), steps[i].verdict, steps[i].responses).completed
  }

  ghost predicate NoneCompleted(p: Protection, steps: seq<Step>, from: nat) {
    forall i :: from <= i < |steps| ==> !Completed(p, steps, i)
  }

  lemma CompletedInPrefix(p: Protection, steps: seq<Step>, n: nat, i: nat)
    requires i < n <= |steps|
    ensures Completed(p, steps[..n], i) <==> Completed(p, steps, i)
  {
    assert steps[..n][..i] == steps[..i];
  }

  lemma {:induction false} NothingCompletedNothingChanged(p: Protection, steps: seq<Step>, n: nat)
    requires n <= |steps| && NoneCompleted(p, steps, n)
    ensures After(p, steps) == After(p, steps[..n])
    decreases |steps|
  {
    if n < |steps| {
      var front := steps[..|steps| - 1];
      forall i | n <= i < |front|
        ensures !Completed(p, front, i)
      {
        CompletedInPrefix(p, steps, |front|, i);
      }
      NothingCompletedNothingChanged(p, front, n);
      assert front[..n] == steps[..n];
      assert !Completed(p, steps, |steps| - 1);
    } else {
      assert steps[..n] == steps;
    }
  }

  lemma CompletedCycleObeys(p: Protection, verdict: Verdict, r: Responses)
    requires CycleOutcome(p, verdict, r).completed
    ensures Restricted(CycleOutcome(p, verdict, r).after) <==> verdict.Lock?
  {
  }

  /** A cycle runs to its end exactly if it has nothing to do or nothing it needs fails. */
  lemma CompletedExactlyWhen(p: Protection, verdict: Verdict, r: Responses)
    ensures CycleOutcome(p, verdict, r).completed <==>
            && !verdict.Panic? && !r.readFails
            && (verdict.Lock? && !Restricted(p) ==>
                  r.announceSucceeds && !r.actionFails && forall c :: c in verdict.failed ==> r.commitOf(c.commit).Author?)
            && (verdict.Unlock? && Restricted(p) ==> !r.requestFails && !r.actionFails)
  {
  }

  /** The branch is restricted exactly if the latest completed cycle decided to lock. */
  lemma LatestVerdictHolds(p: Protection, steps: seq<Step>, last: nat)
    requires last < |steps| && Completed(p, steps, last)
    requires NoneCompleted(p, steps, last + 1)
    ensures Restricted(After(p, steps)) <==> steps[last].verdict.Lock?
  {
    NothingCompletedNothingChanged(p, steps, last + 1);
    assert steps[..last + 1][..last] == steps[..last];
    CompletedCycleObeys(After(p, steps[..last]), steps[last].verdict, steps[last].responses);
  }

  /** So whatever went wrong before, a cycle in which nothing goes wrong puts its verdict in force. */
  lemma CleanCyclePrevails(p: Protection, steps: seq<Step>, verdict: Verdict, r: Responses)
    requires !verdict.Panic?
    requires !r.readFails && !r.requestFails && !r.actionFails
    requires verdict.Lock? ==> r.announceSucceeds && forall c :: c in verdict.failed ==> r.commitOf(c.commit).Author?
    ensures Restricted(After(p, steps + [Step(verdict, r)])) <==> verdict.Lock?
  {
    var all := steps + [Step(verdict, r)];
    assert all[..|steps|] == steps;
    CompletedExactlyWhen(After(p, steps), verdict, r);
    LatestVerdictHolds(p, all, |steps|);
  }

  /**
   While no later cycle completes an unlock, the allow-list is that of the first lock of the
   streak, however many more locks follow and whatever their authors.
   */
  lemma {:induction false} FirstLockOfStreakDecides(p: Protection, steps: seq<Step>, first: nat)
    requires first < |steps| && Completed(p, steps, first)
    requires steps[first].verdict.Lock? && !Restricted(After(p, steps[..first]))
    requires forall i :: first < i < |steps| && Completed(p, steps, i) ==> steps[i].verdict.Lock?
    ensures After(p, steps).restrictions ==
            Some(Restrictions(Allowed(steps[first].verdict.failed, steps[first].responses), [FALLBACK_TEAM]))
    decreases |steps|
  {
    var front := steps[..|steps| - 1];
    if first < |front| {
      CompletedInPrefix(p, steps, |front|, first);
      assert front[..first] == steps[..first];
      forall i | first < i < |front| && Completed(p, front, i)
        ensures front[i].verdict.Lock?
      {
        CompletedInPrefix(p, steps, |front|, i);
      }
      FirstLockOfStreakDecides(p, front, first);
    } else {
      assert front == steps[..first];
    }
  }

  /**
   What made a branch restricted: a step of the run that found it unrestricted, decided to lock,
   was announced and ran to its end, and that no completed unlock has followed.
   */
  ghost predicate LockedBy(p: Protection, steps: seq<Step>, i: nat)
    requires i < |steps|
  {
    var before := After(p, steps[..i]);
    var out := CycleOutcome(before, steps[i].verdict, steps[i].responses);
    && !Restricted(before) && steps[i].verdict.Lock?
    && out.completed && out.announced && out.acted
    && forall j :: i < j < |steps| && Completed(p, steps, j) ==> steps[j].verdict.Lock?
  }

  /** Over whole runs no branch is locked in silence: behind every restriction there is an announced lock. */
  lemma {:induction false} EveryLockWasAnnounced(p: Protection, steps: seq<Step>) returns (i: nat)
    requires !Restricted(p) && Restricted(After(p, steps))
    ensures i < |steps| && LockedBy(p, steps, i)
    ensures After(p, steps).restrictions ==
            Some(Restrictions(Allowed(steps[i].verdict.failed, steps[i].responses), [FALLBACK_TEAM]))
    decreases |steps|
  {
    var front, last := steps[..|steps| - 1], |steps| - 1;
    if Restricted(After(p, front)) {
      i := EveryLockWasAnnounced(p, front);
      assert front[..i] == steps[..i];
      forall j | i < j < |steps| && Completed(p, steps, j)
        ensures steps[j].verdict.Lock?
      {
        if j < last {
          CompletedInPrefix(p, steps, last, j);
        } else {
          CompletedCycleObeys(After(p, front), steps[last].verdict, steps[last].responses);
        }
      }
    } else {
      i := last;
    }
    FirstLockOfStreakDecides(p, steps, i);
  }

  /** The rules other than the restrictions, once a lock has taken effect. */
  ghost function AfterALock(p: Protection): Protection {
    p.(restrictions := None, reviews := Some(ONE_REVIEW), linearHistory := true, enforceAdmins := true,
       forcePushes := false, deletions := false, conversationResolution := false)
  }

  /** Some step of the run put restrictions in place. */
  ghost predicate EverLocked(p: Protection, steps: seq<Step>) {
    exists i :: 0 <= i < |steps| && steps[i].verdict.Lock? &&
                CycleOutcome(After(p, steps[..i]), steps[i].verdict, steps[i].responses).acted
  }

  lemma EverLockedSnoc(p: Protection, steps: seq<Step>)
    requires steps != []
    ensures var front, last := steps[..|steps| - 1], steps[|steps| - 1];
            EverLocked(p, steps) <==>
            EverLocked(p, front) ||
            (last.verdict.Lock? && CycleOutcome(After(p, front), last.verdict, last.responses).acted)
  {
    var front := steps[..|steps| - 1];
    assert forall i :: 0 <= i < |front| ==> front[i] == steps[i] && front[..i] == steps[..i];
  }

  lemma RulesAfterACycle(p: Protection, verdict: Verdict, r: Responses)
    ensures var out := CycleOutcome(p, verdict, r);
            out.after.(restrictions := None) == if verdict.Lock? && out.acted then AfterALock(p) else p.(restrictions := None)
  {
  }

  /** The first lock of a run fixes all other rules for good: no later cycle brings an old one back. */
  lemma {:induction false} RulesAfterAnyRun(p: Protection, steps: seq<Step>)
    ensures After(p, steps).(restrictions := None) ==
            if EverLocked(p, steps) then AfterALock(p) else p.(restrictions := None)
    decreases |steps|
  {
    if steps != [] {
      var front, last := steps[..|steps| - 1], steps[|steps| - 1];
      RulesAfterAnyRun(p, front);
      RulesAfterACycle(After(p, front), last.verdict, last.responses);
      EverLockedSnoc(p, steps);
    }
  }

  /** No cycle of the run completed, or the latest completed one decided to unlock. */
  ghost predicate EndsWithUnlock(p: Protection, steps: seq<Step>) {
    || NoneCompleted(p, steps, 0)
    || exists last :: 0 <= last < |steps| && Completed(p, steps, last) && NoneCompleted(p, steps, last + 1) &&
                      steps[last].verdict.Unlock?
  }

  lemma {:induction false} LatestCompleted(p: Protection, steps: seq<Step>, n: nat) returns (last: nat)
    requires n <= |steps| && NoneCompleted(p, steps, n) && !NoneCompleted(p, steps, 0)
    ensures last < |steps| && Completed(p, steps, last) && NoneCompleted(p, steps, last + 1)
    decreases n
  {
    last := n - 1;
    if !Completed(p, steps, last) {
      last := LatestCompleted(p, steps, last);
    }
  }

  lemma UnrestrictedExactlyWhen(p: Protection, steps: seq<Step>)
    requires !Restricted(p)
    ensures !Restricted(After(p, steps)) <==> EndsWithUnlock(p, steps)
  {
    if NoneCompleted(p, steps, 0) {
      NothingCompletedNothingChanged(p, steps, 0);
    } else {
      var last := LatestCompleted(p, steps, |steps|);
      LatestVerdictHolds(p, steps, last);
      assert forall i :: 0 <= i < |steps| && Completed(p, steps, i) && NoneCompleted(p, steps, i + 1) ==> i == last;
    }
  }

  /**
   So a run from an unrestricted branch gives it back as it was exactly if its latest completed
   cycle, if any, decided to unlock and either nothing was ever locked or the branch already had
   the rules a lock leaves.
   */
  lemma RunRestoresExactlyWhen(p: Protection, steps: seq<Step>)
    requires !Restricted(p)
    ensures After(p, steps) == p <==>
            EndsWithUnlock(p, steps) && (!EverLocked(p, steps) || AsLocksLeaveIt(p))
  {
    UnrestrictedExactlyWhen(p, steps);
    RulesAfterAnyRun(p, steps);
  }

  /** And status checks and signatures are kept by every run. */
  lemma StatusChecksSurvive(p: Protection, steps: seq<Step>)
    ensures After(p, steps).statusChecks == p.statusChecks && After(p, steps).signatures == p.signatures
  {
    RulesAfterAnyRun(p, steps);
  }
}
