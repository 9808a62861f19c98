/**
 The worker pool of cmd/sitemap/main.go as a state machine. Each step is what one goroutine does
 while it holds the mutex, or the end of one lookup; steps of any number of workers and of the
 polling main loop interleave in any order.
 */
module WorkerPool {
  import opened Optional

  /** How the lookup of a pair ends: with an error, or with some number of references. */
  datatype Lookup = LookupFailed | References(count: nat)

  datatype Worker = Ready | Fetching(pair: nat) | Appending(pair: nat) | Returned

  /**
   `pages` lists the pairs that got a page, `exited` says that the main loop has stopped waiting,
   and `read` is what it found when it went on to use the pages, some time after that.
   */
  datatype State = State(workers: seq<Worker>, index: nat, pages: seq<nat>, exited: bool, read: Option<seq<nat>>)

  datatype Event = Claim(w: nat) | Return(w: nat) | Fetched(w: nat) | Append(w: nat) | Poll | Read

  predicate ByWorker(e: Event) {
    !e.Poll? && !e.Read?
  }

  /** A pair deserves a page if its lookup succeeds with at least one reference. */
  predicate Good(lookups: seq<Lookup>, i: nat) {
    i < |lookups| && lookups[i].References? && lookups[i].count >= 1
  }

  function Init(workers: nat): State {
    State(seq(workers, _ => Ready), 0, [], false, None)
  }

  predicate Enabled(lookups: seq<Lookup>, s: State, e: Event) {
    match e
    case Claim(w) => w < |s.workers| && s.workers[w] == Ready && s.index < |lookups|
    case Return(w) => w < |s.workers| && s.workers[w] == Ready && s.index >= |lookups|
    case Fetched(w) => w < |s.workers| && s.workers[w].Fetching? && s.workers[w].pair < |lookups|
    case Append(w) => w < |s.workers| && s.workers[w].Appending?
    case Poll => !s.exited
    case Read => s.exited && s.read.None?
  }

  function Step(lookups: seq<Lookup>, s: State, e: Event): State
    requires Enabled(lookups, s, e)
  {
    match e
    case Claim(w) => s.(workers := s.workers[w := Fetching(s.index)], index := s.index + 1)
    case Return(w) => s.(workers := s.workers[w := Returned])
    case Fetched(w) =>
      var i := s.workers[w].pair;
      s.(workers := s.workers[w := if Good(lookups, i) then Appending(i) else Ready])
    case Append(w) => s.(workers := s.workers[w := Ready], pages := s.pages + [s.workers[w].pair])
    case Poll => if s.index >= |lookups| then s.(exited := true) else s
    case Read => s.(read := Some(s.pages))
  }

  // ----- Runs -----

  /** Every event of `run` is possible when its turn comes. */
  ghost predicate Runs(lookups: seq<Lookup>, s: State, run: seq<Event>)
    decreases |run|
  {
    run == [] || (Enabled(lookups, s, run[0]) && Runs(lookups, Step(lookups, s, run[0]), run[1..]))
  }

  ghost function After(lookups: seq<Lookup>, s: State, run: seq<Event>): State
    requires Runs(lookups, s, run)
    decreases |run|
  {
    if run == [] then s else After(lookups, Step(lookups, s, run[0]), run[1..])
  }

  // ----- What every step keeps -----

  function PairOf(worker: Worker): int {
    if worker.Fetching? || worker.Appending? then worker.pair else -1
  }

  ghost predicate Held(workers: seq<Worker>, i: int) {
    exists w :: 0 <= w < |workers| && PairOf(workers[w]) == i
  }

  /** No pair is in two hands, and what is held has been claimed. */
  ghost predicate WorkersInv(lookups: seq<Lookup>, workers: seq<Worker>, index: nat) {
    && index <= |lookups|
    && (forall w :: 0 <= w < |workers| ==> PairOf(workers[w]) < index)
    && (forall w, v :: 0 <= w < v < |workers| && PairOf(workers[w]) >= 0 ==> PairOf(workers[w]) != PairOf(workers[v]))
    && (forall w :: 0 <= w < |workers| && workers[w].Appending? ==> Good(lookups, workers[w].pair))
    && (forall w :: 0 <= w < |workers| && workers[w] == Returned ==> index == |lookups|)
  }

  /** The pages are those of the good pairs claimed and no longer held, each once. */
  ghost predicate PagesInv(lookups: seq<Lookup>, s: State) {
    && (forall j, k :: 0 <= j < k < |s.pages| ==> s.pages[j] != s.pages[k])
    && (forall i: nat :: i in s.pages <==> i < s.index && Good(lookups, i) && !Held(s.workers, i))
  }

  ghost predicate Inv(lookups: seq<Lookup>, s: State) {
    && WorkersInv(lookups, s.workers, s.index)
    && PagesInv(lookups, s)
    && (s.exited ==> s.index == |lookups|)
  }

  /** Which pairs are held after worker `w` has moved on. */
  lemma HeldAfter(workers: seq<Worker>, w: nat, x: Worker, i: nat)
    requires w < |workers|
    requires forall u, v :: 0 <= u < v < |workers| && PairOf(workers[u]) >= 0 ==> PairOf(workers[u]) != PairOf(workers[v])
    ensures Held(workers[w := x], i) <==> PairOf(x) == i || (Held(workers, i) && PairOf(workers[w]) != i)
  {
    var after := workers[w := x];
    if PairOf(x) == i {
      assert PairOf(after[w]) == i;
    } else {
      if v :| 0 <= v < |after| && PairOf(after[v]) == i {
        assert PairOf(workers[v]) == i;
      }
      if v :| 0 <= v < |workers| && PairOf(workers[v]) == i && PairOf(workers[w]) != i {
        assert PairOf(after[v]) == i;
      }
    }
  }

  lemma WorkersStep(lookups: seq<Lookup>, s: State, e: Event)
    requires Inv(lookups, s) && Enabled(lookups, s, e)
    ensures var t := Step(lookups, s, e); WorkersInv(lookups, t.workers, t.index)
  {
  }

  lemma PagesStep(lookups: seq<Lookup>, s: State, e: Event)
    requires Inv(lookups, s) && Enabled(lookups, s, e)
    ensures PagesInv(lookups, Step(lookups, s, e))
  {
    var t := Step(lookups, s, e);
    if ByWorker(e) {
      forall i: nat
        ensures i in t.pages <==> i < t.index && Good(lookups, i) && !Held(t.workers, i)
      {
        HeldAfter(s.workers, e.w, t.workers[e.w], i);
        if e.Fetched? || e.Append? {
          assert Held(s.workers, s.workers[e.w].pair) by {
            assert PairOf(s.workers[e.w]) == s.workers[e.w].pair;
          }
        }
      }
    }
  }

  /** Whatever the interleaving, the invariant holds throughout. */
  lemma {:induction false} InvAlways(lookups: seq<Lookup>, s: State, run: seq<Event>)
    requires Inv(lookups, s) && Runs(lookups, s, run)
    ensures Inv(lookups, After(lookups, s, run))
    decreases |run|
  {
    if run != [] {
      WorkersStep(lookups, s, run[0]);
      PagesStep(lookups, s, run[0]);
      InvAlways(lookups, Step(lookups, s, run[0]), run[1..]);
    }
  }

  lemma InitInv(lookups: seq<Lookup>, workers: nat)
    ensures Inv(lookups, Init(workers))
  {
  }

  // ----- Each pair is claimed once, in order -----

  /** The pairs handed out by the run. */
  ghost function Claims(lookups: seq<Lookup>, s: State, run: seq<Event>): seq<nat>
    requires Runs(lookups, s, run)
    decreases |run|
  {
    if run == [] then []
    else (if run[0].Claim? then [s.index] else []) + Claims(lookups, Step(lookups, s, run[0]), run[1..])
  }

  /** However the workers interleave, the pairs are handed out one after the other, none twice. */
  lemma {:induction false} ClaimsInOrder(lookups: seq<Lookup>, s: State, run: seq<Event>)
    requires Runs(lookups, s, run)
    ensures After(lookups, s, run).index == s.index + |Claims(lookups, s, run)|
    ensures forall k :: 0 <= k < |Claims(lookups, s, run)| ==> Claims(lookups, s, run)[k] == s.index + k
    decreases |run|
  {
    if run != [] {
      ClaimsInOrder(lookups, Step(lookups, s, run[0]), run[1..]);
    }
  }

  // ----- When the waiting ends, and when the work ends -----

  ghost function HeldSet(workers: seq<Worker>): (held: set<int>)
    ensures |held| <= |workers|
    ensures forall i :: i >= 0 && Held(workers, i) ==> i in held
  {
    if workers == [] then {}
    else
      var front, last := workers[..|workers| - 1], workers[|workers| - 1];
      assert forall i :: i >= 0 && Held(workers, i) ==> Held(front, i) || PairOf(last) == i by {
        forall i | i >= 0 && Held(workers, i)
          ensures Held(front, i) || PairOf(last) == i
        {
          var w :| 0 <= w < |workers| && PairOf(workers[w]) == i;
          assert w < |front| ==> PairOf(front[w]) == i;
        }
      }
      HeldSet(front) + {PairOf(last)}
  }

  /** The good pairs that have no page among `pages`. */
  ghost function Missing(lookups: seq<Lookup>, pages: seq<nat>): set<int> {
    set i: int | 0 <= i < |lookups| && Good(lookups, i) && i !in pages
  }

  lemma SmallerSet(a: set<int>, b: set<int>)
    requires a <= b
    ensures |a| <= |b|
  {
    assert b == a + (b - a);
  }

  lemma MissingIsHeld(lookups: seq<Lookup>, s: State)
    requires Inv(lookups, s) && s.index == |lookups|
    ensures forall i :: i in Missing(lookups, s.pages) <==> i >= 0 && Good(lookups, i) && Held(s.workers, i)
    ensures |Missing(lookups, s.pages)| <= |s.workers|
  {
    SmallerSet(Missing(lookups, s.pages), HeldSet(s.workers));
  }

  /**
   Once the main loop has stopped waiting, every pair has been claimed, and what is missing from
   the pages is in the hands of a worker: at most one good pair per worker.
   */
  lemma ExitLeavesAtMostOnePerWorker(lookups: seq<Lookup>, workers: nat, run: seq<Event>)
    requires Runs(lookups, Init(workers), run)
    requires After(lookups, Init(workers), run).exited
    ensures var s := After(lookups, Init(workers), run);
            && s.index == |lookups|
            && (forall i :: i in Missing(lookups, s.pages) <==> i >= 0 && Good(lookups, i) && Held(s.workers, i))
            && |Missing(lookups, s.pages)| <= |s.workers|
  {
    InitInv(lookups, workers);
    InvAlways(lookups, Init(workers), run);
    MissingIsHeld(lookups, After(lookups, Init(workers), run));
  }

  lemma {:induction false} WorkerCount(lookups: seq<Lookup>, s: State, run: seq<Event>)
    requires Runs(lookups, s, run)
    ensures |After(lookups, s, run).workers| == |s.workers|
    decreases |run|
  {
    if run != [] {
      WorkerCount(lookups, Step(lookups, s, run[0]), run[1..]);
    }
  }

  /** Once every worker has returned, the pages are exactly the pairs with a reference, each once. */
  lemma AllReturnedMeansComplete(lookups: seq<Lookup>, workers: nat, run: seq<Event>)
    requires workers >= 1 && Runs(lookups, Init(workers), run)
    requires forall x :: x in After(lookups, Init(workers), run).workers ==> x == Returned
    ensures var s := After(lookups, Init(workers), run);
            && (forall i: nat :: i in s.pages <==> i < |lookups| && exists c: nat :: c >= 1 && lookups[i] == References(c))
            && (forall j, k :: 0 <= j < k < |s.pages| ==> s.pages[j] != s.pages[k])
  {
    InitInv(lookups, workers);
    InvAlways(lookups, Init(workers), run);
    WorkerCount(lookups, Init(workers), run);
    var s := After(lookups, Init(workers), run);
    assert forall w :: 0 <= w < |s.workers| ==> s.workers[w] in s.workers;
    assert s.workers[0] == Returned;
  }

  // ----- When the main loop can go on without a page -----

  /**
   The main loop waits for the last claim and not for the workers. Whether it can miss a page
   depends on the pool and the lookups alone: two workers can miss any good pair, a single worker
   only the last one.
   */
  ghost predicate CanMiss(lookups: seq<Lookup>, workers: nat) {
    || (workers >= 2 && exists i: nat :: Good(lookups, i))
    || (workers == 1 && |lookups| > 0 && Good(lookups, |lookups| - 1))
  }

  /** In this run the pages are read and lack a good pair. */
  ghost predicate ReadsWithout(lookups: seq<Lookup>, workers: nat, run: seq<Event>) {
    && Runs(lookups, Init(workers), run)
    && var read := After(lookups, Init(workers), run).read;
       read.Some? && Missing(lookups, read.value) != {}
  }

  /** A worker on its own can hold nothing but the pair claimed last. */
  ghost predicate AloneInv(s: State) {
    |s.workers| == 1 && PairOf(s.workers[0]) >= 0 ==> PairOf(s.workers[0]) == s.index - 1
  }

  ghost predicate ReadInv(lookups: seq<Lookup>, s: State) {
    s.read.Some? ==>
      && (Missing(lookups, s.read.value) != {} ==> CanMiss(lookups, |s.workers|))
      && |Missing(lookups, s.read.value)| <= |s.workers|
  }

  lemma ReadMissesOnlyIf(lookups: seq<Lookup>, s: State)
    requires Inv(lookups, s) && AloneInv(s) && s.exited
    ensures Missing(lookups, s.pages) != {} ==> CanMiss(lookups, |s.workers|)
    ensures |Missing(lookups, s.pages)| <= |s.workers|
  {
    MissingIsHeld(lookups, s);
    if i :| i in Missing(lookups, s.pages) {
      var w :| 0 <= w < |s.workers| && PairOf(s.workers[w]) == i;
    }
  }

  lemma {:induction false} ReadInvAlways(lookups: seq<Lookup>, s: State, run: seq<Event>)
    requires Inv(lookups, s) && AloneInv(s) && ReadInv(lookups, s) && Runs(lookups, s, run)
    ensures ReadInv(lookups, After(lookups, s, run))
    decreases |run|
  {
    if run != [] {
      var t := Step(lookups, s, run[0]);
      WorkersStep(lookups, s, run[0]);
      PagesStep(lookups, s, run[0]);
      if run[0].Read? {
        ReadMissesOnlyIf(lookups, s);
      }
      ReadInvAlways(lookups, t, run[1..]);
    }
  }

  lemma {:induction false} RunsConcat(lookups: seq<Lookup>, s: State, a: seq<Event>, b: seq<Event>)
    requires Runs(lookups, s, a) && Runs(lookups, After(lookups, s, a), b)
    ensures Runs(lookups, s, a + b) && After(lookups, s, a + b) == After(lookups, After(lookups, s, a), b)
    decreases |a|
  {
    if a == [] {
      assert a + b == b;
    } else {
      assert (a + b)[1..] == a[1..] + b;
      RunsConcat(lookups, Step(lookups, s, a[0]), a[1..], b);
    }
  }

  lemma OneEvent(lookups: seq<Lookup>, s: State, e: Event)
    requires Enabled(lookups, s, e)
    ensures Runs(lookups, s, [e]) && After(lookups, s, [e]) == Step(lookups, s, e)
  {
    var run := [e];
    assert run[1..] == [];
  }

  /** Worker `p` takes the next pair all the way. */
  lemma TakePair(lookups: seq<Lookup>, s: State, p: nat) returns (run: seq<Event>)
    requires p < |s.workers| && s.workers[p] == Ready && s.index < |lookups|
    ensures Runs(lookups, s, run)
    ensures After(lookups, s, run) ==
            s.(index := s.index + 1, pages := s.pages + if Good(lookups, s.index) then [s.index] else [])
  {
    var i := s.index;
    var s1 := Step(lookups, s, Claim(p));
    var s2 := Step(lookups, s1, Fetched(p));
    OneEvent(lookups, s, Claim(p));
    OneEvent(lookups, s1, Fetched(p));
    run := [Claim(p)] + [Fetched(p)];
    RunsConcat(lookups, s, [Claim(p)], [Fetched(p)]);
    if Good(lookups, i) {
      OneEvent(lookups, s2, Append(p));
      RunsConcat(lookups, s, run, [Append(p)]);
      run := run + [Append(p)];
      assert s.workers[p := Fetching(i)][p := Appending(i)][p := Ready] == s.workers;
    } else {
      assert s.workers[p := Fetching(i)][p := Ready] == s.workers;
      assert s.pages + [] == s.pages;
    }
  }

  /** Worker `p` takes all pairs before `until`, while the others stand still. */
  lemma {:induction false} TakePairs(lookups: seq<Lookup>, s: State, p: nat, until: nat) returns (run: seq<Event>)
    requires p < |s.workers| && s.workers[p] == Ready && s.index <= until <= |lookups|
    ensures Runs(lookups, s, run)
    ensures var t := After(lookups, s, run);
            && t.workers == s.workers && t.index == until && t.exited == s.exited && t.read == s.read
            && forall i :: i in t.pages ==> i in s.pages || s.index <= i < until
    decreases until - s.index
  {
    run := [];
    if s.index < until {
      run := TakePair(lookups, s, p);
      var t := After(lookups, s, run);
      var rest := TakePairs(lookups, t, p, until);
      RunsConcat(lookups, s, run, rest);
      run := run + rest;
    }
  }

  /** A run in which worker `h` is left with pair `i` while worker `p` takes all the others. */
  lemma LeaveBehind(lookups: seq<Lookup>, workers: nat, h: nat, p: nat, i: nat) returns (run: seq<Event>)
    requires h < workers && p < workers && Good(lookups, i)
    requires h != p || i == |lookups| - 1
    ensures Runs(lookups, Init(workers), run)
    ensures var s := After(lookups, Init(workers), run);
            s.index == |lookups| && i !in s.pages && !s.exited && s.read.None?
  {
    var s0 := Init(workers);
    run := TakePairs(lookups, s0, p, i);
    var s1 := After(lookups, s0, run);
    var s2 := Step(lookups, s1, Claim(h));
    OneEvent(lookups, s1, Claim(h));
    RunsConcat(lookups, s0, run, [Claim(h)]);
    run := run + [Claim(h)];
    if i + 1 < |lookups| {
      var rest := TakePairs(lookups, s2, p, |lookups|);
      RunsConcat(lookups, s0, run, rest);
      run := run + rest;
    }
  }

  lemma ThenRead(lookups: seq<Lookup>, workers: nat, run: seq<Event>) returns (whole: seq<Event>)
    requires Runs(lookups, Init(workers), run)
    requires var s := After(lookups, Init(workers), run); s.index == |lookups| && !s.exited && s.read.None?
    ensures Runs(lookups, Init(workers), whole)
    ensures After(lookups, Init(workers), whole).read == Some(After(lookups, Init(workers), run).pages)
  {
    var s := After(lookups, Init(workers), run);
    var t := Step(lookups, s, Poll);
    OneEvent(lookups, s, Poll);
    OneEvent(lookups, t, Read);
    RunsConcat(lookups, s, [Poll], [Read]);
    RunsConcat(lookups, Init(workers), run, [Poll] + [Read]);
    whole := run + ([Poll] + [Read]);
  }

  /** Some interleaving reads the pages without a good pair exactly if `CanMiss` says so. */
  lemma ReadCanMissExactlyWhen(lookups: seq<Lookup>, workers: nat)
    ensures (exists run :: ReadsWithout(lookups, workers, run)) <==> CanMiss(lookups, workers)
  {
    if run :| ReadsWithout(lookups, workers, run) {
      InitInv(lookups, workers);
      ReadInvAlways(lookups, Init(workers), run);
      WorkerCount(lookups, Init(workers), run);
    }
    if CanMiss(lookups, workers) {
      var i: nat :| Good(lookups, i) && (workers == 1 ==> i == |lookups| - 1);
      var run := LeaveBehind(lookups, workers, 0, if workers == 1 then 0 else 1, i);
      var whole := ThenRead(lookups, workers, run);
      assert i in Missing(lookups, After(lookups, Init(workers), run).pages);
      assert ReadsWithout(lookups, workers, whole);
    }
  }

  /** And however late the pages are read, at most one page per worker is missing. */
  lemma ReadMissesAtMostOnePerWorker(lookups: seq<Lookup>, workers: nat, run: seq<Event>)
    requires Runs(lookups, Init(workers), run)
    requires After(lookups, Init(workers), run).read.Some?
    ensures |Missing(lookups, After(lookups, Init(workers), run).read.value)| <= workers
  {
    InitInv(lookups, workers);
    ReadInvAlways(lookups, Init(workers), run);
    WorkerCount(lookups, Init(workers), run);
  }

  /** One worker and one good pair are enough for the main loop to go on without the page. */
  lemma ExitCanMissAPage()
    ensures var lookups, run := [References(1)], [Claim(0), Poll, Read];
            && Runs(lookups, Init(1), run)
            && Good(lookups, 0) && After(lookups, Init(1), run).read == Some([])
  {
    var lookups, run := [References(1)], [Claim(0), Poll, Read];
    var s1 := Step(lookups, Init(1), Claim(0));
    var s2 := Step(lookups, s1, Poll);
    OneEvent(lookups, s2, Read);
    assert run[1..] == [Poll, Read] && run[1..][1..] == [Read];
    assert Runs(lookups, s1, run[1..]) && After(lookups, s1, run[1..]) == Step(lookups, s2, Read);
  }

  // ----- The workers always finish -----

  function Cost(worker: Worker): nat {
    match worker
    case Fetching(_) => 3
    case Appending(_) => 2
    case Ready => 1
    case Returned => 0
  }

  ghost function Work(workers: seq<Worker>): nat {
    if workers == [] then 0 else Work(workers[..|workers| - 1]) + Cost(workers[|workers| - 1])
  }

  ghost function Remaining(lookups: seq<Lookup>, s: State): int {
    3 * (|lookups| - s.index) + Work(s.workers)
  }

  lemma {:induction false} WorkAfter(workers: seq<Worker>, w: nat, x: Worker)
    requires w < |workers|
    ensures Work(workers[w := x]) == Work(workers) - Cost(workers[w]) + Cost(x)
    decreases |workers|
  {
    var front, last := workers[..|workers| - 1], |workers| - 1;
    if w < last {
      WorkAfter(front, w, x);
      assert workers[w := x][..last] == front[w := x];
    } else {
      assert workers[w := x][..last] == front;
    }
  }

  /** The events of a run that are steps of workers. */
  ghost function WorkerEvents(run: seq<Event>): nat {
    if run == [] then 0 else (if ByWorker(run[0]) then 1 else 0) + WorkerEvents(run[1..])
  }

  lemma {:induction false} WorkShrinks(lookups: seq<Lookup>, s: State, run: seq<Event>)
    requires Runs(lookups, s, run)
    ensures Remaining(lookups, After(lookups, s, run)) + WorkerEvents(run) <= Remaining(lookups, s)
    decreases |run|
  {
    if run != [] {
      var t := Step(lookups, s, run[0]);
      if ByWorker(run[0]) {
        WorkAfter(s.workers, run[0].w, t.workers[run[0].w]);
      }
      WorkShrinks(lookups, t, run[1..]);
    }
  }

  lemma {:induction false} FreshWork(workers: nat)
    ensures Work(Init(workers).workers) == workers
    decreases workers
  {
    if workers > 0 {
      FreshWork(workers - 1);
      assert Init(workers).workers[..workers - 1] == Init(workers - 1).workers;
    }
  }

  /** No interleaving keeps the workers busy for more than three steps per pair and one per worker. */
  lemma WorkersAreBounded(lookups: seq<Lookup>, workers: nat, run: seq<Event>)
    requires Runs(lookups, Init(workers), run)
    ensures WorkerEvents(run) <= 3 * |lookups| + workers
  {
    InitInv(lookups, workers);
    InvAlways(lookups, Init(workers), run);
    WorkShrinks(lookups, Init(workers), run);
    FreshWork(workers);
  }

  /** And as long as one has not returned, some worker can take a step. */
  lemma WorkersNeverStuck(lookups: seq<Lookup>, workers: nat, run: seq<Event>, w: nat)
    requires Runs(lookups, Init(workers), run)
    requires w < |After(lookups, Init(workers), run).workers|
    requires After(lookups, Init(workers), run).workers[w] != Returned
    ensures exists e: Event :: ByWorker(e) && Enabled(lookups, After(lookups, Init(workers), run), e)
  {
    InitInv(lookups, workers);
    InvAlways(lookups, Init(workers), run);
    var s := After(lookups, Init(workers), run);
    var e := match s.workers[w]
      case Ready => if s.index < |lookups| then Claim(w) else Return(w)
      case Fetching(_) => Fetched(w)
      case _ => Append(w);
    assert Enabled(lookups, s, e);
  }
}
