/**
 The query cache of cmd/sitemap/query_database.go over a store of named buckets, and the memo
 table it amounts to. Byte strings are strings.

 A request looks into the store in one transaction, fetches outside of any, and stores in another.
 The workers of the pool make requests side by side, so the model interleaves these three steps of
 any number of calls.
 */
module QueryDatabase {
  import opened Optional

  type Store = map<string, map<string, string>>

  /** The request to make; `bytes` is its JSON form, missing if it has none. */
  datatype Key = Key(name: string, bytes: Option<string>)

  datatype Response = Ok(bytes: string) | Failed

  /** What the store accepts as an entry, and what decodes as a cached value. */
  datatype Limits = Limits(storable: (string, string) -> bool, decodes: string -> bool)

  function BucketOf(name: string): string {
    "request-" + name
  }

  function Lookup(store: Store, name: string, bytes: string): Option<string> {
    if BucketOf(name) in store && bytes in store[BucketOf(name)] then Some(store[BucketOf(name)][bytes]) else None
  }

  /** The store after a fetched result was put; an entry that is refused is silently dropped. */
  function Put(store: Store, limits: Limits, name: string, bytes: string, value: string): Store {
    var bucket := if BucketOf(name) in store then store[BucketOf(name)] else map[];
    store[BucketOf(name) := if limits.storable(bytes, value) then bucket[bytes := value] else bucket]
  }

  lemma BucketNamesDiffer(a: string, b: string)
    ensures BucketOf(a) == BucketOf(b) <==> a == b
  {
    if BucketOf(a) == BucketOf(b) {
      assert a == BucketOf(a)[8..] && b == BucketOf(b)[8..];
    }
  }

  /** A put touches the answer to its own key and to no other. */
  lemma PutTouchesOneKey(store: Store, limits: Limits, name: string, bytes: string, value: string, n: string, b: string)
    ensures Lookup(Put(store, limits, name, bytes, value), n, b) ==
            if n == name && b == bytes && limits.storable(bytes, value) then Some(value) else Lookup(store, n, b)
  {
    BucketNamesDiffer(n, name);
  }

  // ----- One caller alone -----

  /** What happens during one call: whether the transactions fail, and what a fetch would return. */
  datatype Conditions = Conditions(viewFails: bool, updateFails: bool, fetch: Response)

  /**
   What a call comes to. It fetches exactly if it can look and finds nothing; a hit answers with
   what is stored, if that decodes; a result that was fetched is answered and, if the store accepts
   it, found from then on; no other key's answer changes, and a failure changes nothing.
   */
  ghost predicate Requested(before: Store, limits: Limits, key: Key, c: Conditions, response: Response, ran: bool, after: Store) {
    var found := if key.bytes.Some? then Lookup(before, key.name, key.bytes.value) else None;
    && (ran <==> key.bytes.Some? && !c.viewFails && found.None?)
    && (!ran ==> after == before)
    && (!ran ==> response == if !c.viewFails && found.Some? && limits.decodes(found.value) then Ok(found.value) else Failed)
    && (ran ==> response == if c.updateFails then Failed else c.fetch)
    && (ran && response.Failed? ==> after == before)
    && (ran && response.Ok? ==>
          && Lookup(after, key.name, key.bytes.value) ==
             (if limits.storable(key.bytes.value, response.bytes) then Some(response.bytes) else None)
          && after.Keys == before.Keys + {"request-" + key.name})
    && (forall n, b :: n != key.name || Some(b) != key.bytes ==> Lookup(after, n, b) == Lookup(before, n, b))
  }

  class Database {
    var store: Store
    const limits: Limits

    constructor (store: Store, limits: Limits)
      ensures this.store == store && this.limits == limits
    {
      this.store, this.limits := store, limits;
    }

    method Request(key: Key, conditions: Conditions) returns (response: Response, ran: bool)
      modifies this
      ensures Requested(old(store), limits, key, conditions, response, ran, store)
    {
      response, ran := Failed, false;
      if key.bytes.None? {
        return;
      }
      var bytes := key.bytes.value;
      if conditions.viewFails {
        return;
      }
      var value := View(key.name, bytes);
      if value.Some? {
        if limits.decodes(value.value) {
          response := Ok(value.value);
        }
        return;
      }
      ran := true;
      if conditions.fetch.Failed? || conditions.updateFails {
        return;
      }
      response := conditions.fetch;
      ghost var before := store;
      Update(key.name, bytes, response.bytes);
      forall n, b
        ensures Lookup(store, n, b) ==
                if n == key.name && b == bytes && limits.storable(bytes, response.bytes) then Some(response.bytes)
                else Lookup(before, n, b)
      {
        PutTouchesOneKey(before, limits, key.name, bytes, response.bytes, n, b);
      }
    }

    /** The read transaction. */
    method View(name: string, bytes: string) returns (value: Option<string>)
      ensures value == Lookup(store, name, bytes)
    {
      value := None;
      if BucketOf(name) in store {
        var bucket := store[BucketOf(name)];
        if bytes in bucket {
          value := Some(bucket[bytes]);
        }
      }
    }

    /** The write transaction. */
    method Update(name: string, bytes: string, result: string)
      modifies this
      ensures store == Put(old(store), limits, name, bytes, result)
    {
      if BucketOf(name) !in store {
        store := store[BucketOf(name) := map[]];
      }
      if limits.storable(bytes, result) {
        store := store[BucketOf(name) := store[BucketOf(name)][bytes := result]];
      }
    }

    /** Removes the bucket with exactly this name, or fails and changes nothing. */
    method Delete(bucket: string, updateFails: bool) returns (ok: bool)
      modifies this
      ensures ok <==> bucket in old(store) && !updateFails
      ensures !ok ==> store == old(store)
      ensures ok ==> bucket !in store
      ensures forall n, b :: Lookup(store, n, b) == if ok && bucket == BucketOf(n) then None else Lookup(old(store), n, b)
    {
      if updateFails || bucket !in store {
        return false;
      }
      store := store - {bucket};
      return true;
    }
  }

  // ----- Any number of callers -----

  /** A call that found nothing, one that has fetched, and one that has returned. */
  datatype Phase = Missed(name: string, bytes: string) | Holding(name: string, bytes: string, value: string) | Answered(response: Response)

  datatype State = State(store: Store, calls: map<nat, Phase>)

  datatype Event =
    | View(call: nat, key: Key, fails: bool)
    | Fetch(call: nat, result: Response)
    | Update(call: nat, fails: bool)
    | Delete(bucket: string, fails: bool)

  /** An event that can happen now: each call views once, then fetches if it missed, then stores. */
  predicate Enabled(s: State, e: Event) {
    match e
    case View(call, _, _) => call !in s.calls
    case Fetch(call, _) => call in s.calls && s.calls[call].Missed?
    case Update(call, _) => call in s.calls && s.calls[call].Holding?
    case Delete(_, _) => true
  }

  function Viewed(store: Store, limits: Limits, key: Key, fails: bool): Phase {
    if key.bytes.None? || fails then Answered(Failed)
    else
      match Lookup(store, key.name, key.bytes.value)
      case None => Missed(key.name, key.bytes.value)
      case Some(value) => Answered(if limits.decodes(value) then Ok(value) else Failed)
  }

  /** One step; an event that cannot happen now does nothing. */
  function Step(s: State, limits: Limits, e: Event): State {
    if !Enabled(s, e) then s
    else
      match e
      case View(call, key, fails) => s.(calls := s.calls[call := Viewed(s.store, limits, key, fails)])
      case Fetch(call, result) =>
        var missed := s.calls[call];
        s.(calls := s.calls[call := if result.Ok? then Holding(missed.name, missed.bytes, result.bytes) else Answered(Failed)])
      case Update(call, fails) =>
        var held := s.calls[call];
        if fails then s.(calls := s.calls[call := Answered(Failed)])
        else State(Put(s.store, limits, held.name, held.bytes, held.value), s.calls[call := Answered(Ok(held.value))])
      case Delete(bucket, fails) =>
        if fails || bucket !in s.store then s else s.(store := s.store - {bucket})
  }

  /** What an event leaves in the log: a result stored, a bucket deleted, or nothing. */
  datatype Entry = Committed(name: string, bytes: string, value: string) | Deleted(bucket: string) | Nothing

  function EntryOf(s: State, e: Event): Entry {
    if !Enabled(s, e) then Nothing
    else
      match e
      case Update(call, fails) =>
        var held := s.calls[call];
        if fails then Nothing else Committed(held.name, held.bytes, held.value)
      case Delete(bucket, fails) => if fails || bucket !in s.store then Nothing else Deleted(bucket)
      case _ => Nothing
  }

  ghost function After(s: State, limits: Limits, run: seq<Event>): State {
    if run == [] then s else Step(After(s, limits, run[..|run| - 1]), limits, run[|run| - 1])
  }

  ghost function EntryAt(s: State, limits: Limits, run: seq<Event>, i: nat): Entry
    requires i < |run|
  {
    EntryOf(After(s, limits, run[..i]), run[i])
  }

  ghost function Log(s: State, limits: Limits, run: seq<Event>): (log: seq<Entry>)
    ensures |log| == |run|
    ensures forall i :: 0 <= i < |run| ==> log[i] == EntryAt(s, limits, run, i)
  {
    seq(|run|, i requires 0 <= i < |run| => EntryAt(s, limits, run, i))
  }

  // ----- The memo table -----

  ghost function Remembered(before: Option<string>, limits: Limits, entry: Entry, name: string, bytes: string): Option<string> {
    match entry
    case Committed(n, b, v) => if n == name && b == bytes && limits.storable(b, v) then Some(v) else before
    case Deleted(bucket) => if bucket == BucketOf(name) then None else before
    case Nothing => before
  }

  /** What a memo table holds after a log: the last storable result since the bucket was deleted. */
  ghost function Memo(initial: Option<string>, limits: Limits, log: seq<Entry>, name: string, bytes: string): Option<string> {
    if log == [] then initial
    else Remembered(Memo(initial, limits, log[..|log| - 1], name, bytes), limits, log[|log| - 1], name, bytes)
  }

  /** One step moves the store as its entry moves the memo table. */
  lemma StepMovesMemo(s: State, limits: Limits, e: Event, name: string, bytes: string)
    ensures Lookup(Step(s, limits, e).store, name, bytes) ==
            Remembered(Lookup(s.store, name, bytes), limits, EntryOf(s, e), name, bytes)
  {
    if e.Update? && Enabled(s, e) {
      var held := s.calls[e.call];
      PutTouchesOneKey(s.store, limits, held.name, held.bytes, held.value, name, bytes);
    }
  }

  lemma LogPrefix(s: State, limits: Limits, run: seq<Event>, n: nat)
    requires n <= |run|
    ensures Log(s, limits, run[..n]) == Log(s, limits, run)[..n]
  {
    forall i | 0 <= i < n
      ensures EntryAt(s, limits, run[..n], i) == EntryAt(s, limits, run, i)
    {
      assert run[..n][..i] == run[..i];
    }
  }

  /** In every interleaving of any number of calls, the bucketed store is the memo table of its log. */
  lemma {:induction false} StoreRefinesMemo(s: State, limits: Limits, run: seq<Event>, name: string, bytes: string)
    ensures Lookup(After(s, limits, run).store, name, bytes) ==
            Memo(Lookup(s.store, name, bytes), limits, Log(s, limits, run), name, bytes)
    decreases |run|
  {
    if run != [] {
      var front := run[..|run| - 1];
      StoreRefinesMemo(s, limits, front, name, bytes);
      StepMovesMemo(After(s, limits, front), limits, run[|run| - 1], name, bytes);
      LogPrefix(s, limits, run, |front|);
    }
  }

  /**
   A look into the store after any run: it misses, so that the call goes on to fetch, exactly if
   the memo table has nothing for its key; a hit answers with the result stored last, unless that
   does not decode.
   */
  lemma ViewAnswersFromMemo(s: State, limits: Limits, run: seq<Event>, call: nat, name: string, bytes: string)
    requires call !in After(s, limits, run).calls
    ensures var memo := Memo(Lookup(s.store, name, bytes), limits, Log(s, limits, run), name, bytes);
            var phase := Step(After(s, limits, run), limits, View(call, Key(name, Some(bytes)), false)).calls[call];
            && (phase == Missed(name, bytes) <==> memo.None?)
            && (memo.Some? ==> phase == Answered(if limits.decodes(memo.value) then Ok(memo.value) else Failed))
  {
    StoreRefinesMemo(s, limits, run, name, bytes);
  }

  /** Looks, fetches and failed updates and deletes, however many, change nothing in the store. */
  lemma {:induction false} QuietRunKeepsTheStore(s: State, limits: Limits, run: seq<Event>, i: nat, j: nat)
    requires i <= j <= |run| && forall k :: i <= k < j ==> EntryAt(s, limits, run, k) == Nothing
    ensures After(s, limits, run[..j]).store == After(s, limits, run[..i]).store
    decreases j - i
  {
    if i < j {
      QuietRunKeepsTheStore(s, limits, run, i, j - 1);
      assert run[..j][..j - 1] == run[..j - 1];
      assert EntryAt(s, limits, run, j - 1) == Nothing;
    }
  }

  // ----- When a key is fetched more than once -----

  /** Event `u` stores a result for this key. */
  ghost predicate StoresAt(s: State, limits: Limits, run: seq<Event>, u: nat, name: string, bytes: string) {
    && u < |run|
    && EntryAt(s, limits, run, u).Committed?
    && EntryAt(s, limits, run, u).name == name && EntryAt(s, limits, run, u).bytes == bytes
    && limits.storable(bytes, EntryAt(s, limits, run, u).value)
  }

  /** A key is answered after an event that stores it, or as before if its bucket is not deleted. */
  lemma AnsweredNext(s: State, limits: Limits, run: seq<Event>, i: nat, name: string, bytes: string)
    requires i < |run|
    ensures Lookup(After(s, limits, run[..i + 1]).store, name, bytes).Some? <==>
            || StoresAt(s, limits, run, i, name, bytes)
            || (Lookup(After(s, limits, run[..i]).store, name, bytes).Some? && EntryAt(s, limits, run, i) != Deleted(BucketOf(name)))
  {
    assert run[..i + 1][..i] == run[..i];
    StepMovesMemo(After(s, limits, run[..i]), limits, run[i], name, bytes);
  }

  /** While its bucket is not deleted, a key that is answered from the store stays answered. */
  lemma {:induction false} StaysStored(s: State, limits: Limits, run: seq<Event>, i: nat, j: nat, name: string, bytes: string)
    requires i <= j <= |run|
    requires Lookup(After(s, limits, run[..i]).store, name, bytes).Some?
    requires forall k :: i <= k < j ==> EntryAt(s, limits, run, k) != Deleted(BucketOf(name))
    ensures Lookup(After(s, limits, run[..j]).store, name, bytes).Some?
    decreases j - i
  {
    if i < j {
      StaysStored(s, limits, run, i, j - 1, name, bytes);
      AnsweredNext(s, limits, run, j - 1, name, bytes);
    }
  }

  /** Event `v` is a look for this key by a new call. */
  ghost predicate LooksFor(s: State, limits: Limits, run: seq<Event>, v: nat, name: string, bytes: string) {
    && v < |run| && run[v].View? && run[v].key == Key(name, Some(bytes)) && !run[v].fails
    && Enabled(After(s, limits, run[..v]), run[v])
  }

  /** That look finds nothing, and its call will fetch. */
  ghost predicate MissesAt(s: State, limits: Limits, run: seq<Event>, v: nat)
    requires v < |run| && run[v].View?
  {
    Step(After(s, limits, run[..v]), limits, run[v]).calls[run[v].call].Missed?
  }

  /** Event `u` stores a result for this key where there was none. */
  ghost predicate FirstStored(s: State, limits: Limits, run: seq<Event>, u: nat, name: string, bytes: string) {
    StoresAt(s, limits, run, u, name, bytes) && Lookup(After(s, limits, run[..u]).store, name, bytes).None?
  }

  /**
   With no deletion in between, a call fetches a key that another call stores exactly if it looked
   before the other had stored it: a result is not shared with calls already under way.
   */
  lemma FetchedAgainExactlyWhen(s: State, limits: Limits, run: seq<Event>, v: nat, u: nat, name: string, bytes: string)
    requires LooksFor(s, limits, run, v, name, bytes) && FirstStored(s, limits, run, u, name, bytes)
    requires forall k :: (u < k < v || v < k < u) ==> EntryAt(s, limits, run, k) != Deleted(BucketOf(name))
    ensures MissesAt(s, limits, run, v) <==> v < u
  {
    if u < v {
      AnsweredNext(s, limits, run, u, name, bytes);
      StaysStored(s, limits, run, u + 1, v, name, bytes);
    } else {
      assert EntryAt(s, limits, run, v) == Nothing;
      if Lookup(After(s, limits, run[..v]).store, name, bytes).Some? {
        StaysStored(s, limits, run, v, u, name, bytes);
      }
    }
  }

  /** A call that is about to fetch or to store has looked for its key before and missed. */
  ghost predicate Underway(s: State, call: nat, name: string, bytes: string) {
    call in s.calls && !s.calls[call].Answered? && s.calls[call].name == name && s.calls[call].bytes == bytes
  }

  lemma {:induction false} UnderwayHasMissed(s: State, limits: Limits, run: seq<Event>, call: nat, name: string, bytes: string)
    returns (v: nat)
    requires call !in s.calls && Underway(After(s, limits, run), call, name, bytes)
    ensures v < |run| && LooksFor(s, limits, run, v, name, bytes) && run[v].call == call && MissesAt(s, limits, run, v)
    decreases |run|
  {
    var front, last := run[..|run| - 1], |run| - 1;
    if Underway(After(s, limits, front), call, name, bytes) {
      v := UnderwayHasMissed(s, limits, front, call, name, bytes);
      assert front[..v] == run[..v];
    } else {
      v := last;
    }
  }

  /** A call that fetches a key after it was stored, with no deletion since, looked before it was stored. */
  lemma SecondFetchLookedEarly(s: State, limits: Limits, run: seq<Event>, u: nat, f: nat, name: string, bytes: string) returns (v: nat)
    requires u < f < |run| && run[f].Fetch? && run[f].call !in s.calls
    requires Underway(After(s, limits, run[..f]), run[f].call, name, bytes)
    requires StoresAt(s, limits, run, u, name, bytes)
    requires forall k :: u < k < f ==> EntryAt(s, limits, run, k) != Deleted(BucketOf(name))
    ensures v < u && LooksFor(s, limits, run, v, name, bytes) && run[v].call == run[f].call && MissesAt(s, limits, run, v)
  {
    v := UnderwayHasMissed(s, limits, run[..f], run[f].call, name, bytes);
    assert run[..f][..v] == run[..v];
    if u < v {
      AnsweredNext(s, limits, run, u, name, bytes);
      StaysStored(s, limits, run, u + 1, v, name, bytes);
    }
  }

  lemma AfterSnoc(s: State, limits: Limits, run: seq<Event>, e: Event)
    ensures After(s, limits, run + [e]) == Step(After(s, limits, run), limits, e)
  {
    assert (run + [e])[..|run|] == run;
  }

  /** The steps of one call in a row come to a request of one caller alone. */
  lemma OneCallInARow(s: State, limits: Limits, call: nat, key: Key, c: Conditions)
    requires call !in s.calls
    ensures var looked := Step(s, limits, View(call, key, c.viewFails));
            var t := Step(Step(looked, limits, Fetch(call, c.fetch)), limits, Update(call, c.updateFails));
            && t.calls[call].Answered? && t.calls == s.calls[call := t.calls[call]]
            && Requested(s.store, limits, key, c, t.calls[call].response, looked.calls[call].Missed?, t.store)
  {
    if key.bytes.Some? && c.fetch.Ok? {
      forall n, b
        ensures Lookup(Put(s.store, limits, key.name, key.bytes.value, c.fetch.bytes), n, b) ==
                if n == key.name && b == key.bytes.value && limits.storable(b, c.fetch.bytes) then Some(c.fetch.bytes)
                else Lookup(s.store, n, b)
      {
        PutTouchesOneKey(s.store, limits, key.name, key.bytes.value, c.fetch.bytes, n, b);
      }
    }
  }

  /** And that leaves nothing open: the response, whether it fetched and every later answer are determined. */
  lemma RequestedIsUnique(before: Store, limits: Limits, key: Key, c: Conditions, response: Response, ran: bool, after: Store,
                          response': Response, ran': bool, after': Store, name: string, bytes: string)
    requires Requested(before, limits, key, c, response, ran, after)
    requires Requested(before, limits, key, c, response', ran', after')
    ensures response == response' && ran == ran' && after.Keys == after'.Keys
    ensures Lookup(after, name, bytes) == Lookup(after', name, bytes)
  {
  }

  /** Two calls that look side by side both fetch and both store, and the later one wins. */
  lemma TwoCallsBothFetch(limits: Limits)
    requires limits.storable("k", "a") && limits.storable("k", "b")
    ensures var key := Key("Q", Some("k"));
            var start := State(map[], map[]);
            var looks := [View(0, key, false), View(1, key, false)];
            var first := looks + [Fetch(0, Ok("a"))] + [Update(0, false)];
            var both := first + [Fetch(1, Ok("b"))] + [Update(1, false)];
            && Lookup(After(start, limits, first).store, "Q", "k") == Some("a")
            && After(start, limits, both).calls == map[0 := Answered(Ok("a")), 1 := Answered(Ok("b"))]
            && Lookup(After(start, limits, both).store, "Q", "k") == Some("b")
  {
    var key := Key("Q", Some("k"));
    var start := State(map[], map[]);
    var looks := [View(0, key, false), View(1, key, false)];
    BothMiss(limits, start, key);
    AfterSnoc(start, limits, looks, Fetch(0, Ok("a")));
    var r1 := looks + [Fetch(0, Ok("a"))];
    AfterSnoc(start, limits, r1, Update(0, false));
    var r2 := r1 + [Update(0, false)];
    AfterSnoc(start, limits, r2, Fetch(1, Ok("b")));
    var r3 := r2 + [Fetch(1, Ok("b"))];
    AfterSnoc(start, limits, r3, Update(1, false));
  }

  lemma BothMiss(limits: Limits, start: State, key: Key)
    requires start == State(map[], map[]) && key == Key("Q", Some("k"))
    ensures After(start, limits, [View(0, key, false), View(1, key, false)]) ==
            State(map[], map[0 := Missed("Q", "k"), 1 := Missed("Q", "k")])
  {
    var one, two := [View(0, key, false)], [View(0, key, false), View(1, key, false)];
    assert two[..1] == one && one[..0] == [];
    assert After(start, limits, one) == State(map[], map[0 := Missed("Q", "k")]);
  }

  // ----- What a delete clears -----

  /**
   After a delete of its bucket, and until another, a key is answered exactly if a result for it has
   been stored since. That may be one fetched before the delete.
   */
  lemma {:induction false} ClearedUntilStored(s: State, limits: Limits, run: seq<Event>, d: nat, j: nat, name: string, bytes: string)
    requires d < j <= |run| && EntryAt(s, limits, run, d) == Deleted(BucketOf(name))
    requires forall k :: d < k < j ==> EntryAt(s, limits, run, k) != Deleted(BucketOf(name))
    ensures Lookup(After(s, limits, run[..j]).store, name, bytes).Some? <==>
            exists k :: d < k < j && StoresAt(s, limits, run, k, name, bytes)
    decreases j
  {
    AnsweredNext(s, limits, run, j - 1, name, bytes);
    if d < j - 1 {
      ClearedUntilStored(s, limits, run, d, j - 1, name, bytes);
    }
  }

  /** A call under way brings a key back that was deleted after it had fetched. */
  lemma DeletedKeyComesBack(limits: Limits)
    requires limits.storable("k", "a")
    ensures var start := State(map[BucketOf("Q") := map[]], map[0 := Holding("Q", "k", "a")]);
            var run := [Delete(BucketOf("Q"), false)] + [Update(0, false)];
            && EntryAt(start, limits, run, 0) == Deleted(BucketOf("Q"))
            && Lookup(After(start, limits, run).store, "Q", "k") == Some("a")
  {
    var start := State(map[BucketOf("Q") := map[]], map[0 := Holding("Q", "k", "a")]);
    var one := [Delete(BucketOf("Q"), false)];
    AfterSnoc(start, limits, [], Delete(BucketOf("Q"), false));
    assert [] + one == one;
    AfterSnoc(start, limits, one, Update(0, false));
    assert (one + [Update(0, false)])[..0] == [];
    PutTouchesOneKey(After(start, limits, one).store, limits, "Q", "k", "a", "Q", "k");
  }

  /** The name of a request is not enough to clear it: the bucket carries a prefix. */
  lemma RequestNameClearsNothingOfItsOwn(s: State, limits: Limits, fails: bool, name: string, bytes: string)
    ensures Lookup(Step(s, limits, Delete(name, fails)).store, name, bytes) == Lookup(s.store, name, bytes)
  {
    assert |BucketOf(name)| == 8 + |name|;
  }
}
