/**
 The table of dev/buildchecker/history.go with one row per day: `mapToRecords` sorts the days of
 a map and fills the gaps by inserting into the list it is iterating over. A day number stands
 for its formatted date, a number for its decimal string.
 */
module Records {

  datatype Record = Record(day: int, value: int)

  function ValueAt(m: map<int, int>, day: int): int {
    if day in m then m[day] else 0
  }

  ghost predicate Ascending(s: seq<Record>) {
    forall i, j :: 0 <= i < j < |s| ==> s[i].day < s[j].day
  }

  /** Exactly the entries of `m` whose days lie in `days`. */
  ghost predicate Lists(m: map<int, int>, days: set<int>, s: seq<Record>) {
    && (forall r :: r in s ==> r.day in days && r.day in m && r.value == m[r.day])
    && (forall d :: d in days ==> exists i :: 0 <= i < |s| && s[i].day == d)
  }

  /** Puts a record where a sort by date puts it. */
  method InsertByDay(s: seq<Record>, r: Record) returns (t: seq<Record>)
    requires Ascending(s)
    requires forall i :: 0 <= i < |s| ==> s[i].day != r.day
    ensures Ascending(t)
    ensures exists k :: 0 <= k <= |s| && t == s[..k] + [r] + s[k..]
  {
    var k := 0;
    while k < |s| && s[k].day < r.day
      invariant 0 <= k <= |s|
      invariant forall i :: 0 <= i < k ==> s[i].day < r.day
    {
      k := k + 1;
    }
    assert forall i :: k <= i < |s| ==> r.day < s[i].day;
    t := s[..k] + [r] + s[k..];
  }

  lemma ListsInsert(m: map<int, int>, days: set<int>, s: seq<Record>, d: int, t: seq<Record>, k: nat)
    requires Lists(m, days, s)
    requires d in m
    requires k <= |s| && t == s[..k] + [Record(d, m[d])] + s[k..]
    ensures Lists(m, days + {d}, t)
  {
    forall r | r in t
      ensures r in s || r == Record(d, m[d])
    {
    }
    assert t[k].day == d;
    forall e | e in days
      ensures exists i :: 0 <= i < |t| && t[i].day == e
    {
      var i :| 0 <= i < |s| && s[i].day == e;
      assert t[if i < k then i else i + 1] == s[i];
    }
  }

  /** The entries of the map, taken in any order, sorted by date. */
  method SortedRecords(m: map<int, int>) returns (records: seq<Record>)
    ensures Ascending(records)
    ensures Lists(m, m.Keys, records)
  {
    records := [];
    var todo := m.Keys;
    while exists d :: d in todo
      invariant todo <= m.Keys
      invariant Ascending(records)
      invariant Lists(m, m.Keys - todo, records)
      decreases todo
    {
      var d :| d in todo;
      assert forall i :: 0 <= i < |records| ==> records[i] in records;
      ghost var before := records;
      records := InsertByDay(records, Record(d, m[d]));
      ghost var k :| 0 <= k <= |before| && records == before[..k] + [Record(d, m[d])] + before[k..];
      ListsInsert(m, m.Keys - todo, before, d, records, k);
      assert m.Keys - (todo - {d}) == m.Keys - todo + {d};
      todo := todo - {d};
    }
    assert m.Keys - todo == m.Keys;
  }

  /** One record per day, without a gap, each with the map's value or zero. */
  ghost predicate Filled(m: map<int, int>, s: seq<Record>) {
    forall i :: 0 <= i < |s| ==> s[i] == Record(s[0].day + i, ValueAt(m, s[0].day + i))
  }

  /** Each row is one day after the row before it. */
  ghost predicate DayByDay(s: seq<Record>) {
    forall i :: 0 <= i < |s| - 1 ==> s[i + 1].day == s[i].day + 1
  }

  /** What the map has for its day, else zero. */
  ghost predicate RowOf(m: map<int, int>, r: Record) {
    (r.day in m ==> r.value == m[r.day]) && (r.day !in m ==> r.value == 0)
  }

  lemma {:induction false} DayByDayAt(s: seq<Record>, i: nat)
    requires DayByDay(s) && i < |s|
    ensures s[i].day == s[0].day + i
    decreases i
  {
    if i > 0 {
      DayByDayAt(s, i - 1);
      assert s[i - 1 + 1].day == s[i - 1].day + 1;
    }
  }

  /** That is what a filled table is, row by row. */
  lemma FilledExactly(m: map<int, int>, s: seq<Record>)
    ensures Filled(m, s) <==> DayByDay(s) && forall r :: r in s ==> RowOf(m, r)
  {
    if DayByDay(s) && forall r :: r in s ==> RowOf(m, r) {
      forall i | 0 <= i < |s|
        ensures s[i] == Record(s[0].day + i, ValueAt(m, s[0].day + i))
      {
        DayByDayAt(s, i);
        assert s[i] in s && RowOf(m, s[i]);
      }
    }
  }

  /** No day of the map lies strictly between two neighbours of the sorted list. */
  lemma NothingBetween(m: map<int, int>, sorted: seq<Record>, k: nat, day: int)
    requires Ascending(sorted) && Lists(m, m.Keys, sorted)
    requires 0 < k < |sorted| && sorted[k - 1].day < day < sorted[k].day
    ensures day !in m
  {
  }

  /** The rows so far: filled up to the last one, followed by the part of the sorted list still ahead. */
  ghost predicate FilledUpTo(m: map<int, int>, sorted: seq<Record>, k: nat, records: seq<Record>, index: nat, last: int)
    requires k <= |sorted| && sorted != []
  {
    && index <= |records|
    && records[index..] == sorted[k..]
    && Filled(m, records[..index])
    && index > 0 && records[0] == sorted[0] && records[index - 1].day == last
  }

  /** A zero row for a day the map does not have keeps the rows filled. */
  lemma FillOne(m: map<int, int>, sorted: seq<Record>, k: nat, records: seq<Record>, index: nat, day: int)
    requires k <= |sorted| && sorted != []
    requires FilledUpTo(m, sorted, k, records, index, day - 1)
    requires day !in m
    ensures FilledUpTo(m, sorted, k, records[..index] + [Record(day, 0)] + records[index..], index + 1, day)
  {
  }

  /** So does moving past the next row of the sorted list. */
  lemma PassOne(m: map<int, int>, sorted: seq<Record>, k: nat, records: seq<Record>, index: nat)
    requires k < |sorted| && Lists(m, m.Keys, sorted)
    requires FilledUpTo(m, sorted, k, records, index, sorted[k].day - 1)
    ensures index < |records| && records[index] == sorted[k]
    ensures FilledUpTo(m, sorted, k + 1, records, index + 1, sorted[k].day)
  {
  }

  /** Where the iteration stands before the `k`th row of the sorted list; the first row is its own predecessor. */
  ghost predicate Before(m: map<int, int>, sorted: seq<Record>, k: nat, records: seq<Record>, index: nat, prev: Record)
    requires k <= |sorted| && sorted != []
  {
    if k == 0 then records == sorted && index == 0 && prev == sorted[0]
    else prev == sorted[k - 1] && FilledUpTo(m, sorted, k, records, index, prev.day)
  }

  /** Inserts a row for every day before `record`, ahead of the position the iteration is at. */
  method FillGap(ghost m: map<int, int>, ghost sorted: seq<Record>, ghost k: nat, records0: seq<Record>, index0: nat,
                 prev: Record, record: Record)
    returns (records: seq<Record>, index: nat)
    requires Ascending(sorted) && Lists(m, m.Keys, sorted)
    requires k < |sorted| && record == sorted[k]
    requires Before(m, sorted, k, records0, index0, prev)
    ensures k == 0 ==> records == sorted && index == 0
    ensures k > 0 ==> FilledUpTo(m, sorted, k, records, index, record.day - 1)
  {
    records, index := records0, index0;
    var gapDate := prev.day + 1;
    while record.day - gapDate >= 1
      invariant k == 0 ==> records == sorted && index == 0 && gapDate > record.day
      invariant k > 0 ==> prev.day < gapDate <= record.day && FilledUpTo(m, sorted, k, records, index, gapDate - 1)
      decreases record.day - gapDate
    {
      NothingBetween(m, sorted, k, gapDate);
      FillOne(m, sorted, k, records, index, gapDate);
      records := records[..index] + [Record(gapDate, 0)] + records[index..];
      index := index + 1;
      gapDate := gapDate + 1;
    }
  }

  lemma PassFirst(m: map<int, int>, sorted: seq<Record>)
    requires sorted != [] && Lists(m, m.Keys, sorted)
    ensures FilledUpTo(m, sorted, 1, sorted, 1, sorted[0].day)
  {
  }

  lemma NextRow(m: map<int, int>, sorted: seq<Record>, k: nat, records: seq<Record>, index: nat, prev: Record)
    requires k <= |sorted| && sorted != []
    requires Before(m, sorted, k, records, index, prev)
    ensures index < |records| <==> k < |sorted|
    ensures k < |sorted| ==> records[index] == sorted[k]
    ensures k == |sorted| ==> && index == |records| && Filled(m, records)
                              && records[0] == sorted[0] && records[|records| - 1].day == sorted[|sorted| - 1].day
  {
  }

  /** Every day of the map lies between the first and the last row of its sorted list. */
  lemma SortedBounds(m: map<int, int>, sorted: seq<Record>)
    requires Ascending(sorted) && Lists(m, m.Keys, sorted)
    ensures (forall d :: d !in m) <==> sorted == []
    ensures sorted != [] ==>
              && sorted[0].day in m && sorted[|sorted| - 1].day in m
              && forall d :: d in m ==> sorted[0].day <= d <= sorted[|sorted| - 1].day
  {
  }

  method MapToRecords(m: map<int, int>) returns (records: seq<Record>)
    ensures (forall d :: d !in m) <==> records == []
    ensures records != [] ==>
              && records[0].day in m && records[|records| - 1].day in m
              && forall d :: d in m ==> records[0].day <= d <= records[|records| - 1].day
    ensures Filled(m, records)
  {
    records := SortedRecords(m);
    ghost var sorted := records;
    SortedBounds(m, sorted);
    if |records| <= 1 {
      if records != [] {
        PassFirst(m, sorted);
      }
      return;
    }
    var prev := records[0];
    var index := 0;
    ghost var k := 0;
    NextRow(m, sorted, k, records, index, prev);
    while index < |records|
      invariant 0 <= k <= |sorted| && 0 <= index
      invariant Before(m, sorted, k, records, index, prev)
      invariant index < |records| <==> k < |sorted|
      decreases |sorted| - k
    {
      NextRow(m, sorted, k, records, index, prev);
      var record := records[index];
      records, index := FillGap(m, sorted, k, records, index, prev, record);
      if k == 0 {
        PassFirst(m, sorted);
      } else {
        PassOne(m, sorted, k, records, index);
      }
      prev := record;
      index := index + 1;
      k := k + 1;
      NextRow(m, sorted, k, records, index, prev);
    }
    NextRow(m, sorted, k, records, index, prev);
  }
}
