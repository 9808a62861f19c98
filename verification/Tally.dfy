/** Counters kept per day: a Go map to which amounts are added, and what such a map holds. */
module Tally {

  datatype Addition = Addition(day: int, amount: int)

  type Counters = map<int, int>

  /** `m[day] += amount`, where a missing key counts as zero. */
  function Add(m: Counters, a: Addition): Counters {
    m[a.day := (if a.day in m then m[a.day] else 0) + a.amount]
  }

  ghost function Of(adds: seq<Addition>): Counters {
    if adds == [] then map[] else Add(Of(adds[..|adds| - 1]), adds[|adds| - 1])
  }

  ghost function Amount(adds: seq<Addition>): int {
    if adds == [] then 0 else Amount(adds[..|adds| - 1]) + adds[|adds| - 1].amount
  }

  ghost function OnDay(adds: seq<Addition>, day: int): seq<Addition> {
    if adds == [] then []
    else OnDay(adds[..|adds| - 1], day) + if adds[|adds| - 1].day == day then [adds[|adds| - 1]] else []
  }

  /** The map has a key for exactly the days added to, and under it all that was added that day. */
  lemma {:induction false} HoldsDayAmounts(adds: seq<Addition>, day: int)
    ensures day in Of(adds) <==> OnDay(adds, day) != []
    ensures day in Of(adds) ==> Of(adds)[day] == Amount(OnDay(adds, day))
    decreases |adds|
  {
    if adds != [] {
      HoldsDayAmounts(adds[..|adds| - 1], day);
      var before, a := OnDay(adds[..|adds| - 1], day), adds[|adds| - 1];
      assert before + [] == before;
      assert (before + [a])[..|before|] == before;
      assert Amount(before + [a]) == Amount(before) + a.amount;
    }
  }

  /** The counters of `days` summed, a missing one counting as zero. */
  ghost function Total(m: Counters, days: seq<int>): int {
    if days == [] then 0
    else
      var day := days[|days| - 1];
      Total(m, days[..|days| - 1]) + if day in m then m[day] else 0
  }

  ghost predicate Distinct(days: seq<int>) {
    forall i, j :: 0 <= i < j < |days| ==> days[i] != days[j]
  }

  lemma {:induction false} AddMovesTotal(m: Counters, a: Addition, days: seq<int>)
    requires Distinct(days)
    ensures Total(Add(m, a), days) == Total(m, days) + if a.day in days then a.amount else 0
    decreases |days|
  {
    if days != [] {
      var front, day := days[..|days| - 1], days[|days| - 1];
      AddMovesTotal(m, a, front);
      assert days == front + [day];
      assert day == a.day ==> a.day !in front;
    }
  }

  lemma {:induction false} EmptyTotal(days: seq<int>)
    ensures Total(map[], days) == 0
    decreases |days|
  {
    if days != [] {
      EmptyTotal(days[..|days| - 1]);
    }
  }

  /** Nothing added is lost: over any list that names each day once, the counters sum to what was added. */
  lemma {:induction false} TotalIsAmount(adds: seq<Addition>, days: seq<int>)
    requires Distinct(days)
    requires forall a :: a in adds ==> a.day in days
    ensures Total(Of(adds), days) == Amount(adds)
    decreases |adds|
  {
    if adds == [] {
      EmptyTotal(days);
    } else {
      TotalIsAmount(adds[..|adds| - 1], days);
      AddMovesTotal(Of(adds[..|adds| - 1]), adds[|adds| - 1], days);
    }
  }

  lemma OfAppend(adds: seq<Addition>, a: Addition)
    ensures Of(adds + [a]) == Add(Of(adds), a)
  {
  }
}
