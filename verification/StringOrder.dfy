/** The order of strings that sort.Strings sorts by, and the sorted list of a set of strings. */
module StringOrder {

  predicate Less(a: string, b: string) {
    if a == "" || b == "" then b != ""
    else if a[0] != b[0] then a[0] < b[0]
    else Less(a[1..], b[1..])
  }

  /** The strings agree before position `i`, and there `a` has the smaller character. */
  ghost predicate SmallerAt(a: string, b: string, i: nat) {
    i < |a| && i < |b| && a[..i] == b[..i] && a[i] < b[i]
  }

  lemma SmallerAtShift(a: string, b: string, i: nat)
    requires a != "" && b != "" && a[0] == b[0]
    ensures SmallerAt(a, b, i + 1) <==> SmallerAt(a[1..], b[1..], i)
  {
    if i < |a[1..]| && i < |b[1..]| {
      assert a[..i + 1] == [a[0]] + a[1..][..i] && b[..i + 1] == [b[0]] + b[1..][..i];
      assert a[..i + 1][1..] == a[1..][..i] && b[..i + 1][1..] == b[1..][..i];
    }
  }

  lemma FirstDiffers(a: string, b: string)
    requires a != "" && b != "" && a[0] != b[0]
    ensures (exists i: nat :: SmallerAt(a, b, i)) <==> a[0] < b[0]
    ensures !(|a| < |b| && a == b[..|a|])
  {
    assert a[0] < b[0] ==> SmallerAt(a, b, 0);
    forall i: nat | i < |a| && i < |b| && i > 0
      ensures !SmallerAt(a, b, i)
    {
      assert a[..i][0] != b[..i][0];
    }
  }

  /** The order of a dictionary: a proper prefix comes first, else the first difference decides. */
  lemma {:induction false} LessExactly(a: string, b: string)
    ensures Less(a, b) <==> (|a| < |b| && a == b[..|a|]) || exists i: nat :: SmallerAt(a, b, i)
    decreases |a|
  {
    if a == "" || b == "" {
    } else if a[0] != b[0] {
      FirstDiffers(a, b);
    } else {
      LessExactly(a[1..], b[1..]);
      if i: nat :| SmallerAt(a[1..], b[1..], i) {
        SmallerAtShift(a, b, i);
      }
      if i: nat :| SmallerAt(a, b, i) {
        SmallerAtShift(a, b, i - 1);
      }
      PrefixShift(a, b);
    }
  }

  lemma PrefixShift(a: string, b: string)
    requires a != "" && b != "" && a[0] == b[0]
    ensures |a| < |b| && a == b[..|a|] <==> |a[1..]| < |b[1..]| && a[1..] == b[1..][..|a[1..]|]
  {
    if |a| < |b| {
      assert a == [a[0]] + a[1..] && b[..|a|] == [b[0]] + b[1..][..|a| - 1];
      assert b[..|a|][1..] == b[1..][..|a| - 1];
    }
  }

  lemma {:induction false} LessIsTotal(a: string, b: string)
    ensures a == b || Less(a, b) || Less(b, a)
    ensures !(Less(a, b) && Less(b, a))
    decreases |a|
  {
    if a == "" || b == "" {
    } else {
      LessIsTotal(a[1..], b[1..]);
      assert a == [a[0]] + a[1..] && b == [b[0]] + b[1..];
    }
  }

  lemma {:induction false} LessIsTransitive(a: string, b: string, c: string)
    requires Less(a, b) && Less(b, c)
    ensures Less(a, c)
    decreases |a|
  {
    if a != "" && b != "" && c != "" && a[0] == b[0] == c[0] {
      LessIsTransitive(a[1..], b[1..], c[1..]);
    }
  }

  /** In ascending order, and so without repetitions. */
  ghost predicate Sorted(s: seq<string>) {
    forall i, j :: 0 <= i < j < |s| ==> Less(s[i], s[j])
  }

  method Insert(s: seq<string>, x: string) returns (t: seq<string>)
    requires Sorted(s) && x !in s
    ensures Sorted(t)
    ensures forall y :: y in t <==> y in s || y == x
  {
    var k := 0;
    while k < |s| && Less(s[k], x)
      invariant k <= |s|
      invariant forall i :: 0 <= i < k ==> Less(s[i], x)
    {
      k := k + 1;
    }
    forall i | k <= i < |s|
      ensures Less(x, s[i])
    {
      LessIsTotal(s[k], x);
      if k < i {
        LessIsTransitive(x, s[k], s[i]);
      }
    }
    t := s[..k] + [x] + s[k..];
    SortedAround(s, k, x);
  }

  lemma SortedAround(s: seq<string>, k: nat, x: string)
    requires k <= |s| && Sorted(s)
    requires forall i :: 0 <= i < k ==> Less(s[i], x)
    requires forall i :: k <= i < |s| ==> Less(x, s[i])
    ensures Sorted(s[..k] + [x] + s[k..])
    ensures forall y :: y in s[..k] + [x] + s[k..] <==> y in s || y == x
  {
    assert s == s[..k] + s[k..];
  }

  /** The elements of a set, taken in any order, as a sorted list. */
  method SortedList(keys: set<string>) returns (s: seq<string>)
    ensures Sorted(s)
    ensures forall x :: x in s <==> x in keys
  {
    s := [];
    var todo := keys;
    while todo != {}
      invariant todo <= keys && Sorted(s)
      invariant forall x :: x in s <==> x in keys - todo
      decreases todo
    {
      var x :| x in todo;
      s := Insert(s, x);
      todo := todo - {x};
    }
  }

  lemma EmptyTogether(s: seq<string>, t: seq<string>)
    requires forall x :: x in s <==> x in t
    ensures s == [] <==> t == []
  {
    if s != [] {
      assert s[0] in t;
    }
    if t != [] {
      assert t[0] in s;
    }
  }

  /** So the list does not depend on the order in which the elements were taken. */
  lemma {:induction false} SortedListIsUnique(s: seq<string>, t: seq<string>)
    requires Sorted(s) && Sorted(t)
    requires forall x :: x in s <==> x in t
    ensures s == t
    decreases |s|
  {
    EmptyTogether(s, t);
    if s != [] {
      SameFirst(s, t);
      SortedTail(s);
      SortedTail(t);
      SortedListIsUnique(s[1..], t[1..]);
    }
  }

  lemma SameFirst(s: seq<string>, t: seq<string>)
    requires Sorted(s) && Sorted(t) && s != [] && t != []
    requires forall x :: x in s <==> x in t
    ensures s[0] == t[0]
  {
    assert s[0] in t && t[0] in s;
    var i :| 0 <= i < |t| && t[i] == s[0];
    var j :| 0 <= j < |s| && s[j] == t[0];
    LessIsTotal(s[0], t[0]);
  }

  /** The tail of a sorted list holds everything but its first element. */
  lemma SortedTail(s: seq<string>)
    requires Sorted(s) && s != []
    ensures Sorted(s[1..])
    ensures forall x :: x in s[1..] <==> x in s && x != s[0]
  {
    assert s == [s[0]] + s[1..];
    forall x | x in s[1..]
      ensures x != s[0]
    {
      var i :| 0 <= i < |s[1..]| && s[1..][i] == x;
      assert Less(s[0], s[i + 1]);
      LessIsTotal(s[0], x);
    }
  }
}
