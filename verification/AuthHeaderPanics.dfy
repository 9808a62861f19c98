/** When the header parser panics. */
module AuthHeaderPanics {
  import opened AuthHeader
  import opened AuthHeaderList
  import opened AuthHeaderRoundTrip

  ghost function FoldedKeys(fold: Fold, pairs: seq<string>): (keys: seq<string>)
    ensures |keys| == |pairs| && forall i :: 0 <= i < |keys| ==> keys[i] == KeyOf(fold, pairs[i])
  {
    seq(|pairs|, i requires 0 <= i < |pairs| => KeyOf(fold, pairs[i]))
  }

  ghost predicate NoRepeats(keys: seq<string>) {
    forall i, j :: 0 <= i < j < |keys| ==> keys[i] != keys[j]
  }

  /** The first `n` pairs are read without a complaint. */
  ghost predicate ReadUpTo(fold: Fold, pairs: seq<string>, n: nat)
    requires n <= |pairs|
  {
    && (forall i :: 0 <= i < n ==> HasValue(pairs[i]) && !LoneQuote(RawValue(pairs[i])))
    && NoRepeats(FoldedKeys(fold, pairs)[..n])
  }

  /** A pair whose value is a single quotation mark is reached. */
  ghost predicate ReachesLoneQuote(fold: Fold, pairs: seq<string>) {
    exists n :: 0 <= n < |pairs| && ReadUpTo(fold, pairs, n) && HasValue(pairs[n]) && LoneQuote(RawValue(pairs[n]))
  }

  /** The keys seen so far are those of the pairs read. */
  ghost predicate Seen(keys: seq<string>, params: ParamMap) {
    forall k :: k in params <==> k in keys
  }

  lemma SeenOneMore(keys: seq<string>, key: string, params: ParamMap, v: string)
    requires Seen(keys, params)
    ensures Seen(keys + [key], params[key := v])
    ensures NoRepeats(keys) ==> (NoRepeats(keys + [key]) <==> key !in params)
  {
    if key in keys {
      var i :| 0 <= i < |keys| && keys[i] == key;
      assert (keys + [key])[i] == (keys + [key])[|keys|];
    }
  }

  lemma NoRepeatsBefore(keys: seq<string>, n: nat, m: nat)
    requires n <= m <= |keys| && NoRepeats(keys[..m])
    ensures NoRepeats(keys[..n])
  {
    assert keys[..m][..n] == keys[..n];
  }

  lemma NotReadFurther(fold: Fold, pairs: seq<string>, n: nat)
    requires n <= |pairs| && !ReadUpTo(fold, pairs, n)
    ensures forall m :: n <= m <= |pairs| ==> !ReadUpTo(fold, pairs, m)
  {
    forall m | n <= m <= |pairs|
      ensures !ReadUpTo(fold, pairs, m)
    {
      if ReadUpTo(fold, pairs, m) {
        NoRepeatsBefore(FoldedKeys(fold, pairs), n, m);
      }
    }
  }

  lemma ReadNext(fold: Fold, pairs: seq<string>, n: nat, params: ParamMap, v: string)
    requires n < |pairs| && ReadUpTo(fold, pairs, n) && Seen(FoldedKeys(fold, pairs)[..n], params)
    requires HasValue(pairs[n]) && !LoneQuote(RawValue(pairs[n]))
    ensures ReadUpTo(fold, pairs, n + 1) <==> KeyOf(fold, pairs[n]) !in params
    ensures Seen(FoldedKeys(fold, pairs)[..n + 1], params[KeyOf(fold, pairs[n]) := v])
  {
    var keys := FoldedKeys(fold, pairs);
    assert keys[..n + 1] == keys[..n] + [keys[n]];
    SeenOneMore(keys[..n], keys[n], params, v);
  }

  lemma {:induction false} CollectPanicsExactlyWhen(fold: Fold, pairs: seq<string>, n: nat, params: ParamMap)
    requires n <= |pairs| && ReadUpTo(fold, pairs, n) && Seen(FoldedKeys(fold, pairs)[..n], params)
    ensures Collect(fold, pairs[n..], params) == Panicked <==> ReachesLoneQuote(fold, pairs)
    decreases |pairs| - n
  {
    if n < |pairs| {
      var pair := pairs[n];
      CollectNext(fold, pairs, n, params);
      if HasValue(pair) && LoneQuote(RawValue(pair)) {
        assert ReachesLoneQuote(fold, pairs);
      } else if HasValue(pair) && KeyOf(fold, pair) !in params {
        var v := Unquoted(RawValue(pair));
        ReadNext(fold, pairs, n, params, v);
        CollectPanicsExactlyWhen(fold, pairs, n + 1, params[KeyOf(fold, pair) := v]);
      } else {
        if HasValue(pair) {
          ReadNext(fold, pairs, n, params, "");
        }
        NotReadFurther(fold, pairs, n + 1);
      }
    }
  }

  /** The parser panics exactly if, before any complaint, it reaches a pair whose value is a lone quotation mark. */
  lemma PanicsExactlyWhen(fold: Fold, value: string)
    ensures AuthParams(fold, value) == Panicked <==> ReachesLoneQuote(fold, HeaderList(Trim(value)))
  {
    var pairs := HeaderList(Trim(value));
    assert pairs[0..] == pairs;
    CollectPanicsExactlyWhen(fold, pairs, 0, map[]);
  }

  /** An open quotation mark is enough, and so is a closed one that began in the key. */
  lemma PanicExamples(fold: Fold)
    ensures AuthParams(fold, "k" + "=" + "\"") == Panicked
    ensures AuthParams(fold, "a\"" + "=" + "\"") == Panicked
  {
    ScanOne(START, 'k');
    LoneQuoteValue(fold, "k", Scan([], "k", false, false));
    QuoteInKeyScans();
    LoneQuoteValue(fold, "a\"", Scan([], "a\"", false, true));
  }

  lemma QuoteInKeyScans()
    ensures ScanFrom(START, "a\"") == Scan([], "a\"", false, true)
  {
    assert "a\"" == "a" + "\"";
    ScanConcat(START, "a", "\"");
    ScanOne(START, 'a');
    ScanOne(START.(buffer := "a"), '"');
  }

  lemma LoneQuoteScans(key: string, s: Scan)
    requires ScanFrom(START, key) == s && s == Scan([], key, false, s.quote)
    ensures ScanFrom(START, key + "=" + "\"").list == []
    ensures ScanFrom(START, key + "=" + "\"").buffer == key + "=" + "\""
  {
    ScanConcat(START, key + "=", "\"");
    ScanConcat(START, key, "=");
    ScanOne(s, '=');
    ScanOne(s.(buffer := key + "="), '"');
  }

  lemma LoneQuoteValue(fold: Fold, key: string, s: Scan)
    requires Tight(key) && key != "" && '=' !in key
    requires ScanFrom(START, key) == s && s == Scan([], key, false, s.quote)
    ensures AuthParams(fold, key + "=" + "\"") == Panicked
  {
    var v := key + "=" + "\"";
    LoneQuoteScans(key, s);
    assert Tight(v) by {
      assert v[0] == key[0] && v[|v| - 1] == '"';
    }
    assert "" + v == v;
    TrimNothing("", v);
    SingleItem(v, v);
    CollectOne(fold, v);
    PairParses(fold, key, "\"");
  }
}
