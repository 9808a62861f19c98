/**
 What the header parser makes of every list of parameters that its grammar lets one write and of
 every token68, and exactly which lists come back as they were meant.
 */
module AuthHeaderRoundTrip {
  import opened AuthHeader
  import opened AuthHeaderList

  // ----- Collecting undoes writing -----

  datatype Pair = Pair(key: string, text: string)

  /** What a parameter is meant to say. */
  ghost function Meaning(p: Param): Pair {
    Pair(p.key, Meant(p.value))
  }

  /**
   What the parser takes it to say: white space at the equals sign goes to the key and to the
   value, whose quotes then stay on.
   */
  ghost function Reading(p: Param): Pair {
    Pair(Label(p), if p.w2 == "" then Meant(p.value) else p.w2 + ValueScanned(p.value))
  }

  ghost function Meanings(ps: seq<Param>): (r: seq<Pair>)
    ensures |r| == |ps|
    ensures forall i :: 0 <= i < |ps| ==> r[i] == Meaning(ps[i])
  {
    seq(|ps|, i requires 0 <= i < |ps| => Meaning(ps[i]))
  }

  ghost function Readings(ps: seq<Param>): (r: seq<Pair>)
    ensures |r| == |ps|
    ensures forall i :: 0 <= i < |ps| ==> r[i] == Reading(ps[i])
  {
    seq(|ps|, i requires 0 <= i < |ps| => Reading(ps[i]))
  }

  ghost function Folded(fold: Fold, pair: Pair): string {
    Lower(fold, pair.key)
  }

  ghost predicate DistinctKeys(fold: Fold, pairs: seq<Pair>) {
    forall i, j :: 0 <= i < j < |pairs| ==> Folded(fold, pairs[i]) != Folded(fold, pairs[j])
  }

  /** The pairs as a map, keys folded to lower case. */
  ghost function MapOf(fold: Fold, pairs: seq<Pair>): ParamMap {
    if pairs == [] then map[]
    else MapOf(fold, pairs[..|pairs| - 1])[Folded(fold, pairs[|pairs| - 1]) := pairs[|pairs| - 1].text]
  }

  lemma {:induction false} MapOfKeys(fold: Fold, pairs: seq<Pair>, k: string)
    ensures k in MapOf(fold, pairs) <==> exists i :: 0 <= i < |pairs| && Folded(fold, pairs[i]) == k
    decreases |pairs|
  {
    if pairs != [] {
      var front := pairs[..|pairs| - 1];
      MapOfKeys(fold, front, k);
      if i :| 0 <= i < |front| && Folded(fold, front[i]) == k {
        assert Folded(fold, pairs[i]) == k;
      }
      if i :| 0 <= i < |pairs| && Folded(fold, pairs[i]) == k {
        assert i < |front| ==> Folded(fold, front[i]) == k;
      }
    }
  }

  /** With distinct keys the map has each pair's own text under its key. */
  lemma {:induction false} MapOfHolds(fold: Fold, pairs: seq<Pair>, i: nat)
    requires DistinctKeys(fold, pairs) && i < |pairs|
    ensures Folded(fold, pairs[i]) in MapOf(fold, pairs) && MapOf(fold, pairs)[Folded(fold, pairs[i])] == pairs[i].text
    decreases |pairs|
  {
    var front := pairs[..|pairs| - 1];
    if i < |front| {
      MapOfHolds(fold, front, i);
      assert front[i] == pairs[i];
    }
  }

  /** A key without an equals sign is split off at the first one. */
  lemma PairParses(fold: Fold, key: string, v: string)
    requires '=' !in key && v != [] && v[|v| - 1] != '='
    ensures HasValue(key + "=" + v)
    ensures KeyOf(fold, key + "=" + v) == Lower(fold, key)
    ensures RawValue(key + "=" + v) == v
  {
    var s := key + "=" + v;
    assert s[|key|] == '=';
    assert forall j :: 0 <= j < |key| ==> s[j] == key[j] && key[j] in key;
    assert IndexOf(s, '=') == |key|;
    assert s[..|key|] == key && s[|key| + 1..] == v;
  }

  lemma SpacedValue(p: Param)
    requires ValidParam(p)
    ensures var v := p.w2 + ValueScanned(p.value);
            v != [] && v[|v| - 1] != '=' && !LoneQuote(v) && Unquoted(v) == Reading(p).text
  {
    ValueScannedEnds(p.value);
    if p.w2 == "" {
      assert p.w2 + ValueScanned(p.value) == ValueScanned(p.value);
    } else {
      assert p.w2[0] in p.w2;
    }
  }

  lemma ItemParses(fold: Fold, p: Param)
    requires ValidParam(p)
    ensures HasValue(Item(p)) && !LoneQuote(RawValue(Item(p)))
    ensures KeyOf(fold, Item(p)) == Folded(fold, Reading(p))
    ensures Unquoted(RawValue(Item(p))) == Reading(p).text
  {
    LabelIsPlain(p);
    SpacedValue(p);
    PairParses(fold, Label(p), p.w2 + ValueScanned(p.value));
  }

  lemma DistinctSnoc(fold: Fold, front: seq<Pair>, last: Pair)
    requires DistinctKeys(fold, front)
    ensures DistinctKeys(fold, front + [last]) <==> Folded(fold, last) !in MapOf(fold, front)
  {
    var pairs := front + [last];
    MapOfKeys(fold, front, Folded(fold, last));
    if DistinctKeys(fold, pairs) {
      forall i | 0 <= i < |front|
        ensures Folded(fold, front[i]) != Folded(fold, last)
      {
        assert Folded(fold, pairs[i]) != Folded(fold, pairs[|front|]);
      }
    }
  }

  lemma MapOfSnoc(fold: Fold, front: seq<Pair>, last: Pair)
    ensures MapOf(fold, front + [last]) == MapOf(fold, front)[Folded(fold, last) := last.text]
  {
    assert (front + [last])[..|front|] == front;
  }

  lemma RepeatedKeyStays(fold: Fold, pairs: seq<Pair>, n: nat)
    requires n <= |pairs| && !DistinctKeys(fold, pairs[..n])
    ensures !DistinctKeys(fold, pairs)
  {
    var i, j :| 0 <= i < j < n && Folded(fold, pairs[..n][i]) == Folded(fold, pairs[..n][j]);
    assert Folded(fold, pairs[i]) == Folded(fold, pairs[j]);
  }

  /** The parameters before the first null element. */
  ghost function Leading(es: seq<Element>): (ps: seq<Param>)
    ensures |ps| <= |es|
    ensures forall i :: 0 <= i < |ps| ==> es[i] == Of(ps[i])
    ensures |ps| < |es| ==> es[|ps|].Null?
  {
    if es == [] || es[0].Null? then [] else [es[0].param] + Leading(es[1..])
  }

  /** What the collector makes of a list of elements. */
  ghost function Outcome(fold: Fold, es: seq<Element>): ParamsResult {
    var pairs := Readings(Leading(es));
    if !DistinctKeys(fold, pairs) then DuplicateKey
    else if |pairs| < |es| then NoEquals
    else Params(MapOf(fold, pairs))
  }

  lemma CollectItem(fold: Fold, es: seq<Element>, n: nat, params: ParamMap)
    requires ValidElements(es) && n < |Leading(es)|
    ensures var pair := Readings(Leading(es))[n];
            Collect(fold, Entries(es)[n..], params) ==
            if Folded(fold, pair) in params then DuplicateKey
            else Collect(fold, Entries(es)[n + 1..], params[Folded(fold, pair) := pair.text])
  {
    assert es[n] in es;
    ItemParses(fold, Leading(es)[n]);
    CollectNext(fold, Entries(es), n, params);
  }

  lemma OnePairMore(fold: Fold, pairs: seq<Pair>, n: nat)
    requires n < |pairs| && DistinctKeys(fold, pairs[..n])
    ensures DistinctKeys(fold, pairs[..n + 1]) <==> Folded(fold, pairs[n]) !in MapOf(fold, pairs[..n])
    ensures MapOf(fold, pairs[..n + 1]) == MapOf(fold, pairs[..n])[Folded(fold, pairs[n]) := pairs[n].text]
  {
    assert pairs[..n + 1] == pairs[..n] + [pairs[n]];
    DistinctSnoc(fold, pairs[..n], pairs[n]);
    MapOfSnoc(fold, pairs[..n], pairs[n]);
  }

  /** After the parameters before the first null element, the collector stops at that element or at the end. */
  lemma CollectEnd(fold: Fold, es: seq<Element>, params: ParamMap)
    ensures Collect(fold, Entries(es)[|Leading(es)|..], params) == if |Leading(es)| < |es| then NoEquals else Params(params)
  {
    if |Leading(es)| < |es| {
      CollectNext(fold, Entries(es), |Leading(es)|, params);
    }
  }

  lemma {:induction false} CollectElements(fold: Fold, es: seq<Element>, n: nat)
    requires ValidElements(es) && n <= |Leading(es)| && DistinctKeys(fold, Readings(Leading(es))[..n])
    ensures Collect(fold, Entries(es)[n..], MapOf(fold, Readings(Leading(es))[..n])) == Outcome(fold, es)
    decreases |es| - n
  {
    var pairs := Readings(Leading(es));
    if n == |pairs| {
      assert pairs[..n] == pairs;
      CollectEnd(fold, es, MapOf(fold, pairs));
    } else {
      CollectItem(fold, es, n, MapOf(fold, pairs[..n]));
      OnePairMore(fold, pairs, n);
      if DistinctKeys(fold, pairs[..n + 1]) {
        CollectElements(fold, es, n + 1);
      } else {
        RepeatedKeyStays(fold, pairs, n + 1);
      }
    }
  }

  /** No null element, but perhaps one at the end. */
  ghost predicate OnlyLastIsNull(es: seq<Element>) {
    forall i :: 0 <= i < |es| - 1 ==> es[i].Of?
  }

  lemma {:induction false} LeadingWithoutLastNull(es: seq<Element>)
    ensures Leading(WithoutLastNull(es)) == Leading(es)
    ensures |Leading(es)| == |WithoutLastNull(es)| <==> OnlyLastIsNull(es)
    decreases |es|
  {
    if |es| > 1 && es[0].Of? {
      LeadingWithoutLastNull(es[1..]);
      assert WithoutLastNull(es)[1..] == WithoutLastNull(es[1..]);
      assert forall i :: 0 < i < |es| ==> es[i] == es[1..][i - 1];
    }
  }

  /**
   Parsing a printed list, whatever its values hold, however they are escaped and whatever white
   space there is. A key read twice before the first null element is the complaint. If not, a null
   element that is not the last hides all parameters, and without one they are all read.
   */
  lemma ParamsRoundTrip(fold: Fold, es: seq<Element>)
    requires ValidElements(es)
    ensures AuthParams(fold, Print(es)) ==
            var pairs := Readings(Leading(es));
            if !DistinctKeys(fold, pairs) then DuplicateKey
            else if !OnlyLastIsNull(es) then NoEquals
            else Params(MapOf(fold, pairs))
  {
    var kept := WithoutLastNull(es);
    ListRoundTrip(es);
    LeadingWithoutLastNull(es);
    assert forall e :: e in kept ==> e in es;
    assert Readings(Leading(kept))[..0] == [] && Entries(kept)[0..] == Entries(kept);
    CollectElements(fold, kept, 0);
  }

  // ----- Which lists come back as they were meant -----

  /** The parameters of a list, without the null elements. */
  ghost function Given(es: seq<Element>): (ps: seq<Param>)
    ensures ValidElements(es) ==> forall p :: p in ps ==> ValidParam(p)
  {
    if es == [] then []
    else
      assert es[0] in es && forall e :: e in es[1..] ==> e in es;
      (if es[0].Null? then [] else [es[0].param]) + Given(es[1..])
  }

  lemma {:induction false} LeadingIsGiven(es: seq<Element>)
    requires OnlyLastIsNull(es)
    ensures Leading(es) == Given(es)
    decreases |es|
  {
    if es != [] {
      assert forall i :: 0 <= i < |es| - 2 ==> es[1..][i] == es[i + 1];
      LeadingIsGiven(es[1..]);
      if es[0].Null? {
        assert es[1..] == [];
      }
    }
  }

  /** No white space at any equals sign. */
  ghost predicate Unspaced(ps: seq<Param>) {
    forall i :: 0 <= i < |ps| ==> ps[i].w1 == "" && ps[i].w2 == ""
  }

  lemma UnspacedReadAsMeant(ps: seq<Param>)
    requires Unspaced(ps)
    ensures Readings(ps) == Meanings(ps)
  {
    forall i | 0 <= i < |ps|
      ensures Reading(ps[i]) == Meaning(ps[i])
    {
      assert ps[i].key + "" == ps[i].key;
    }
  }

  /** Of the parameters with white space before the equals sign, one with the longest label. */
  lemma {:induction false} LongestSpacedLabel(ps: seq<Param>) returns (i: nat)
    requires exists j :: 0 <= j < |ps| && ps[j].w1 != ""
    ensures i < |ps| && ps[i].w1 != ""
    ensures forall j :: 0 <= j < |ps| && ps[j].w1 != "" ==> |Label(ps[j])| <= |Label(ps[i])|
    decreases |ps|
  {
    i := |ps| - 1;
    var front := ps[..i];
    if j :| 0 <= j < |front| && front[j].w1 != "" {
      var k := LongestSpacedLabel(front);
      assert forall j :: 0 <= j < |front| ==> front[j] == ps[j];
      if ps[i].w1 == "" || |Label(ps[i])| < |Label(ps[k])| {
        i := k;
      }
    } else {
      assert forall j :: 0 <= j < |front| ==> front[j] == ps[j];
    }
  }

  lemma LongestIsNotMeant(fold: Fold, ps: seq<Param>, i: nat, j: nat)
    requires DistinctKeys(fold, Readings(ps)) && i < |ps| && j < |ps| && ps[i].w1 != ""
    requires ps[j].w1 != "" ==> |Label(ps[j])| <= |Label(ps[i])|
    ensures Folded(fold, Meanings(ps)[j]) != Folded(fold, Readings(ps)[i])
  {
    if ps[j].w1 == "" {
      assert Label(ps[j]) == ps[j].key;
      assert Folded(fold, Readings(ps)[j]) != Folded(fold, Readings(ps)[i]);
    } else {
      assert |Folded(fold, Meanings(ps)[j])| < |Label(ps[j])|;
    }
  }

  /** White space before an equals sign changes the keys, whatever the table of case folding: the longest key is new. */
  lemma SpacedKeysDiffer(fold: Fold, ps: seq<Param>)
    requires DistinctKeys(fold, Readings(ps)) && exists j :: 0 <= j < |ps| && ps[j].w1 != ""
    ensures MapOf(fold, Readings(ps)) != MapOf(fold, Meanings(ps))
  {
    var i := LongestSpacedLabel(ps);
    var k := Folded(fold, Readings(ps)[i]);
    MapOfHolds(fold, Readings(ps), i);
    MapOfKeys(fold, Meanings(ps), k);
    forall j | 0 <= j < |ps|
      ensures Folded(fold, Meanings(ps)[j]) != k
    {
      LongestIsNotMeant(fold, ps, i, j);
    }
  }

  lemma SpacedValueDiffers(fold: Fold, ps: seq<Param>, i: nat)
    requires DistinctKeys(fold, Readings(ps)) && DistinctKeys(fold, Meanings(ps))
    requires i < |ps| && ps[i].w1 == "" && ps[i].w2 != ""
    ensures MapOf(fold, Readings(ps)) != MapOf(fold, Meanings(ps))
  {
    MapOfHolds(fold, Readings(ps), i);
    MapOfHolds(fold, Meanings(ps), i);
    assert ps[i].key + "" == ps[i].key;
    assert |Readings(ps)[i].text| > |Meanings(ps)[i].text|;
  }

  lemma ReadAsMeantExactlyWhen(fold: Fold, ps: seq<Param>)
    requires DistinctKeys(fold, Meanings(ps))
    ensures DistinctKeys(fold, Readings(ps)) && MapOf(fold, Readings(ps)) == MapOf(fold, Meanings(ps)) <==> Unspaced(ps)
  {
    if Unspaced(ps) {
      UnspacedReadAsMeant(ps);
    } else if DistinctKeys(fold, Readings(ps)) {
      if j :| 0 <= j < |ps| && ps[j].w1 != "" {
        SpacedKeysDiffer(fold, ps);
      } else {
        var i :| 0 <= i < |ps| && (ps[i].w1 != "" || ps[i].w2 != "");
        SpacedValueDiffers(fold, ps, i);
      }
    }
  }

  /**
   The grammar allows null elements anywhere and white space around an equals sign. A list with
   distinct keys comes back as it was meant exactly if no element but the last is null and there
   is no white space at any equals sign.
   */
  lemma ComesBackExactlyWhen(fold: Fold, es: seq<Element>)
    requires ValidElements(es) && DistinctKeys(fold, Meanings(Given(es)))
    ensures AuthParams(fold, Print(es)) == Params(MapOf(fold, Meanings(Given(es)))) <==>
            OnlyLastIsNull(es) && Unspaced(Given(es))
  {
    ParamsRoundTrip(fold, es);
    if OnlyLastIsNull(es) {
      LeadingIsGiven(es);
      ReadAsMeantExactlyWhen(fold, Given(es));
    }
  }

  // ----- Keys are matched case-insensitively -----

  /** The same element, but for the case of letters A to Z in its key. */
  ghost predicate Recased(e: Element, e': Element) {
    e == e' || (e.Of? && e'.Of? && e'.param.(key := e.param.key) == e.param && SameIgnoringCase(e.param.key, e'.param.key))
  }

  ghost predicate AllRecased(es: seq<Element>, es': seq<Element>) {
    |es| == |es'| && forall i :: 0 <= i < |es| ==> Recased(es[i], es'[i])
  }

  /** The same keys once folded, and the same texts. */
  ghost predicate SamePairs(fold: Fold, a: seq<Pair>, b: seq<Pair>) {
    |a| == |b| && forall i :: 0 <= i < |a| ==> Folded(fold, a[i]) == Folded(fold, b[i]) && a[i].text == b[i].text
  }

  lemma {:induction false} SameMap(fold: Fold, a: seq<Pair>, b: seq<Pair>)
    requires SamePairs(fold, a, b)
    ensures MapOf(fold, a) == MapOf(fold, b) && (DistinctKeys(fold, a) <==> DistinctKeys(fold, b))
    decreases |a|
  {
    if a != [] {
      SameMap(fold, a[..|a| - 1], b[..|b| - 1]);
    }
  }

  lemma LabelsFold(fold: Fold, p: Param, q: Param)
    requires SameIgnoringCase(p.key, q.key) && p.w1 == q.w1
    ensures Folded(fold, Reading(p)) == Folded(fold, Reading(q))
  {
    assert SameIgnoringCase(Label(p), Label(q));
    FoldsExactly(fold, Label(p), Label(q));
  }

  lemma {:induction false} LeadingRecased(es: seq<Element>, es': seq<Element>)
    requires AllRecased(es, es')
    ensures |Leading(es)| == |Leading(es')|
    ensures OnlyLastIsNull(es) <==> OnlyLastIsNull(es')
    decreases |es|
  {
    if es != [] {
      assert forall i :: 0 <= i < |es| ==> Recased(es[i], es'[i]);
      assert es[0].Null? == es'[0].Null?;
      assert forall i :: 0 <= i < |es[1..]| ==> es[1..][i] == es[i + 1] && es'[1..][i] == es'[i + 1];
      LeadingRecased(es[1..], es'[1..]);
      assert forall i :: 0 <= i < |es| ==> es[i].Of? == es'[i].Of?;
    }
  }

  /** Two lists that differ only in the case of their keys parse to the same. */
  lemma CaseOfKeysIsIgnored(fold: Fold, es: seq<Element>, es': seq<Element>)
    requires ValidElements(es) && ValidElements(es') && AllRecased(es, es')
    ensures AuthParams(fold, Print(es)) == AuthParams(fold, Print(es'))
  {
    var ps, ps' := Leading(es), Leading(es');
    LeadingRecased(es, es');
    forall i | 0 <= i < |ps|
      ensures Folded(fold, Readings(ps)[i]) == Folded(fold, Readings(ps')[i]) && Readings(ps)[i].text == Readings(ps')[i].text
    {
      assert Recased(es[i], es'[i]);
      if es[i] != es'[i] {
        LabelsFold(fold, ps[i], ps'[i]);
      }
    }
    SameMap(fold, Readings(ps), Readings(ps'));
    ParamsRoundTrip(fold, es);
    ParamsRoundTrip(fold, es');
  }

  /** Two keys before the first null element that differ only in case are a duplicate. */
  lemma CaseDoesNotTellKeysApart(fold: Fold, es: seq<Element>, i: nat, j: nat)
    requires ValidElements(es) && i < j < |Leading(es)|
    requires SameIgnoringCase(Leading(es)[i].key, Leading(es)[j].key) && Leading(es)[i].w1 == Leading(es)[j].w1
    ensures AuthParams(fold, Print(es)) == DuplicateKey
  {
    var ps := Leading(es);
    LabelsFold(fold, ps[i], ps[j]);
    assert Folded(fold, Readings(ps)[i]) == Folded(fold, Readings(ps)[j]);
    ParamsRoundTrip(fold, es);
  }

  /** Any text at all can be written as a quoted string. */
  lemma {:induction false} EveryTextCanBeWritten(v: string) returns (body: seq<QuotedChar>)
    ensures ValidBody(body) && Text(body) == v
    decreases |v|
  {
    if v == [] {
      body := [];
    } else {
      var rest := EveryTextCanBeWritten(v[1..]);
      var q := if v[0] == '"' || v[0] == '\\' then Escaped(v[0]) else Plain(v[0]);
      body := [q] + rest;
      assert body[1..] == rest;
    }
  }

  // ----- Whole headers -----

  lemma IndexOfSpace(scheme: string, rest: string)
    requires ' ' !in scheme
    ensures IndexOf(scheme + " " + rest, ' ') == |scheme|
    ensures (scheme + " " + rest)[..|scheme|] == scheme && (scheme + " " + rest)[|scheme| + 1..] == rest
  {
    var s := scheme + " " + rest;
    assert s[|scheme|] == ' ';
    assert forall j :: 0 <= j < |scheme| ==> s[j] == scheme[j] && scheme[j] in scheme;
  }

  lemma PaddingIsTrimmed(fold: Fold, pad: string, v: string)
    requires Blank(pad)
    ensures AuthParams(fold, pad + v) == AuthParams(fold, v)
  {
    TrimLeftBlank(pad, v);
  }

  lemma NullElementShows(es: seq<Element>)
    requires !OnlyLastIsNull(es)
    ensures Print(es) != ""
  {
  }

  lemma HeaderFromParams(fold: Fold, scheme: string, rest: string, dotcom: bool)
    requires scheme == SCHEME_TOKEN || scheme == SCHEME_TOKEN_SUDO
    ensures var r, h := AuthParams(fold, rest), ParseAuthorizationHeader(fold, scheme + " " + rest, dotcom);
            && (r == DuplicateKey ==> h == ParamsFailed(DuplicateKey))
            && (r == NoEquals && rest != "" ==> h == if scheme == SCHEME_TOKEN then Ok(rest, "") else BadForm)
            && (r.Params? ==> h == if dotcom then SudoDisabled
                                   else if Lookup(r.params, "token") == "" then NoToken
                                   else Ok(Lookup(r.params, "token"), Lookup(r.params, "user")))
  {
    IndexOfSpace(scheme, rest);
  }

  /**
   A header with a list of parameters after one or more spaces. Outside dotcom mode it yields the
   token and user read from the list; but with a null element that is not the last, `token` takes
   the whole list for a token, dotcom mode or not, and `token-sudo` refuses it.
   */
  lemma ParamsHeaderRoundTrip(fold: Fold, scheme: string, n: nat, es: seq<Element>, dotcom: bool)
    requires scheme == SCHEME_TOKEN || scheme == SCHEME_TOKEN_SUDO
    requires ValidElements(es) && n >= 1
    ensures ParseAuthorizationHeader(fold, scheme + Spaces(n) + Print(es), dotcom) ==
            var pairs := Readings(Leading(es));
            var params := MapOf(fold, pairs);
            if !DistinctKeys(fold, pairs) then ParamsFailed(DuplicateKey)
            else if !OnlyLastIsNull(es) then
              if scheme == SCHEME_TOKEN then Ok(Spaces(n - 1) + Print(es), "") else BadForm
            else if dotcom then SudoDisabled
            else if Lookup(params, "token") == "" then NoToken
            else Ok(Lookup(params, "token"), Lookup(params, "user"))
  {
    var rest := Spaces(n - 1) + Print(es);
    SpacesSplit(scheme, Print(es), n);
    HeaderFromParams(fold, scheme, rest, dotcom);
    PaddingIsTrimmed(fold, Spaces(n - 1), Print(es));
    ParamsRoundTrip(fold, es);
    if !OnlyLastIsNull(es) {
      NullElementShows(es);
    }
  }

  /** A parameter without white space but perhaps before it. */
  ghost function Simple(before: string, key: string, value: Value): Element {
    Of(Param(before, key, "", "", value, ""))
  }

  /** In particular `token-sudo token="T", user="U"`, for any non-empty T and any U, quoted or bare. */
  lemma SudoHeaderRoundTrip(fold: Fold, n: nat, token: Value, user: Value, gap: string)
    requires n >= 1 && ValidValue(token) && ValidValue(user) && Blank(gap) && Meant(token) != ""
    ensures ParseAuthorizationHeader(fold,
              SCHEME_TOKEN_SUDO + Spaces(n) + Print([Simple("", "token", token), Simple(gap, "user", user)]), false) ==
            Ok(Meant(token), Meant(user))
  {
    var t, u := Simple("", "token", token), Simple(gap, "user", user);
    SimpleIsValid("", "token", token);
    SimpleIsValid(gap, "user", user);
    SudoHeader(fold, n, t, u);
  }

  lemma SimpleIsValid(before: string, key: string, value: Value)
    requires Blank(before) && (key == "token" || key == "user") && ValidValue(value)
    ensures ValidElement(Simple(before, key, value))
  {
  }

  lemma SudoHeader(fold: Fold, n: nat, t: Element, u: Element)
    requires n >= 1 && ValidElement(t) && ValidElement(u) && t.Of? && u.Of?
    requires t.param.key == "token" && u.param.key == "user" && Unspaced([t.param, u.param])
    requires Meant(t.param.value) != ""
    ensures ParseAuthorizationHeader(fold, SCHEME_TOKEN_SUDO + Spaces(n) + Print([t, u]), false) ==
            Ok(Meant(t.param.value), Meant(u.param.value))
  {
    TokenAndUser(fold, t, u);
    ParamsHeaderRoundTrip(fold, SCHEME_TOKEN_SUDO, n, [t, u], false);
  }

  lemma NamesAreFolded(fold: Fold)
    ensures Lower(fold, "token") == "token" && Lower(fold, "user") == "user"
  {
  }

  lemma TokenAndUser(fold: Fold, t: Element, u: Element)
    requires t.Of? && u.Of? && Meaning(t.param).key == "token" && Meaning(u.param).key == "user"
    requires Unspaced([t.param, u.param])
    ensures Leading([t, u]) == [t.param, u.param] && OnlyLastIsNull([t, u])
    ensures DistinctKeys(fold, Readings([t.param, u.param]))
    ensures MapOf(fold, Readings([t.param, u.param])) == map["token" := Meant(t.param.value), "user" := Meant(u.param.value)]
  {
    var es, ps := [t, u], [t.param, u.param];
    assert OnlyLastIsNull(es);
    LeadingIsGiven(es);
    assert es[1..] == [u] && [u][1..] == [];
    assert Given([u]) == [u.param];
    assert Given(es) == ps;
    NamesAreFolded(fold);
    UnspacedReadAsMeant(ps);
    assert ps[0].w1 == "" && ps[1].w1 == "";
    MapOfTwo(fold, Meaning(t.param), Meaning(u.param));
    assert Meanings(ps) == [Meaning(t.param), Meaning(u.param)];
  }

  lemma MapOfTwo(fold: Fold, t: Pair, u: Pair)
    ensures MapOf(fold, [t, u]) == map[Folded(fold, t) := t.text][Folded(fold, u) := u.text]
  {
    var one, two := [t], [t, u];
    assert two[..1] == one && one[..0] == [];
    assert MapOf(fold, one) == map[Folded(fold, t) := t.text];
  }

  /**
   Schemes are case-insensitive (RFC 7235, section 2.1), but only these two spellings are
   recognised. A complaint about the parameters comes first.
   */
  lemma SchemeRecognisedExactlyWhen(fold: Fold, scheme: string, rest: string, dotcom: bool)
    requires ' ' !in scheme
    ensures ParseAuthorizationHeader(fold, scheme + " " + rest, dotcom) == UnrecognizedScheme <==>
            scheme != "token" && scheme != "token-sudo" && (AuthParams(fold, rest).Params? || AuthParams(fold, rest).NoEquals?)
  {
    IndexOfSpace(scheme, rest);
  }

  /** A header without a space is a scheme alone, and has no token. */
  lemma HeaderWithoutSpace(fold: Fold, header: string, dotcom: bool)
    requires ' ' !in header
    ensures ParseAuthorizationHeader(fold, header, dotcom) ==
            if header != "token" && header != "token-sudo" then UnrecognizedScheme
            else if dotcom then SudoDisabled
            else NoToken
  {
    assert IndexOf(header, ' ') == |header|;
    assert header[..|header|] == header;
  }

  // ----- token68 -----

  predicate Token68Char(c: char) {
    || 'a' <= c <= 'z' || 'A' <= c <= 'Z' || '0' <= c <= '9'
    || c == '-' || c == '.' || c == '_' || c == '~' || c == '+' || c == '/'
  }

  /** One or more token characters and any number of `=` after them. */
  ghost predicate Token68(t: string) {
    && t != [] && Token68Char(t[0])
    && (forall i :: 0 <= i < |t| ==> Token68Char(t[i]) || t[i] == '=')
    && (forall i, j :: 0 <= i < j < |t| && t[i] == '=' ==> t[j] == '=')
  }

  ghost function Spaces(n: nat): (s: string)
    ensures |s| == n && forall c :: c in s ==> c == ' '
  {
    seq(n, _ => ' ')
  }

  /** A text the scanner takes whole is a list of one. */
  lemma SingleItem(v: string, item: string)
    requires Tight(item) && item != []
    requires ScanFrom(START, v).list == [] && ScanFrom(START, v).buffer == item
    ensures HeaderList(v) == [item]
  {
  }

  lemma TrimNothing(a: string, v: string)
    requires Blank(a) && Tight(v) && v != []
    ensures Trim(a + v) == v
  {
    assert a + v + "" == a + v;
    TrimAround(a, v, "");
  }

  lemma CollectOne(fold: Fold, item: string)
    ensures Collect(fold, [item], map[]) ==
            if !HasValue(item) then NoEquals
            else if LoneQuote(RawValue(item)) then Panicked
            else Params(map[KeyOf(fold, item) := Unquoted(RawValue(item))])
  {
  }

  lemma Token68IsTight(t: string)
    requires Token68(t)
    ensures Tight(t)
    ensures forall c :: c in t ==> c != ',' && c != '"'
  {
  }

  lemma Token68IsOneItem(t: string)
    requires Token68(t)
    ensures HeaderList(t) == [t]
  {
    Token68IsTight(t);
    ScanPlain(START, t);
    assert "" + t == t;
    SingleItem(t, t);
  }

  lemma Token68HasNoValue(t: string)
    requires Token68(t)
    ensures !HasValue(t)
  {
  }

  lemma Token68HasNoParams(fold: Fold, t: string, pad: string)
    requires Token68(t) && Blank(pad)
    ensures AuthParams(fold, pad + t) == NoEquals
  {
    Token68IsTight(t);
    Token68IsOneItem(t);
    TrimNothing(pad, t);
    Token68HasNoValue(t);
    CollectOne(fold, t);
  }

  /**
   `token` and a token68 after `n` spaces yields the token with all spaces but the first: exactly
   the token if there is a single space, although the grammar allows more.
   */
  lemma Token68HeaderExactlyWhen(fold: Fold, t: string, n: nat, dotcom: bool)
    requires Token68(t) && n >= 1
    ensures ParseAuthorizationHeader(fold, SCHEME_TOKEN + Spaces(n) + t, dotcom) == Ok(Spaces(n - 1) + t, "")
    ensures ParseAuthorizationHeader(fold, SCHEME_TOKEN + Spaces(n) + t, dotcom) == Ok(t, "") <==> n == 1
  {
    var rest := Spaces(n - 1) + t;
    SpacesSplit(SCHEME_TOKEN, t, n);
    Token68HasNoParams(fold, t, Spaces(n - 1));
    HeaderFromParams(fold, SCHEME_TOKEN, rest, dotcom);
    assert |rest| == n - 1 + |t|;
    if n == 1 {
      assert rest == t;
    }
  }

  lemma SpacesSplit(scheme: string, t: string, n: nat)
    requires n >= 1
    ensures scheme + Spaces(n) + t == scheme + " " + (Spaces(n - 1) + t)
  {
  }

  /** `Token x` is not recognised. */
  lemma CapitalSchemeExample(fold: Fold, dotcom: bool)
    ensures ParseAuthorizationHeader(fold, "Token" + " " + "x", dotcom) == UnrecognizedScheme
  {
    Token68HasNoParams(fold, "x", "");
    assert "" + "x" == "x";
    SchemeRecognisedExactlyWhen(fold, "Token", "x", dotcom);
  }

  // ----- Examples of lists that do not come back -----

  ghost function OneLetter(c: char): Value {
    Quoted([Plain(c)])
  }

  lemma OneLetterValue(c: char)
    requires c != '"' && c != '\\'
    ensures ValidValue(OneLetter(c)) && Meant(OneLetter(c)) == [c]
    ensures ValueWritten(OneLetter(c)) == ['"', c, '"'] == ValueScanned(OneLetter(c))
  {
    var body := [Plain(c)];
    assert body[1..] == [];
    assert Text(body[1..]) == "" && Written(body[1..]) == "";
    assert Text(body) == [c] && Written(body) == WrittenChar(Plain(c)) == [c];
  }

  lemma OneParameter(fold: Fold, p: Param)
    requires ValidParam(p)
    ensures AuthParams(fold, Print([Of(p)])) == Params(map[Folded(fold, Reading(p)) := Reading(p).text])
  {
    var es := [Of(p)];
    assert es[1..] == [];
    assert Leading(es) == [p];
    ParamsRoundTrip(fold, es);
    var pairs := Readings([p]);
    assert pairs == [Reading(p)] && pairs[..0] == [];
  }

  lemma PrintOne(p: Param)
    ensures Print([Of(p)]) == p.before + (p.key + p.w1 + "=" + (p.w2 + ValueWritten(p.value))) + p.after
  {
  }

  const SPACE_BEFORE := Param("", "k", " ", "", Quoted([Plain('v')]), "")
  const SPACE_AFTER := Param("", "k", "", " ", Quoted([Plain('v')]), "")

  lemma SpacedTexts()
    ensures Print([Of(SPACE_BEFORE)]) == "k =\"v\"" && ValidParam(SPACE_BEFORE)
    ensures Print([Of(SPACE_AFTER)]) == "k= \"v\"" && ValidParam(SPACE_AFTER)
  {
    OneLetterValue('v');
    PrintOne(SPACE_BEFORE);
    PrintOne(SPACE_AFTER);
  }

  lemma SpacedReadings()
    ensures Reading(SPACE_BEFORE) == Pair("k ", "v") && Reading(SPACE_AFTER) == Pair("k", " \"v\"")
  {
    OneLetterValue('v');
  }

  /** `k ="v"`: the space ends up in the key. */
  lemma SpaceBeforeEquals(fold: Fold)
    ensures AuthParams(fold, "k =\"v\"") == Params(map["k " := "v"])
  {
    SpacedTexts();
    SpacedReadings();
    OneParameter(fold, SPACE_BEFORE);
    assert Lower(fold, "k ") == "k ";
  }

  /** `k= "v"`: the space ends up in the value, and the quotes stay on. */
  lemma SpaceAfterEquals(fold: Fold)
    ensures AuthParams(fold, "k= \"v\"") == Params(map["k" := " \"v\""])
  {
    SpacedTexts();
    SpacedReadings();
    OneParameter(fold, SPACE_AFTER);
    assert Lower(fold, "k") == "k";
  }

  const CAPITAL_TOKEN := Param("", "Token", "", "", Quoted([Plain('x')]), "")

  lemma CapitalTokenText()
    ensures Print([Of(CAPITAL_TOKEN)]) == "Token=\"x\"" && ValidParam(CAPITAL_TOKEN)
    ensures Reading(CAPITAL_TOKEN) == Pair("Token", "x")
  {
    OneLetterValue('x');
    PrintOne(CAPITAL_TOKEN);
  }

  lemma CapitalTokenFolds(fold: Fold)
    ensures Lower(fold, "Token") == "token"
  {
  }

  lemma CapitalKeyIsRead(fold: Fold)
    ensures AuthParams(fold, "Token=\"x\"") == Params(map["token" := "x"])
  {
    CapitalTokenText();
    CapitalTokenFolds(fold);
    OneParameter(fold, CAPITAL_TOKEN);
  }

  /** `Token="x"`: the key is read as `token`, and so the header `token Token="x"` yields the token. */
  lemma CapitalKeyExample(fold: Fold)
    ensures AuthParams(fold, "Token=\"x\"") == Params(map["token" := "x"])
    ensures ParseAuthorizationHeader(fold, "token" + " " + "Token=\"x\"", false) == Ok("x", "")
  {
    CapitalKeyIsRead(fold);
    HeaderFromParams(fold, "token", "Token=\"x\"", false);
  }

  lemma PrintThree(a: Element, b: Element, c: Element)
    ensures Print([a, b, c]) == ElementWritten(a) + ("," + (ElementWritten(b) + ("," + ElementWritten(c))))
  {
    assert [a, b, c][1..] == [b, c] && [b, c][1..] == [c];
    assert Print([c]) == ElementWritten(c);
    assert Print([b, c]) == ElementWritten(b) + ("," + Print([c]));
  }

  /** An empty element between two parameters. */
  lemma NullBetween(fold: Fold, t: Param, u: Param, dotcom: bool)
    requires ValidParam(t) && ValidParam(u)
    ensures var list := Print([Of(t), Null(""), Of(u)]);
            && ParseAuthorizationHeader(fold, SCHEME_TOKEN + " " + list, dotcom) == Ok(list, "")
            && ParseAuthorizationHeader(fold, SCHEME_TOKEN_SUDO + " " + list, dotcom) == BadForm
  {
    var es := [Of(t), Null(""), Of(u)];
    assert es[1].Null? && es[0].Of?;
    assert |Leading(es)| == 1;
    ParamsRoundTrip(fold, es);
    NullElementShows(es);
    HeaderFromParams(fold, SCHEME_TOKEN, Print(es), dotcom);
    HeaderFromParams(fold, SCHEME_TOKEN_SUDO, Print(es), dotcom);
  }

  const TOKEN_X := Param("", "token", "", "", Quoted([Plain('x')]), "")
  const USER_Y := Param("", "user", "", "", Quoted([Plain('y')]), "")

  lemma TokenAndUserText()
    ensures ElementWritten(Of(TOKEN_X)) == "token=\"x\"" && ElementWritten(Of(USER_Y)) == "user=\"y\""
  {
    OneLetterValue('x');
    OneLetterValue('y');
  }

  lemma TokenAndUserAreValid()
    ensures ValidParam(TOKEN_X) && ValidParam(USER_Y)
  {
    OneLetterValue('x');
    OneLetterValue('y');
    SimpleIsValid("", "token", OneLetter('x'));
    SimpleIsValid("", "user", OneLetter('y'));
  }

  lemma TwoCommas(a: string, b: string)
    ensures a + ("," + ("" + ("," + b))) == a + ",," + b
  {
  }

  lemma NullElementText()
    ensures Print([Of(TOKEN_X), Null(""), Of(USER_Y)]) == "token=\"x\"" + ",," + "user=\"y\""
  {
    TokenAndUserText();
    PrintThree(Of(TOKEN_X), Null(""), Of(USER_Y));
    TwoCommas("token=\"x\"", "user=\"y\"");
  }

  /** `token token="x",,user="y"`: the list comes back as the token, and under `token-sudo` it is refused. */
  lemma NullElementExample(fold: Fold, dotcom: bool)
    ensures var list := "token=\"x\"" + ",," + "user=\"y\"";
            && ParseAuthorizationHeader(fold, SCHEME_TOKEN + " " + list, dotcom) == Ok(list, "")
            && ParseAuthorizationHeader(fold, SCHEME_TOKEN_SUDO + " " + list, dotcom) == BadForm
  {
    TokenAndUserAreValid();
    NullElementText();
    NullBetween(fold, TOKEN_X, USER_Y, dotcom);
  }
}
