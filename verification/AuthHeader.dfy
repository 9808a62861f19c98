/**
 The Authorization header parser of internal/authz/header.go. Strings are sequences of
 characters. The Unicode table that keys are folded with is a parameter.
 */
module AuthHeader {

  const SCHEME_TOKEN := "token"
  const SCHEME_TOKEN_SUDO := "token-sudo"

  // ----- Strings -----

  /** White space in the sense of Unicode. */
  predicate IsSpace(c: char) {
    || c == ' ' || c == '\t' || c == '\n' || c == '\r'
    || c == '\U{0B}' || c == '\U{0C}' || c == '\U{85}' || c == '\U{A0}'
    || c == '\U{1680}' || '\U{2000}' <= c <= '\U{200A}'
    || c == '\U{2028}' || c == '\U{2029}' || c == '\U{202F}' || c == '\U{205F}' || c == '\U{3000}'
  }

  /** By code point: tab to carriage return, the space, and the separators beyond ASCII. */
  lemma SpacesByCodePoint(c: char)
    ensures IsSpace(c) <==>
            var n := c as int;
            || 9 <= n <= 13 || n == 32 || n == 133 || n == 160 || n == 5760 || 8192 <= n <= 8202
            || n in {8232, 8233, 8239, 8287, 12288}
  {
  }

  function TrimLeft(s: string): string {
    if s != [] && IsSpace(s[0]) then TrimLeft(s[1..]) else s
  }

  function TrimRight(s: string): string {
    if s != [] && IsSpace(s[|s| - 1]) then TrimRight(s[..|s| - 1]) else s
  }

  function Trim(s: string): string {
    TrimRight(TrimLeft(s))
  }

  function LowerASCII(c: char): char {
    if 'A' <= c <= 'Z' then c - 'A' + 'a' else c
  }

  /** Case folding, character by character: on ASCII as usual, elsewhere by any table at all. */
  type Fold = fold: char -> char | forall c :: c < '\U{80}' ==> fold(c) == LowerASCII(c) witness LowerASCII

  function Lower(fold: Fold, s: string): (r: string)
    ensures |r| == |s|
  {
    seq(|s|, i requires 0 <= i < |s| => fold(s[i]))
  }

  /** The same character, or the two cases of one letter A to Z. */
  ghost predicate SameLetter(c: char, d: char) {
    || c == d
    || ('A' <= c <= 'Z' && d as int == c as int + 32)
    || ('A' <= d <= 'Z' && c as int == d as int + 32)
  }

  ghost predicate SameIgnoringCase(a: string, b: string) {
    |a| == |b| && forall i :: 0 <= i < |a| ==> SameLetter(a[i], b[i])
  }

  lemma LetterFolds(fold: Fold, c: char, d: char)
    ensures SameLetter(c, d) ==> fold(c) == fold(d)
    ensures c < '\U{80}' && d < '\U{80}' && fold(c) == fold(d) ==> SameLetter(c, d)
  {
    assert LowerASCII(c) as int == if 'A' <= c <= 'Z' then c as int + 32 else c as int;
    assert LowerASCII(d) as int == if 'A' <= d <= 'Z' then d as int + 32 else d as int;
  }

  ghost predicate IsASCII(s: string) {
    forall c :: c in s ==> c < '\U{80}'
  }

  /** Strings that differ only in the case of letters A to Z fold to the same, and ASCII strings only then. */
  lemma FoldsExactly(fold: Fold, a: string, b: string)
    ensures SameIgnoringCase(a, b) ==> Lower(fold, a) == Lower(fold, b)
    ensures IsASCII(a) && IsASCII(b) && Lower(fold, a) == Lower(fold, b) ==> SameIgnoringCase(a, b)
  {
    if SameIgnoringCase(a, b) {
      forall i | 0 <= i < |a|
        ensures Lower(fold, a)[i] == Lower(fold, b)[i]
      {
        LetterFolds(fold, a[i], b[i]);
      }
    }
    if IsASCII(a) && IsASCII(b) && Lower(fold, a) == Lower(fold, b) {
      forall i | 0 <= i < |a|
        ensures SameLetter(a[i], b[i])
      {
        assert |Lower(fold, a)| == |Lower(fold, b)|;
        assert Lower(fold, a)[i] == fold(a[i]) && Lower(fold, b)[i] == fold(b[i]);
        assert a[i] in a && b[i] in b;
        LetterFolds(fold, a[i], b[i]);
      }
    }
  }

  /** The position of the first `c`, or the length if there is none. */
  function IndexOf(s: string, c: char): (i: nat)
    ensures i <= |s|
    ensures i < |s| ==> s[i] == c
    ensures forall j :: 0 <= j < i ==> s[j] != c
  {
    if s == [] || s[0] == c then 0 else 1 + IndexOf(s[1..], c)
  }

  ghost predicate Blank(s: string) {
    forall c :: c in s ==> IsSpace(c)
  }

  /** Does not begin or end with white space. */
  ghost predicate Tight(s: string) {
    s != [] ==> !IsSpace(s[0]) && !IsSpace(s[|s| - 1])
  }

  lemma {:induction false} TrimLeftBlank(a: string, s: string)
    requires Blank(a)
    ensures TrimLeft(a + s) == TrimLeft(s)
    decreases |a|
  {
    if a == [] {
      assert a + s == s;
    } else {
      assert a[0] in a;
      assert (a + s)[1..] == a[1..] + s;
      TrimLeftBlank(a[1..], s);
    }
  }

  lemma {:induction false} TrimRightBlank(s: string, b: string)
    requires Blank(b)
    ensures TrimRight(s + b) == TrimRight(s)
    decreases |b|
  {
    if b == [] {
      assert s + b == s;
    } else {
      assert b[|b| - 1] in b;
      assert (s + b)[..|s + b| - 1] == s + b[..|b| - 1];
      TrimRightBlank(s, b[..|b| - 1]);
    }
  }

  /** Trimming takes exactly the white space around a tight text. */
  lemma TrimAround(a: string, s: string, b: string)
    requires Blank(a) && Blank(b) && Tight(s) && s != []
    ensures Trim(a + s + b) == s
  {
    assert a + s + b == a + (s + b);
    TrimLeftBlank(a, s + b);
    assert TrimLeft(s + b) == s + b;
    TrimRightBlank(s, b);
  }

  // ----- The list scanner (RFC 2068, section 2.1, with quoted strings of RFC 7230, section 3.2.6) -----

  datatype Scan = Scan(list: seq<string>, buffer: string, escape: bool, quote: bool)

  const START := Scan([], "", false, false)

  function Step(s: Scan, r: char): Scan {
    if s.escape then s.(buffer := s.buffer + [r], escape := false)
    else if s.quote then
      if r == '\\' then s.(escape := true)
      else s.(buffer := s.buffer + [r], quote := r != '"')
    else if r == ',' then s.(list := s.list + [Trim(s.buffer)], buffer := "")
    else s.(buffer := s.buffer + [r], quote := r == '"')
  }

  function ScanFrom(s: Scan, v: string): Scan
    decreases |v|
  {
    if v == [] then s else ScanFrom(Step(s, v[0]), v[1..])
  }

  function Finish(s: Scan): seq<string> {
    if s.buffer != "" then s.list + [Trim(s.buffer)] else s.list
  }

  /** The elements of a comma-separated list whose quoted strings may hold commas. */
  function HeaderList(value: string): seq<string> {
    Finish(ScanFrom(START, value))
  }

  lemma {:induction false} ScanConcat(s: Scan, a: string, b: string)
    ensures ScanFrom(s, a + b) == ScanFrom(ScanFrom(s, a), b)
    decreases |a|
  {
    if a == [] {
      assert a + b == b;
    } else {
      assert (a + b)[1..] == a[1..] + b;
      ScanConcat(Step(s, a[0]), a[1..], b);
    }
  }

  method ParseHTTPHeaderList(value: string) returns (list: seq<string>)
    ensures list == HeaderList(value)
  {
    list := [];
    var escape, quote := false, false;
    var b := "";
    for i := 0 to |value|
      invariant Scan(list, b, escape, quote) == ScanFrom(START, value[..i])
    {
      var r := value[i];
      assert value[..i + 1] == value[..i] + [r];
      ScanConcat(START, value[..i], [r]);
      if escape {
        b := b + [r];
        escape := false;
      } else if quote {
        if r == '\\' {
          escape := true;
        } else {
          if r == '"' {
            quote := false;
          }
          b := b + [r];
        }
      } else if r == ',' {
        list := list + [Trim(b)];
        b := "";
      } else if r == '"' {
        quote := true;
        b := b + [r];
      } else {
        b := b + [r];
      }
    }
    assert value[..|value|] == value;
    if b != "" {
      list := list + [Trim(b)];
    }
  }

  // ----- Parameters (RFC 7235, section 2.1 and Appendix C) -----

  type ParamMap = map<string, string>

  /** `Panicked` is the program's slice-bounds panic. */
  datatype ParamsResult = Params(params: ParamMap) | NoEquals | DuplicateKey | Panicked

  predicate HasValue(pair: string) {
    IndexOf(pair, '=') < |pair| && pair[|pair| - 1] != '='
  }

  function KeyOf(fold: Fold, pair: string): string {
    Lower(fold, pair[..IndexOf(pair, '=')])
  }

  function RawValue(pair: string): (v: string)
    requires HasValue(pair)
    ensures v != []
  {
    pair[IndexOf(pair, '=') + 1..]
  }

  predicate LoneQuote(v: string) {
    v == "\""
  }

  function Unquoted(v: string): string
    requires v != [] && !LoneQuote(v)
  {
    if v[0] == '"' && v[|v| - 1] == '"' then v[1..|v| - 1] else v
  }

  /** The parameters of `pairs`, added to those already found. */
  function Collect(fold: Fold, pairs: seq<string>, params: ParamMap): ParamsResult
    decreases |pairs|
  {
    if pairs == [] then Params(params)
    else if !HasValue(pairs[0]) then NoEquals
    else if LoneQuote(RawValue(pairs[0])) then Panicked
    else if KeyOf(fold, pairs[0]) in params then DuplicateKey
    else Collect(fold, pairs[1..], params[KeyOf(fold, pairs[0]) := Unquoted(RawValue(pairs[0]))])
  }

  function AuthParams(fold: Fold, value: string): ParamsResult {
    Collect(fold, HeaderList(Trim(value)), map[])
  }

  lemma CollectNext(fold: Fold, pairs: seq<string>, n: nat, params: ParamMap)
    requires n < |pairs|
    ensures var pair := pairs[n];
            Collect(fold, pairs[n..], params) ==
            if !HasValue(pair) then NoEquals
            else if LoneQuote(RawValue(pair)) then Panicked
            else if KeyOf(fold, pair) in params then DuplicateKey
            else Collect(fold, pairs[n + 1..], params[KeyOf(fold, pair) := Unquoted(RawValue(pair))])
  {
    assert pairs[n..][1..] == pairs[n + 1..];
  }

  /** Splits one pair into its folded key and its value, `NoEquals` or `Panicked` if that fails. */
  method ReadPair(fold: Fold, pair: string) returns (complaint: ParamsResult, key: string, v: string)
    ensures !HasValue(pair) <==> complaint == NoEquals
    ensures HasValue(pair) && LoneQuote(RawValue(pair)) <==> complaint == Panicked
    ensures HasValue(pair) && !LoneQuote(RawValue(pair)) ==> complaint.Params? && key == KeyOf(fold, pair) && v == Unquoted(RawValue(pair))
  {
    complaint, key, v := Params(map[]), "", "";
    var i := IndexOf(pair, '=');
    if i == |pair| || pair[|pair| - 1] == '=' {
      return NoEquals, key, v;
    }
    v := pair[i + 1..];
    if v[0] == '"' && v[|v| - 1] == '"' {
      if |v| - 1 < 1 {
        return Panicked, key, v;
      }
      v := v[1..|v| - 1];
    }
    key := Lower(fold, pair[..i]);
  }

  method ParseHTTPAuthParams(fold: Fold, value: string) returns (result: ParamsResult)
    ensures result == AuthParams(fold, value)
  {
    var params: ParamMap := map[];
    var pairs := ParseHTTPHeaderList(Trim(value));
    for n := 0 to |pairs|
      invariant Collect(fold, pairs[n..], params) == AuthParams(fold, value)
    {
      CollectNext(fold, pairs, n, params);
      var complaint, key, v := ReadPair(fold, pairs[n]);
      if !complaint.Params? {
        return complaint;
      }
      if key in params {
        return DuplicateKey;
      }
      params := params[key := v];
    }
    return Params(params);
  }

  // ----- Credentials and the header -----

  datatype Credentials = Credentials(scheme: string, token68: string, params: ParamMap) | BadCredentials(why: ParamsResult)

  function ParseHTTPCredentials(fold: Fold, credentials: string): Credentials {
    var space := IndexOf(credentials, ' ');
    var scheme := credentials[..space];
    if space == |credentials| then Credentials(scheme, "", map[])
    else
      var rest := credentials[space + 1..];
      match AuthParams(fold, rest)
      case NoEquals => Credentials(scheme, rest, map[])
      case Params(params) => Credentials(scheme, "", params)
      case why => BadCredentials(why)
  }

  datatype HeaderResult =
    | Ok(token: string, sudoUser: string)
    | UnrecognizedScheme
    | BadForm
    | SudoDisabled
    | NoToken
    | ParamsFailed(why: ParamsResult)

  function Lookup(params: ParamMap, key: string): string {
    if key in params then params[key] else ""
  }

  function ParseAuthorizationHeader(fold: Fold, header: string, dotcom: bool): HeaderResult {
    match ParseHTTPCredentials(fold, header)
    case BadCredentials(why) => ParamsFailed(why)
    case Credentials(scheme, token68, params) =>
      if scheme != SCHEME_TOKEN && scheme != SCHEME_TOKEN_SUDO then UnrecognizedScheme
      else if token68 != "" then
        if scheme == SCHEME_TOKEN then Ok(token68, "") else BadForm
      else if dotcom then SudoDisabled
      else if Lookup(params, "token") == "" then NoToken
      else Ok(Lookup(params, "token"), Lookup(params, "user"))
  }
}
