/**
 Lists of parameters in every form the grammar lets one write them, with null elements and white
 space wherever they may stand, and what the list scanner delivers for them.
 */
module AuthHeaderList {
  import opened AuthHeader
  import opened Sequences

  // ----- Writing parameters -----

  /** One character of a quoted string, written as itself or after a backslash. */
  datatype QuotedChar = Plain(c: char) | Escaped(c: char)

  ghost function Text(body: seq<QuotedChar>): string {
    if body == [] then "" else [body[0].c] + Text(body[1..])
  }

  ghost function WrittenChar(q: QuotedChar): string {
    if q.Plain? then [q.c] else ['\\', q.c]
  }

  ghost function Written(body: seq<QuotedChar>): string {
    if body == [] then ""
    else WrittenChar(body[0]) + Written(body[1..])
  }

  ghost function InQuotes(t: string): string {
    "\"" + (t + "\"")
  }

  ghost function WrittenQuoted(body: seq<QuotedChar>): string {
    InQuotes(Written(body))
  }

  /** Quotes and backslashes must be escaped; anything else may be. */
  ghost predicate ValidBody(body: seq<QuotedChar>) {
    forall q :: q in body && q.Plain? ==> q.c != '"' && q.c != '\\'
  }

  /** A value is a quoted string or a bare token. */
  datatype Value = Quoted(body: seq<QuotedChar>) | Bare(token: string)

  ghost predicate ValidValue(v: Value) {
    match v
    case Quoted(body) => ValidBody(body)
    case Bare(token) => token != [] && forall c :: c in token ==> !IsSpace(c) && c != ',' && c != '"' && c != '='
  }

  /** The text a value stands for. */
  ghost function Meant(v: Value): string {
    match v
    case Quoted(body) => Text(body)
    case Bare(token) => token
  }

  ghost function ValueWritten(v: Value): string {
    match v
    case Quoted(body) => WrittenQuoted(body)
    case Bare(token) => token
  }

  /** A value as the list scanner delivers it: quotes kept, escapes undone. */
  ghost function ValueScanned(v: Value): string {
    match v
    case Quoted(body) => InQuotes(Text(body))
    case Bare(token) => token
  }

  /** A parameter with the white space around it and on both sides of its equals sign. */
  datatype Param = Param(before: string, key: string, w1: string, w2: string, value: Value, after: string)

  /** White space in front of an empty key is white space in front of the parameter. */
  ghost predicate ValidParam(p: Param) {
    && Blank(p.before) && Blank(p.w1) && Blank(p.w2) && Blank(p.after)
    && Tight(p.key) && (p.key == "" ==> p.w1 == "")
    && (forall c :: c in p.key ==> c != '=' && c != ',' && c != '"')
    && ValidValue(p.value)
  }

  /** What stands before the equals sign. */
  ghost function Label(p: Param): string {
    p.key + p.w1
  }

  /** The parameter itself, as written. */
  ghost function Core(p: Param): string {
    Label(p) + "=" + (p.w2 + ValueWritten(p.value))
  }

  /** The parameter itself, as the list scanner delivers it. */
  ghost function Item(p: Param): string {
    Label(p) + "=" + (p.w2 + ValueScanned(p.value))
  }

  /** An element of a list is a parameter or, between two commas or at an end, nothing but white space. */
  datatype Element = Null(blank: string) | Of(param: Param)

  ghost predicate ValidElement(e: Element) {
    match e
    case Null(blank) => Blank(blank)
    case Of(p) => ValidParam(p)
  }

  ghost predicate ValidElements(es: seq<Element>) {
    forall e :: e in es ==> ValidElement(e)
  }

  ghost function Around(p: Param, core: string): string {
    p.before + core + p.after
  }

  ghost function ElementWritten(e: Element): string {
    match e
    case Null(blank) => blank
    case Of(p) => Around(p, Core(p))
  }

  ghost function ElementScanned(e: Element): string {
    match e
    case Null(blank) => blank
    case Of(p) => Around(p, Item(p))
  }

  /** The elements joined by commas. */
  ghost function Print(es: seq<Element>): string {
    if es == [] then ""
    else if |es| == 1 then ElementWritten(es[0])
    else ElementWritten(es[0]) + ("," + Print(es[1..]))
  }

  /** An element as it appears in the scanner's list. */
  ghost function Entry(e: Element): string {
    match e
    case Null(_) => ""
    case Of(p) => Item(p)
  }

  ghost function Entries(es: seq<Element>): (r: seq<string>)
    ensures |r| == |es|
    ensures forall i :: 0 <= i < |es| ==> r[i] == Entry(es[i])
  {
    seq(|es|, i requires 0 <= i < |es| => Entry(es[i]))
  }

  // ----- Scanning undoes writing -----

  lemma ScanQuoted(s: Scan, q: QuotedChar)
    requires q.Plain? ==> q.c != '"' && q.c != '\\'
    requires s.quote && !s.escape
    ensures ScanFrom(s, WrittenChar(q)) == s.(buffer := s.buffer + [q.c])
  {
    if q.Escaped? {
      assert WrittenChar(q)[1..] == [q.c];
      ScanOne(Step(s, '\\'), q.c);
    } else {
      ScanOne(s, q.c);
    }
  }

  lemma {:induction false} ScanBody(s: Scan, body: seq<QuotedChar>)
    requires ValidBody(body) && s.quote && !s.escape
    ensures ScanFrom(s, Written(body)) == s.(buffer := s.buffer + Text(body))
    decreases |body|
  {
    if body == [] {
      assert s.buffer + Text(body) == s.buffer;
    } else {
      var q, rest := body[0], body[1..];
      assert q in body;
      ScanQuoted(s, q);
      ScanConcat(s, WrittenChar(q), Written(rest));
      ScanBody(s.(buffer := s.buffer + [q.c]), rest);
      assert s.buffer + [q.c] + Text(rest) == s.buffer + ([q.c] + Text(rest));
    }
  }

  /** Text without commas and quotes goes to the buffer as it is. */
  lemma {:induction false} ScanPlain(s: Scan, v: string)
    requires !s.quote && !s.escape
    requires forall c :: c in v ==> c != ',' && c != '"'
    ensures ScanFrom(s, v) == s.(buffer := s.buffer + v)
    decreases |v|
  {
    if v == [] {
      assert s.buffer + v == s.buffer;
    } else {
      assert v[0] in v && forall c :: c in v[1..] ==> c in v;
      assert Step(s, v[0]) == s.(buffer := s.buffer + [v[0]]);
      ScanPlain(s.(buffer := s.buffer + [v[0]]), v[1..]);
      assert s.buffer + [v[0]] + v[1..] == s.buffer + v;
    }
  }

  lemma ScanOne(s: Scan, c: char)
    ensures ScanFrom(s, [c]) == Step(s, c)
  {
  }

  /** A quoted string goes to the buffer with its quotes and without its escapes. */
  lemma ScanQuotedString(s: Scan, body: seq<QuotedChar>)
    requires ValidBody(body) && !s.quote && !s.escape
    ensures ScanFrom(s, WrittenQuoted(body)) == s.(buffer := s.buffer + InQuotes(Text(body)))
  {
    var s1 := s.(buffer := s.buffer + "\"", quote := true);
    var s2 := s1.(buffer := s1.buffer + Text(body));
    ScanOne(s, '"');
    ScanBody(s1, body);
    ScanOne(s2, '"');
    ScanConcat(s, "\"", Written(body) + "\"");
    ScanConcat(s1, Written(body), "\"");
    assert s2.buffer + "\"" == s.buffer + InQuotes(Text(body));
  }

  lemma ScanThenQuoted(s: Scan, open: string, body: seq<QuotedChar>)
    requires ValidBody(body) && !s.quote && !s.escape
    requires forall c :: c in open ==> c != ',' && c != '"'
    ensures ScanFrom(s, open + WrittenQuoted(body)) == s.(buffer := s.buffer + (open + InQuotes(Text(body))))
  {
    ScanPlain(s, open);
    ScanQuotedString(s.(buffer := s.buffer + open), body);
    ScanConcat(s, open, WrittenQuoted(body));
    Regroup(s.buffer, open, InQuotes(Text(body)));
  }

  lemma BlankHasNoSeparators(s: string)
    requires Blank(s)
    ensures forall c :: c in s ==> c != ',' && c != '"'
  {
  }

  lemma QuotesComeOff(t: string)
    ensures InQuotes(t) != [] && !LoneQuote(InQuotes(t)) && Unquoted(InQuotes(t)) == t
    ensures InQuotes(t)[|InQuotes(t)| - 1] == '"'
  {
  }

  lemma ValueScannedEnds(v: Value)
    requires ValidValue(v)
    ensures ValueScanned(v) != [] && !LoneQuote(ValueScanned(v)) && Unquoted(ValueScanned(v)) == Meant(v)
    ensures var last := ValueScanned(v)[|ValueScanned(v)| - 1]; last != '=' && !IsSpace(last)
  {
    match v {
      case Quoted(body) =>
        QuotesComeOff(Text(body));
      case Bare(token) =>
        assert token[0] in token && token[|token| - 1] in token;
    }
  }

  lemma LabelIsPlain(p: Param)
    requires ValidParam(p)
    ensures forall c :: c in Label(p) ==> c != '=' && c != ',' && c != '"'
    ensures Label(p) != "" ==> !IsSpace(Label(p)[0])
  {
    BlankHasNoSeparators(p.w1);
  }

  lemma ScanCore(s: Scan, p: Param)
    requires ValidParam(p) && !s.quote && !s.escape
    ensures ScanFrom(s, Core(p)) == s.(buffer := s.buffer + Item(p))
  {
    var open := Label(p) + "=" + p.w2;
    LabelIsPlain(p);
    BlankHasNoSeparators(p.w2);
    Regroup(Label(p) + "=", p.w2, ValueWritten(p.value));
    Regroup(Label(p) + "=", p.w2, ValueScanned(p.value));
    match p.value {
      case Quoted(body) =>
        ScanThenQuoted(s, open, body);
      case Bare(token) =>
        ScanPlain(s, open + token);
    }
  }

  lemma ScanElement(s: Scan, e: Element)
    requires ValidElement(e) && s.buffer == "" && !s.quote && !s.escape
    ensures ScanFrom(s, ElementWritten(e)) == s.(buffer := ElementScanned(e))
  {
    match e {
      case Null(blank) =>
        BlankHasNoSeparators(blank);
        ScanPlain(s, blank);
        assert "" + blank == blank;
      case Of(p) =>
        ScanAround(s, p);
    }
  }

  lemma ScanAround(s: Scan, p: Param)
    requires ValidParam(p) && s.buffer == "" && !s.quote && !s.escape
    ensures ScanFrom(s, Around(p, Core(p))) == s.(buffer := Around(p, Item(p)))
  {
    BlankHasNoSeparators(p.before);
    BlankHasNoSeparators(p.after);
    ScanPlain(s, p.before);
    assert "" + p.before == p.before;
    var s1 := s.(buffer := p.before);
    ScanCore(s1, p);
    var s2 := s.(buffer := p.before + Item(p));
    ScanPlain(s2, p.after);
    ScanConcat(s, p.before + Core(p), p.after);
    ScanConcat(s, p.before, Core(p));
  }

  lemma ItemIsTight(p: Param)
    requires ValidParam(p)
    ensures Tight(Item(p)) && Item(p) != []
  {
    LabelIsPlain(p);
    ValueScannedEnds(p.value);
  }

  lemma CoreIsTight(p: Param)
    requires ValidParam(p)
    ensures Tight(Core(p)) && Core(p) != []
  {
    LabelIsPlain(p);
  }

  lemma TrimElement(e: Element)
    requires ValidElement(e)
    ensures Trim(ElementScanned(e)) == Entry(e)
  {
    match e {
      case Null(blank) =>
        assert blank + "" == blank;
        TrimLeftBlank(blank, "");
      case Of(p) =>
        ItemIsTight(p);
        TrimAround(p.before, Item(p), p.after);
    }
  }

  lemma ScanThenComma(s: Scan, w: string, scanned: string, rest: string)
    requires !s.quote && !s.escape && ScanFrom(s, w) == s.(buffer := scanned)
    ensures ScanFrom(s, w + ("," + rest)) == ScanFrom(Scan(s.list + [Trim(scanned)], "", false, false), rest)
  {
    var s1 := s.(buffer := scanned);
    ScanOne(s1, ',');
    ScanConcat(s, w, "," + rest);
    ScanConcat(s1, ",", rest);
  }

  lemma EntriesAfterFirst(list: seq<string>, es: seq<Element>)
    requires |es| > 1
    ensures list + [Entry(es[0])] + Entries(es[1..][..|es[1..]| - 1]) == list + Entries(es[..|es| - 1])
  {
  }

  lemma ScanFirst(list: seq<string>, es: seq<Element>)
    requires |es| > 1 && ValidElements(es)
    ensures ScanFrom(Scan(list, "", false, false), Print(es)) ==
            ScanFrom(Scan(list + [Entry(es[0])], "", false, false), Print(es[1..]))
  {
    var s, e := Scan(list, "", false, false), es[0];
    assert e in es;
    ScanElement(s, e);
    TrimElement(e);
    ScanThenComma(s, ElementWritten(e), ElementScanned(e), Print(es[1..]));
  }

  lemma ScanLast(list: seq<string>, e: Element)
    requires ValidElement(e)
    ensures ScanFrom(Scan(list, "", false, false), Print([e])) == Scan(list, ElementScanned(e), false, false)
  {
    ScanElement(Scan(list, "", false, false), e);
  }

  /** All but the last element are in the list, the last one is in the buffer. */
  lemma {:induction false} ScanPrint(list: seq<string>, es: seq<Element>)
    requires es != [] && ValidElements(es)
    ensures ScanFrom(Scan(list, "", false, false), Print(es)) ==
            Scan(list + Entries(es[..|es| - 1]), ElementScanned(es[|es| - 1]), false, false)
    decreases |es|
  {
    if |es| == 1 {
      assert es == [es[0]] && es[0] in es;
      ScanLast(list, es[0]);
      assert list + Entries(es[..0]) == list;
    } else {
      ScanFirst(list, es);
      ScanPrint(list + [Entry(es[0])], es[1..]);
      EntriesAfterFirst(list, es);
    }
  }

  // ----- The outermost white space goes first -----

  ghost function Leftmost(e: Element): string {
    match e
    case Null(blank) => blank
    case Of(p) => p.before
  }

  ghost function Rightmost(e: Element): string {
    match e
    case Null(blank) => blank
    case Of(p) => p.after
  }

  ghost function CutLeft(e: Element): Element {
    match e
    case Null(_) => Null("")
    case Of(p) => Of(p.(before := ""))
  }

  ghost function CutRight(e: Element): Element {
    match e
    case Null(_) => Null("")
    case Of(p) => Of(p.(after := ""))
  }

  ghost function WithoutLead(es: seq<Element>): seq<Element>
    requires es != []
  {
    es[0 := CutLeft(es[0])]
  }

  ghost function WithoutTail(es: seq<Element>): seq<Element>
    requires es != []
  {
    es[|es| - 1 := CutRight(es[|es| - 1])]
  }

  lemma CutElementLeft(e: Element)
    requires ValidElement(e)
    ensures ValidElement(CutLeft(e)) && Blank(Leftmost(e)) && ElementWritten(e) == Leftmost(e) + ElementWritten(CutLeft(e))
    ensures ElementWritten(CutLeft(e)) != "" ==> !IsSpace(ElementWritten(CutLeft(e))[0])
    ensures ElementWritten(CutLeft(e)) == "" ==> e.Null?
  {
    if e.Of? {
      var p := e.param;
      CoreIsTight(p);
      assert "" + Core(p) == Core(p);
      Regroup(p.before, Core(p), p.after);
    }
  }

  lemma CutElementRight(e: Element)
    requires ValidElement(e)
    ensures ValidElement(CutRight(e)) && Blank(Rightmost(e)) && ElementWritten(e) == ElementWritten(CutRight(e)) + Rightmost(e)
    ensures var w := ElementWritten(CutRight(e)); w != "" ==> !IsSpace(w[|w| - 1])
  {
    if e.Of? {
      var p := e.param;
      CoreIsTight(p);
      assert p.before + Core(p) + "" == p.before + Core(p);
    }
  }

  lemma TrimLeftPrint(es: seq<Element>)
    requires es != [] && ValidElements(es)
    ensures TrimLeft(Print(es)) == Print(WithoutLead(es))
  {
    var e, cut := es[0], WithoutLead(es);
    assert e in es;
    CutElementLeft(e);
    assert cut[1..] == es[1..];
    if |es| > 1 {
      Regroup(Leftmost(e), ElementWritten(CutLeft(e)), "," + Print(es[1..]));
    }
    assert Print(es) == Leftmost(e) + Print(cut);
    TrimLeftBlank(Leftmost(e), Print(cut));
  }

  ghost predicate EndsTight(w: string) {
    w != "" ==> !IsSpace(w[|w| - 1])
  }

  lemma JoinEnds(a: string, w: string, b: string)
    requires EndsTight(w)
    ensures a + ("," + (w + b)) == a + ("," + w) + b && EndsTight(a + ("," + w))
  {
  }

  lemma PrintFirst(es: seq<Element>)
    requires |es| > 1
    ensures Print(es) == ElementWritten(es[0]) + ("," + Print(es[1..]))
    ensures Print(WithoutTail(es)) == ElementWritten(es[0]) + ("," + Print(WithoutTail(es[1..])))
  {
    assert WithoutTail(es)[1..] == WithoutTail(es[1..]);
  }

  lemma PrintOneEnds(e: Element)
    requires ValidElement(e)
    ensures Print([e]) == Print(WithoutTail([e])) + Rightmost(e) && EndsTight(Print(WithoutTail([e])))
  {
    CutElementRight(e);
  }

  ghost predicate TailComesLast(es: seq<Element>)
    requires es != []
  {
    Print(es) == Print(WithoutTail(es)) + Rightmost(es[|es| - 1]) && EndsTight(Print(WithoutTail(es)))
  }

  lemma TailStaysLast(es: seq<Element>)
    requires |es| > 1 && TailComesLast(es[1..])
    ensures TailComesLast(es)
  {
    PrintFirst(es);
    JoinEnds(ElementWritten(es[0]), Print(WithoutTail(es[1..])), Rightmost(es[|es| - 1]));
  }

  lemma {:induction false} PrintEnds(es: seq<Element>)
    requires es != [] && ValidElements(es)
    ensures TailComesLast(es)
    decreases |es|
  {
    if |es| == 1 {
      assert es == [es[0]] && es[0] in es;
      PrintOneEnds(es[0]);
    } else {
      PrintEnds(es[1..]);
      TailStaysLast(es);
    }
  }

  lemma CutsAreValid(es: seq<Element>)
    requires es != [] && ValidElements(es)
    ensures ValidElements(WithoutLead(es)) && ValidElements(WithoutTail(es))
  {
    assert es[0] in es && es[|es| - 1] in es;
    CutElementLeft(es[0]);
    CutElementRight(es[|es| - 1]);
  }

  lemma TrimPrint(es: seq<Element>)
    requires es != [] && ValidElements(es)
    ensures Trim(Print(es)) == Print(WithoutTail(WithoutLead(es)))
  {
    TrimLeftPrint(es);
    CutsAreValid(es);
    var cut := WithoutLead(es);
    PrintEnds(cut);
    assert cut[|cut| - 1] in cut;
    CutElementRight(cut[|cut| - 1]);
    TrimRightBlank(Print(WithoutTail(cut)), Rightmost(cut[|cut| - 1]));
  }

  /** A null element at the end is not an element. */
  ghost function WithoutLastNull(es: seq<Element>): seq<Element> {
    if es != [] && es[|es| - 1].Null? then es[..|es| - 1] else es
  }

  lemma EntriesOfCut(es: seq<Element>)
    requires es != []
    ensures Entries(WithoutTail(WithoutLead(es))) == Entries(es)
    ensures var last := WithoutTail(WithoutLead(es))[|es| - 1]; last.Null? == es[|es| - 1].Null? && (last.Null? ==> last == Null(""))
  {
  }

  lemma FinishElement(list: seq<string>, e: Element)
    requires ValidElement(e) && (e.Null? ==> e == Null(""))
    ensures Finish(Scan(list, ElementScanned(e), false, false)) == if e.Null? then list else list + [Entry(e)]
  {
    TrimElement(e);
    if e.Of? {
      ItemIsTight(e.param);
    }
  }

  lemma EntriesSnoc(es: seq<Element>)
    requires es != []
    ensures Entries(es[..|es| - 1]) == Entries(es)[..|es| - 1]
    ensures Entries(es) == Entries(es[..|es| - 1]) + [Entry(es[|es| - 1])]
  {
  }

  /**
   Scanning a printed list delivers its elements one by one and in order: the parameters, and an
   empty text for every null element but one at the end.
   */
  lemma ListRoundTrip(es: seq<Element>)
    requires ValidElements(es)
    ensures HeaderList(Trim(Print(es))) == Entries(WithoutLastNull(es))
  {
    if es != [] {
      var cut := WithoutTail(WithoutLead(es));
      TrimPrint(es);
      CutsAreValid(es);
      CutsAreValid(WithoutLead(es));
      ScanPrint([], cut);
      assert [] + Entries(cut[..|cut| - 1]) == Entries(cut[..|cut| - 1]);
      assert cut[|cut| - 1] in cut;
      FinishElement(Entries(cut[..|cut| - 1]), cut[|cut| - 1]);
      EntriesOfCut(es);
      EntriesSnoc(cut);
      EntriesSnoc(es);
    }
  }
}
