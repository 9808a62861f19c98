/**
 The line-counting writer of dev/src-expose/snapshot.go, which puts a prefix before every line
 of a stream that arrives in arbitrary pieces, over a sink that may fail part way.
 */
module LineCount {
  import opened Sequences

  type Byte = b: int | 0 <= b < 256
  type Bytes = seq<Byte>

  const NEWLINE: Byte := 10

  // ----- Specification, byte by byte -----

  /** The stream with `prefix` before every line; `inline` says a line has already begun. */
  ghost function Rendered(prefix: Bytes, inline: bool, s: Bytes): Bytes
    decreases |s|
  {
    if s == [] then []
    else (if inline then [] else prefix) + [s[0]] + Rendered(prefix, s[0] != NEWLINE, s[1..])
  }

  ghost predicate Inline(inline: bool, s: Bytes) {
    if s == [] then inline else s[|s| - 1] != NEWLINE
  }

  /** The number of lines that begin in the stream. */
  ghost function Lines(inline: bool, s: Bytes): nat
    decreases |s|
  {
    if s == [] then 0 else (if inline then 0 else 1) + Lines(s[0] != NEWLINE, s[1..])
  }

  /** How many bytes of the stream are among the first `k` bytes rendered. */
  ghost function Carried(prefix: Bytes, inline: bool, s: Bytes, k: nat): (n: nat)
    ensures n <= |s|
    decreases |s|
  {
    if s == [] then 0
    else
      var p := if inline then 0 else |prefix|;
      if k <= p then 0 else 1 + Carried(prefix, s[0] != NEWLINE, s[1..], k - p - 1)
  }

  // ----- Pieces compose -----

  lemma {:induction false} RenderedConcat(prefix: Bytes, inline: bool, a: Bytes, b: Bytes)
    ensures Rendered(prefix, inline, a + b) == Rendered(prefix, inline, a) + Rendered(prefix, Inline(inline, a), b)
    decreases |a|
  {
    if a == [] {
      assert a + b == b;
    } else {
      assert (a + b)[1..] == a[1..] + b;
      RenderedConcat(prefix, a[0] != NEWLINE, a[1..], b);
    }
  }

  lemma {:induction false} LinesConcat(inline: bool, a: Bytes, b: Bytes)
    ensures Lines(inline, a + b) == Lines(inline, a) + Lines(Inline(inline, a), b)
    decreases |a|
  {
    if a == [] {
      assert a + b == b;
    } else {
      assert (a + b)[1..] == a[1..] + b;
      LinesConcat(a[0] != NEWLINE, a[1..], b);
    }
  }

  lemma {:induction false} CarriedConcat(prefix: Bytes, inline: bool, a: Bytes, b: Bytes, k: nat)
    requires k >= |Rendered(prefix, inline, a)|
    ensures Carried(prefix, inline, a + b, k) ==
            |a| + Carried(prefix, Inline(inline, a), b, k - |Rendered(prefix, inline, a)|)
    decreases |a|
  {
    if a == [] {
      assert a + b == b;
    } else {
      assert (a + b)[1..] == a[1..] + b;
      CarriedConcat(prefix, a[0] != NEWLINE, a[1..], b, k - (if inline then 0 else |prefix|) - 1);
    }
  }

  /** What is carried is the longest beginning of the stream whose rendering fits. */
  lemma {:induction false} CarriedIsMost(prefix: Bytes, inline: bool, s: Bytes, k: nat)
    ensures var n := Carried(prefix, inline, s, k);
            && |Rendered(prefix, inline, s[..n])| <= k
            && (n < |s| ==> |Rendered(prefix, inline, s[..n + 1])| > k)
    decreases |s|
  {
    if s != [] {
      var p := if inline then 0 else |prefix|;
      var n := Carried(prefix, inline, s, k);
      if k > p {
        CarriedIsMost(prefix, s[0] != NEWLINE, s[1..], k - p - 1);
        RenderedFirst(prefix, inline, s[..n]);
        assert s[..n][1..] == s[1..][..n - 1];
        if n < |s| {
          RenderedFirst(prefix, inline, s[..n + 1]);
          assert s[..n + 1][1..] == s[1..][..n];
        }
      } else {
        RenderedFirst(prefix, inline, s[..1]);
      }
    }
  }

  lemma RenderedFirst(prefix: Bytes, inline: bool, s: Bytes)
    requires s != []
    ensures |Rendered(prefix, inline, s)| ==
            (if inline then 0 else |prefix|) + 1 + |Rendered(prefix, s[0] != NEWLINE, s[1..])|
  {
  }

  /** With the prefix `> `, the two lines `a` and `b` of which the second does not end. */
  lemma RenderExample()
    ensures Rendered([62, 32], false, [97, 10, 98]) == [62, 32, 97, 10, 62, 32, 98]
  {
    var s: Bytes := [97, 10, 98];
    assert s[1..] == [10, 98] && s[1..][1..] == [98] && s[1..][1..][1..] == [];
    assert Rendered([62, 32], false, [98]) == [62, 32, 98];
    assert Rendered([62, 32], true, [10, 98]) == [10, 62, 32, 98];
  }

  lemma {:induction false} RestOfLine(prefix: Bytes, part: Bytes)
    requires part != [] && NEWLINE !in part[..|part| - 1]
    ensures Rendered(prefix, true, part) == part
    ensures Lines(true, part) == 0
    decreases |part|
  {
    var rest := part[1..];
    assert part == [part[0]] + rest;
    if rest != [] {
      assert part[0] == part[..|part| - 1][0];
      assert rest[..|rest| - 1] == part[..|part| - 1][1..];
      RestOfLine(prefix, rest);
    }
  }

  /** A piece without a newline before its end is one line or part of one. */
  lemma OneLine(prefix: Bytes, inline: bool, part: Bytes)
    requires part != [] && NEWLINE !in part[..|part| - 1]
    ensures Rendered(prefix, inline, part) == (if inline then [] else prefix) + part
    ensures Lines(inline, part) == if inline then 0 else 1
  {
    RestOfLine(prefix, part);
    var rest := Rendered(prefix, part[0] != NEWLINE, part[1..]);
    assert [] + [part[0]] + rest == part;
    if inline {
      assert [] + part == part;
    } else {
      Regroup(prefix, [part[0]], rest);
      assert [part[0]] + rest == part;
    }
  }

  lemma {:induction false} CarriedInOneLine(prefix: Bytes, inline: bool, part: Bytes, rest: Bytes, k: nat)
    requires part != [] && NEWLINE !in part[..|part| - 1]
    requires k < (if inline then 0 else |prefix|) + |part|
    ensures Carried(prefix, inline, part + rest, k) ==
            if inline then k else if k <= |prefix| then 0 else k - |prefix|
    decreases |part|
  {
    assert (part + rest)[0] == part[0] && (part + rest)[1..] == part[1..] + rest;
    var p := if inline then 0 else |prefix|;
    if k > p {
      assert part[0] == part[..|part| - 1][0];
      assert part[1..][..|part| - 2] == part[..|part| - 1][1..];
      CarriedInOneLine(prefix, true, part[1..], rest, k - p - 1);
    }
  }

  ghost predicate IsPart(part: Bytes) {
    part != [] && NEWLINE !in part[..|part| - 1]
  }

  ghost function LeadOf(prefix: Bytes, inline: bool): Bytes {
    if inline then [] else prefix
  }

  /** One part more has been written. */
  lemma PartWritten(prefix: Bytes, inline: bool, done: Bytes, part: Bytes)
    requires IsPart(part)
    ensures Rendered(prefix, inline, done + part) ==
            Rendered(prefix, inline, done) + (LeadOf(prefix, Inline(inline, done)) + part)
    ensures Lines(inline, done + part) == Lines(inline, done) + if Inline(inline, done) then 0 else 1
    ensures Inline(inline, done + part) == (part[|part| - 1] != NEWLINE)
  {
    RenderedConcat(prefix, inline, done, part);
    LinesConcat(inline, done, part);
    OneLine(prefix, Inline(inline, done), part);
  }

  /** The sink and the counters at one moment. */
  datatype Snapshot = Snapshot(data: Bytes, room: int, inline: bool, lines: nat)

  /** After a piece of the stream has been written in full. */
  ghost function Written(prefix: Bytes, s: Snapshot, piece: Bytes): Snapshot {
    var out := Rendered(prefix, s.inline, piece);
    Snapshot(s.data + out, s.room - |out|, Inline(s.inline, piece), s.lines + Lines(s.inline, piece))
  }

  /** After one line or part of a line has been written in full. */
  ghost function PartOn(prefix: Bytes, s: Snapshot, part: Bytes): Snapshot
    requires part != []
  {
    var out := LeadOf(prefix, s.inline) + part;
    Snapshot(s.data + out, s.room - |out|, part[|part| - 1] != NEWLINE, s.lines + if s.inline then 0 else 1)
  }

  lemma WrittenOn(prefix: Bytes, s: Snapshot, done: Bytes, part: Bytes)
    requires IsPart(part)
    ensures Written(prefix, s, done + part) == PartOn(prefix, Written(prefix, s, done), part)
  {
    PartWritten(prefix, s.inline, done, part);
    Regroup(s.data, Rendered(prefix, s.inline, done), LeadOf(prefix, Inline(s.inline, done)) + part);
  }

  lemma StoppedLines(prefix: Bytes, inline: bool, done: Bytes, part: Bytes, rest: Bytes, n: nat)
    requires IsPart(part) && n < |part|
    ensures Lines(inline, (done + part + rest)[..|done| + n + 1]) ==
            Lines(inline, done) + if Inline(inline, done) then 0 else 1
  {
    assert (done + part + rest)[..|done| + n + 1] == done + part[..n + 1];
    assert part[..n + 1][..n] == part[..|part| - 1][..n];
    PartWritten(prefix, inline, done, part[..n + 1]);
  }

  lemma StoppedBytes(prefix: Bytes, inline: bool, done: Bytes, part: Bytes, rest: Bytes, room: nat, k: nat)
    requires var r, out := Rendered(prefix, inline, done), LeadOf(prefix, Inline(inline, done)) + part;
             && Rendered(prefix, inline, done + part) == r + out
             && Rendered(prefix, inline, done + part + rest) ==
                Rendered(prefix, inline, done + part) + Rendered(prefix, Inline(inline, done + part), rest)
             && room == |r| + k && k < |out|
    ensures room < |Rendered(prefix, inline, done + part + rest)|
    ensures Rendered(prefix, inline, done + part + rest)[..room] ==
            Rendered(prefix, inline, done) + (LeadOf(prefix, Inline(inline, done)) + part)[..k]
  {
  }

  /** After a failed write: the line of the first byte not sent had begun, and nothing unsent ends it. */
  ghost predicate BegunOn(prefix: Bytes, inline: bool, sent: Bytes, unsent: Bytes, room: nat) {
    && (Inline(inline, sent) || |Rendered(prefix, inline, sent)| + |prefix| <= room)
    && NEWLINE !in unsent
  }

  lemma NewlineAhead(part: Bytes, rest: Bytes, n: nat)
    requires IsPart(part) && (part[|part| - 1] == NEWLINE || rest == []) && n < |part|
    ensures NEWLINE in part[n..] + rest <==> part[|part| - 1] == NEWLINE
  {
    assert part[n..][|part| - 1 - n] == part[|part| - 1];
    assert forall i :: n <= i < |part| - 1 ==> part[i] == part[..|part| - 1][i];
  }

  lemma InlineWithin(inline: bool, done: Bytes, part: Bytes, n: nat)
    requires IsPart(part) && n < |part|
    ensures Inline(inline, done + part[..n]) <==> n > 0 || Inline(inline, done)
  {
    if n == 0 {
      assert done + part[..0] == done;
    } else {
      assert part[n - 1] == part[..|part| - 1][n - 1];
    }
  }

  lemma SplitWithin(done: Bytes, part: Bytes, rest: Bytes, n: nat)
    requires n < |part|
    ensures (done + part + rest)[..|done| + n] == done + part[..n]
    ensures (done + part + rest)[|done| + n..] == part[n..] + rest
  {
  }

  lemma StoppedInline(prefix: Bytes, inline: bool, done: Bytes, part: Bytes, rest: Bytes, k: nat, n: nat)
    requires IsPart(part) && (part[|part| - 1] == NEWLINE || rest == [])
    requires k < |LeadOf(prefix, Inline(inline, done)) + part|
    requires var lead := |LeadOf(prefix, Inline(inline, done))|; n == if k <= lead then 0 else k - lead
    ensures n < |part|
    ensures BegunOn(prefix, inline, done + part[..n], part[n..] + rest, |Rendered(prefix, inline, done)| + k) ==
            if |LeadOf(prefix, Inline(inline, done))| <= k then part[|part| - 1] != NEWLINE else Inline(inline, done)
  {
    NewlineAhead(part, rest, n);
    InlineWithin(inline, done, part, n);
    if n == 0 {
      assert done + part[..0] == done;
    }
  }

  lemma StoppedWithin(prefix: Bytes, inline: bool, done: Bytes, part: Bytes, rest: Bytes, k: nat, n: nat)
    requires IsPart(part) && (part[|part| - 1] == NEWLINE || rest == [])
    requires k < |LeadOf(prefix, Inline(inline, done)) + part|
    requires var lead := |LeadOf(prefix, Inline(inline, done))|; n == if k <= lead then 0 else k - lead
    ensures var piece, m := done + part + rest, |done| + n;
            && m < |piece|
            && BegunOn(prefix, inline, piece[..m], piece[m..], |Rendered(prefix, inline, done)| + k) ==
               if |LeadOf(prefix, Inline(inline, done))| <= k then part[|part| - 1] != NEWLINE else Inline(inline, done)
  {
    StoppedInline(prefix, inline, done, part, rest, k, n);
    SplitWithin(done, part, rest, n);
  }

  /** After a piece of which `n` bytes got through: the sink is full, and the line of the next byte is counted. */
  ghost function Stopped(prefix: Bytes, s: Snapshot, piece: Bytes, n: nat): Snapshot
    requires 0 <= s.room < |Rendered(prefix, s.inline, piece)| && n < |piece|
  {
    Snapshot(s.data + Rendered(prefix, s.inline, piece)[..s.room], 0,
             BegunOn(prefix, s.inline, piece[..n], piece[n..], s.room), s.lines + Lines(s.inline, piece[..n + 1]))
  }

  /** After a line or part of a line that did not fit. */
  ghost function PartStoppedOn(prefix: Bytes, s: Snapshot, part: Bytes): Snapshot
    requires part != [] && 0 <= s.room < |LeadOf(prefix, s.inline) + part|
  {
    var lead := LeadOf(prefix, s.inline);
    Snapshot(s.data + (lead + part)[..s.room], 0,
             if |lead| <= s.room then part[|part| - 1] != NEWLINE else s.inline, s.lines + if s.inline then 0 else 1)
  }

  ghost function SentOfPart(prefix: Bytes, s: Snapshot): int {
    var lead := |LeadOf(prefix, s.inline)|;
    if s.room <= lead then 0 else s.room - lead
  }

  lemma StoppedData(prefix: Bytes, s: Snapshot, done: Bytes, part: Bytes, rest: Bytes, piece: Bytes)
    requires IsPart(part) && piece == done + part + rest
    requires var w := Written(prefix, s, done); 0 <= w.room < |LeadOf(prefix, w.inline) + part|
    ensures 0 <= s.room < |Rendered(prefix, s.inline, piece)|
    ensures var w := Written(prefix, s, done);
            s.data + Rendered(prefix, s.inline, piece)[..s.room] == w.data + (LeadOf(prefix, w.inline) + part)[..w.room]
  {
    var w := Written(prefix, s, done);
    PartWritten(prefix, s.inline, done, part);
    RenderedConcat(prefix, s.inline, done + part, rest);
    StoppedBytes(prefix, s.inline, done, part, rest, s.room, w.room);
    Regroup(s.data, Rendered(prefix, s.inline, done), (LeadOf(prefix, w.inline) + part)[..w.room]);
  }

  lemma StoppedCount(prefix: Bytes, s: Snapshot, done: Bytes, part: Bytes, rest: Bytes, piece: Bytes)
    requires IsPart(part) && piece == done + part + rest
    requires var w := Written(prefix, s, done); 0 <= w.room < |LeadOf(prefix, w.inline) + part|
    ensures 0 <= s.room && |done| + SentOfPart(prefix, Written(prefix, s, done)) == Carried(prefix, s.inline, piece, s.room)
  {
    Regroup(done, part, rest);
    CarriedConcat(prefix, s.inline, done, part + rest, s.room);
    CarriedInOneLine(prefix, Inline(s.inline, done), part, rest, Written(prefix, s, done).room);
  }

  lemma StoppedInlineOn(prefix: Bytes, s: Snapshot, done: Bytes, part: Bytes, rest: Bytes, piece: Bytes, n: int)
    requires IsPart(part) && (part[|part| - 1] == NEWLINE || rest == []) && piece == done + part + rest
    requires var w := Written(prefix, s, done);
             0 <= w.room < |LeadOf(prefix, w.inline) + part| && n == |done| + SentOfPart(prefix, w)
    ensures 0 <= n < |piece| && 0 <= s.room
    ensures var w := Written(prefix, s, done);
            BegunOn(prefix, s.inline, piece[..n], piece[n..], s.room) ==
            if |LeadOf(prefix, w.inline)| <= w.room then part[|part| - 1] != NEWLINE else w.inline
  {
    var w := Written(prefix, s, done);
    assert s.room == |Rendered(prefix, s.inline, done)| + w.room;
    StoppedWithin(prefix, s.inline, done, part, rest, w.room, n - |done|);
  }

  lemma StoppedLinesOn(prefix: Bytes, s: Snapshot, done: Bytes, part: Bytes, rest: Bytes, piece: Bytes, n: int)
    requires IsPart(part) && piece == done + part + rest && |done| <= n < |done| + |part|
    ensures s.lines + Lines(s.inline, piece[..n + 1]) ==
            Written(prefix, s, done).lines + if Written(prefix, s, done).inline then 0 else 1
  {
    StoppedLines(prefix, s.inline, done, part, rest, n - |done|);
  }

  /** The sink gave up within a part. */
  lemma StoppedOn(prefix: Bytes, s: Snapshot, done: Bytes, part: Bytes, rest: Bytes, piece: Bytes, n: int)
    requires IsPart(part) && (part[|part| - 1] == NEWLINE || rest == []) && piece == done + part + rest
    requires var w := Written(prefix, s, done);
             0 <= w.room < |LeadOf(prefix, w.inline) + part| && n == |done| + SentOfPart(prefix, w)
    ensures 0 <= s.room < |Rendered(prefix, s.inline, piece)| && 0 <= n < |piece|
    ensures n == Carried(prefix, s.inline, piece, s.room)
    ensures Stopped(prefix, s, piece, n) == PartStoppedOn(prefix, Written(prefix, s, done), part)
  {
    StoppedData(prefix, s, done, part, rest, piece);
    StoppedCount(prefix, s, done, part, rest, piece);
    StoppedInlineOn(prefix, s, done, part, rest, piece, n);
    StoppedLinesOn(prefix, s, done, part, rest, piece, n);
  }

  lemma CutInFirst(a: Bytes, b: Bytes, n: nat)
    requires n <= |a|
    ensures (a + b)[..n] == a[..n]
  {
  }

  lemma CutInSecond(a: Bytes, b: Bytes, n: nat)
    requires n <= |b|
    ensures (a + b)[..|a| + n] == a + b[..n]
  {
  }

  // ----- The sink and the writer -----

  /** Takes bytes until its room is used up, then fails after writing what fits. */
  class Sink {
    var data: Bytes
    var room: nat

    constructor (room: nat)
      ensures data == [] && this.room == room
    {
      data, this.room := [], room;
    }

    method Write(p: Bytes) returns (n: nat, ok: bool)
      modifies this
      ensures n == if |p| <= old(room) then |p| else old(room)
      ensures ok <==> |p| <= old(room)
      ensures data == old(data) + p[..n] && room == old(room) - n
    {
      n := if |p| <= room then |p| else room;
      ok := n == |p|;
      data, room := data + p[..n], room - n;
    }
  }

  /** The piece up to and including the first newline, or all of it. */
  method NextPart(b: Bytes) returns (part: Bytes, rest: Bytes)
    requires b != []
    ensures b == part + rest && IsPart(part)
    ensures part[|part| - 1] == NEWLINE || rest == []
  {
    var i := 0;
    while i < |b| && b[i] != NEWLINE
      invariant i <= |b| && NEWLINE !in b[..i]
    {
      i := i + 1;
    }
    var off := if i == |b| then i else i + 1;
    part, rest := b[..off], b[off..];
    assert part[..|part| - 1] == b[..i][..|part| - 1];
  }

  class LineCountWriter {
    const sink: Sink
    const prefix: Bytes
    var inline: bool
    var lines: nat

    constructor (sink: Sink, prefix: Bytes)
      ensures this.sink == sink && this.prefix == prefix && !inline && lines == 0
    {
      this.sink, this.prefix, inline, lines := sink, prefix, false, 0;
    }

    /** What goes before the next byte. */
    ghost function Lead(): Bytes
      reads this
    {
      LeadOf(prefix, inline)
    }

    /** Begins a line unless one has begun. */
    method BeginLine() returns (ok: bool)
      modifies this, sink
      ensures var k := if |old(Lead())| <= old(sink.room) then |old(Lead())| else old(sink.room);
              && (ok <==> k == |old(Lead())|)
              && sink.data == old(sink.data) + old(Lead())[..k]
              && sink.room == old(sink.room) - k
      ensures inline == old(inline) && lines == old(lines) + if inline then 0 else 1
    {
      ok := true;
      if !inline {
        lines := lines + 1;
        var _, written := sink.Write(prefix);
        ok := written;
      } else {
        assert sink.data + Lead()[..0] == sink.data;
      }
    }

    ghost function Now(): Snapshot
      reads this, sink
    {
      Snapshot(sink.data, sink.room, inline, lines)
    }

    /** Writes one line or part of a line; `n` counts the bytes of `part` that got through. */
    method WritePart(part: Bytes) returns (n: nat, ok: bool)
      requires part != []
      modifies this, sink
      ensures ok <==> |old(Lead()) + part| <= old(sink.room)
      ensures ok ==> n == |part| && Now() == PartOn(prefix, old(Now()), part)
      ensures !ok ==> n == SentOfPart(prefix, old(Now())) && Now() == PartStoppedOn(prefix, old(Now()), part)
    {
      n := 0;
      ghost var lead, data := Lead(), sink.data;
      ok := BeginLine();
      if !ok {
        CutInFirst(lead, part, old(sink.room));
        return;
      }
      assert sink.data == data + lead;
      inline := part[|part| - 1] != NEWLINE;
      n, ok := sink.Write(part);
      Regroup(data, lead, part[..n]);
      if ok {
        assert part[..n] == part;
      } else {
        CutInSecond(lead, part, n);
      }
    }

    /**
     Writes a piece of the stream. If the sink has room, the piece is rendered in full. If not, the
     sink holds as much of it as fits, `n` says how many bytes of the piece those are, the line of
     the first byte that did not get through has been counted, and it stays begun only if its
     prefix got through and the piece does not end it.
     */
    method Write(b0: Bytes) returns (n: nat, ok: bool)
      modifies this, sink
      ensures ok <==> |Rendered(prefix, old(inline), b0)| <= old(sink.room)
      ensures ok ==> n == |b0| && Now() == Written(prefix, old(Now()), b0)
      ensures !ok ==>
                && n < |b0| && n == Carried(prefix, old(inline), b0, old(sink.room))
                && Now() == Stopped(prefix, old(Now()), b0, n)
    {
      n, ok := 0, true;
      var b := b0;
      ghost var start, done: Bytes := Now(), [];
      assert Written(prefix, start, done) == start;
      while |b| > 0
        invariant b0 == done + b && n == |done| && ok
        invariant Now() == Written(prefix, start, done)
        decreases |b|
      {
        var part, rest := NextPart(b);
        Regroup(done, part, rest);
        var m;
        m, ok := WritePart(part);
        n := n + m;
        if !ok {
          StoppedOn(prefix, start, done, part, rest, b0, n);
          return;
        }
        WrittenOn(prefix, start, done, part);
        done, b := done + part, rest;
      }
      assert done == b0;
    }

    /** Ends an unfinished line. */
    method Close() returns (ok: bool)
      modifies this, sink
      ensures !inline && lines == old(lines)
      ensures old(inline) ==> (ok <==> old(sink.room) >= 1)
      ensures !old(inline) ==> ok
      ensures sink.data == old(sink.data) + if old(inline) && ok then [NEWLINE] else []
    {
      ok := true;
      if inline {
        inline := false;
        var _, written := sink.Write([NEWLINE]);
        ok := written;
      }
    }
  }

  // ----- Whole streams -----

  ghost function Joined(chunks: seq<Bytes>): Bytes {
    if chunks == [] then [] else Joined(chunks[..|chunks| - 1]) + chunks[|chunks| - 1]
  }

  /** The stream with its last line ended. */
  ghost function Terminated(s: Bytes): Bytes {
    if Inline(false, s) then s + [NEWLINE] else s
  }

  /** What a writer that is closed after the stream has put out. */
  ghost function Output(prefix: Bytes, s: Bytes): Bytes {
    Rendered(prefix, false, Terminated(s))
  }

  lemma ClosingNewline(prefix: Bytes, s: Bytes)
    ensures Output(prefix, s) == Rendered(prefix, false, s) + if Inline(false, s) then [NEWLINE] else []
  {
    if Inline(false, s) {
      RenderedConcat(prefix, false, s, [NEWLINE]);
    }
  }

  lemma {:induction false} JoinedPrefix(chunks: seq<Bytes>, n: nat)
    requires n <= |chunks|
    ensures Joined(chunks[..n]) <= Joined(chunks)
    decreases |chunks| - n
  {
    if n < |chunks| {
      JoinedPrefix(chunks, n + 1);
      assert chunks[..n + 1][..n] == chunks[..n];
    } else {
      assert chunks[..n] == chunks;
    }
  }

  /** One chunk more. */
  lemma ChunkJoins(prefix: Bytes, chunks: seq<Bytes>, i: nat)
    requires i < |chunks|
    ensures var before := Joined(chunks[..i]);
            && Joined(chunks[..i + 1]) == before + chunks[i]
            && Rendered(prefix, false, Joined(chunks[..i + 1])) ==
               Rendered(prefix, false, before) + Rendered(prefix, Inline(false, before), chunks[i])
            && Lines(false, Joined(chunks[..i + 1])) == Lines(false, before) + Lines(Inline(false, before), chunks[i])
            && Inline(false, Joined(chunks[..i + 1])) == Inline(Inline(false, before), chunks[i])
  {
    assert chunks[..i + 1][..i] == chunks[..i];
    RenderedConcat(prefix, false, Joined(chunks[..i]), chunks[i]);
    LinesConcat(false, Joined(chunks[..i]), chunks[i]);
  }

  /** What has been rendered is a beginning of the whole output. */
  lemma RenderedSoFar(prefix: Bytes, chunks: seq<Bytes>, i: nat)
    requires i <= |chunks|
    ensures Rendered(prefix, false, Joined(chunks[..i])) <= Output(prefix, Joined(chunks))
  {
    var a, s := Joined(chunks[..i]), Joined(chunks);
    JoinedPrefix(chunks, i);
    assert s == a + s[|a|..];
    RenderedConcat(prefix, false, a, s[|a|..]);
    ClosingNewline(prefix, s);
  }

  /** A chunk the sink has no room for leaves it with a beginning of the whole output. */
  lemma ChunkStops(prefix: Bytes, chunks: seq<Bytes>, i: nat, room: nat, out: Bytes)
    requires i < |chunks|
    requires var r := Rendered(prefix, false, Joined(chunks[..i]));
             var more := Rendered(prefix, Inline(false, Joined(chunks[..i])), chunks[i]);
             |r| <= room < |r| + |more| && out == r + more[..room - |r|]
    ensures room < |Output(prefix, Joined(chunks))|
    ensures out <= Output(prefix, Joined(chunks))
  {
    ChunkJoins(prefix, chunks, i);
    RenderedSoFar(prefix, chunks, i + 1);
  }

  /**
   The stream in pieces, as a command's output arrives, then the close. If the sink takes it all,
   output and line count depend on the stream alone and not on how it was cut; if not, the sink
   holds a beginning of that output.
   */
  method WriteAll(chunks: seq<Bytes>, prefix: Bytes, room: nat) returns (out: Bytes, lines: nat, ok: bool)
    ensures ok <==> |Output(prefix, Joined(chunks))| <= room
    ensures ok ==> out == Output(prefix, Joined(chunks)) && lines == Lines(false, Joined(chunks))
    ensures out <= Output(prefix, Joined(chunks))
  {
    var sink := new Sink(room);
    var w := new LineCountWriter(sink, prefix);
    for i := 0 to |chunks|
      invariant fresh(sink) && fresh(w) && w.sink == sink && w.prefix == prefix
      invariant sink.data == Rendered(prefix, false, Joined(chunks[..i]))
      invariant sink.room + |sink.data| == room
      invariant w.inline == Inline(false, Joined(chunks[..i]))
      invariant w.lines == Lines(false, Joined(chunks[..i]))
    {
      ChunkJoins(prefix, chunks, i);
      var _, written := w.Write(chunks[i]);
      if !written {
        ChunkStops(prefix, chunks, i, room, sink.data);
        return sink.data, w.lines, false;
      }
    }
    assert chunks[..|chunks|] == chunks;
    ClosingNewline(prefix, Joined(chunks));
    ok := w.Close();
    out, lines := sink.data, w.lines;
  }

  // ----- What the output and the count mean -----

  /** Takes `k` bytes off the beginning of every line. */
  ghost function Strip(k: nat, atStart: bool, out: Bytes): Bytes
    decreases |out|, atStart
  {
    if out == [] then []
    else if atStart then if |out| < k then [] else Strip(k, false, out[k..])
    else [out[0]] + Strip(k, out[0] == NEWLINE, out[1..])
  }

  lemma StripLead(prefix: Bytes, inline: bool, body: Bytes)
    requires body != []
    ensures Strip(|prefix|, !inline, LeadOf(prefix, inline) + body) == Strip(|prefix|, false, body)
  {
    if inline {
      assert LeadOf(prefix, inline) + body == body;
    } else {
      assert (prefix + body)[|prefix|..] == body;
    }
  }

  /** Taking the prefix off each line gives the stream back. */
  lemma {:induction false} StripUndoesRendering(prefix: Bytes, inline: bool, s: Bytes)
    ensures Strip(|prefix|, !inline, Rendered(prefix, inline, s)) == s
    decreases |s|
  {
    if s != [] {
      var rest := Rendered(prefix, s[0] != NEWLINE, s[1..]);
      var body := [s[0]] + rest;
      StripUndoesRendering(prefix, s[0] != NEWLINE, s[1..]);
      assert body[1..] == rest;
      Regroup(LeadOf(prefix, inline), [s[0]], rest);
      StripLead(prefix, inline, body);
    }
  }

  /** So the closed output determines the stream, up to a missing last newline. */
  lemma OutputDeterminesStream(prefix: Bytes, s: Bytes)
    ensures Strip(|prefix|, true, Output(prefix, s)) == Terminated(s)
  {
    StripUndoesRendering(prefix, false, Terminated(s));
  }

  ghost function Newlines(s: Bytes): nat {
    if s == [] then 0 else (if s[0] == NEWLINE then 1 else 0) + Newlines(s[1..])
  }

  /** The count is the number of newlines, and one for a line that began before or did not end. */
  lemma {:induction false} LinesAreNewlines(inline: bool, s: Bytes)
    ensures Lines(inline, s) + (if inline then 1 else 0) == Newlines(s) + if Inline(inline, s) then 1 else 0
    decreases |s|
  {
    if s != [] {
      LinesAreNewlines(s[0] != NEWLINE, s[1..]);
    }
  }

  /** No lines means no output at all, which is what "nothing changed" is concluded from. */
  lemma NoLinesMeansNothing(s: Bytes)
    ensures Lines(false, s) == 0 <==> s == []
    ensures Lines(false, s) == Newlines(s) + if s != [] && s[|s| - 1] != NEWLINE then 1 else 0
  {
  }
}
