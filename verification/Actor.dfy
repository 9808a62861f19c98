/**
 Actors and how they travel between services: HTTP headers (internal/actor/http.go) and gRPC
 metadata (internal/actor/grpc.go). A context is the actor it carries, if any; header and
 metadata values arrive as they were sent.
 */
module Actor {
  import opened Decimal
  import opened Optional

  const UID_KEY := "X-Sourcegraph-Actor-UID"
  const ANONYMOUS_KEY := "X-Sourcegraph-Actor-Anonymous-UID"
  const INTERNAL := "internal"
  const NO_ACTOR := "none"

  datatype Actor = Actor(
    uid: Int32,
    anonymousUID: string,
    internal: bool,
    sourcegraphOperator: bool,
    fromSessionCookie: bool,
    mockUser: bool)

  const EMPTY := Actor(0, "", false, false, false, false)

  type Context = Option<Actor>

  function FromUser(uid: Int32): Actor {
    EMPTY.(uid := uid)
  }

  function FromAnonymousUser(anonymousUID: string): Actor {
    EMPTY.(anonymousUID := anonymousUID)
  }

  const INTERNAL_ACTOR := EMPTY.(internal := true)

  predicate IsAuthenticated(a: Actor) {
    a.uid != 0
  }

  function FromContext(ctx: Context): Actor {
    if ctx.Some? then ctx.value else EMPTY
  }

  function WithActor(ctx: Context, a: Actor): Context {
    Some(a)
  }

  // ----- HTTP -----

  type Header = map<string, string>

  function Get(h: Header, key: string): string {
    if key in h then h[key] else ""
  }

  /** The headers of an outgoing request, given those it already had. */
  function Outgoing(a: Actor, h: Header): Header {
    if a.internal then h[UID_KEY := INTERNAL]
    else if IsAuthenticated(a) then h[UID_KEY := Itoa(a.uid)]
    else
      var h' := h[UID_KEY := NO_ACTOR];
      if a.anonymousUID != "" then h'[ANONYMOUS_KEY := a.anonymousUID] else h'
  }

  datatype Incoming = Served(ctx: Context) | Forbidden

  /** What the handler behind the middleware is served with. */
  function Middleware(ctx: Context, h: Header): Incoming {
    var uidStr := Get(h, UID_KEY);
    if uidStr == INTERNAL then Served(WithActor(ctx, INTERNAL_ACTOR))
    else if uidStr == "" || uidStr == NO_ACTOR then
      var anonymousUID := Get(h, ANONYMOUS_KEY);
      Served(if anonymousUID != "" then WithActor(ctx, FromAnonymousUser(anonymousUID)) else ctx)
    else
      match Atoi(uidStr)
      case None => Forbidden
      case Some(uid) => Served(WithActor(ctx, FromUser(ToInt32(uid))))
  }

  /**
   What a receiver makes of a request sent for `a`: it is served, and with the normal form of `a`
   exactly if there is an actor, or neither an anonymous ID in the request before nor an actor at
   the receiver.
   */
  ghost predicate Delivered(a: Actor, before: Header, receiver: Context, got: Incoming) {
    && got.Served?
    && (FromContext(got.ctx) == Normal(a) <==>
        Normal(a) != EMPTY || (Get(before, ANONYMOUS_KEY) == "" && FromContext(receiver) == EMPTY))
  }

  class Request {
    var header: Header
    const ctx: Context

    constructor (header: Header, ctx: Context)
      ensures this.header == header && this.ctx == ctx
    {
      this.header, this.ctx := header, ctx;
    }

    method Set(key: string, value: string)
      modifies this
      ensures header == old(header)[key := value]
    {
      header := header[key := value];
    }

    /**
     What the transport does to a request before sending it: it touches no header but its two, and
     every receiver gets the normal form of the actor, unless there is none and the request already
     carried an anonymous ID or the receiver an actor of its own.
     */
    method RoundTrip()
      modifies this
      ensures forall k :: k != UID_KEY && k != ANONYMOUS_KEY ==>
                (k in header <==> k in old(header)) && (k in header ==> header[k] == old(header)[k])
      ensures UID_KEY == "X-Sourcegraph-Actor-UID" && ANONYMOUS_KEY == "X-Sourcegraph-Actor-Anonymous-UID"
      ensures var a := FromContext(ctx);
              && Get(header, UID_KEY) == (if a.internal then "internal" else if a.uid != 0 then Itoa(a.uid) else "none")
              && Get(header, ANONYMOUS_KEY) ==
                 if !a.internal && a.uid == 0 && a.anonymousUID != "" then a.anonymousUID else Get(old(header), ANONYMOUS_KEY)
      ensures forall receiver :: Delivered(FromContext(ctx), old(header), receiver, Middleware(receiver, header))
    {
      var actor := FromContext(ctx);
      if actor.internal {
        Set(UID_KEY, INTERNAL);
      } else if IsAuthenticated(actor) {
        Set(UID_KEY, Itoa(actor.uid));
      } else {
        Set(UID_KEY, NO_ACTOR);
        if actor.anonymousUID != "" {
          Set(ANONYMOUS_KEY, actor.anonymousUID);
        }
      }
      forall receiver
        ensures Delivered(actor, old(header), receiver, Middleware(receiver, header))
      {
        HTTPHopExactlyWhen(actor, old(header), receiver);
      }
    }
  }

  // ----- gRPC -----

  type Metadata = map<string, seq<string>>

  function Values(md: Metadata, key: string): seq<string> {
    if key in md then md[key] else []
  }

  function Append(md: Metadata, key: string, value: string): Metadata {
    md[key := Values(md, key) + [value]]
  }

  function Propagate(ctx: Context): Metadata {
    var a := FromContext(ctx);
    if a.internal then map[UID_KEY := [INTERNAL]]
    else if IsAuthenticated(a) then map[UID_KEY := [Itoa(a.uid)]]
    else
      var md := map[UID_KEY := [NO_ACTOR]];
      if a.anonymousUID != "" then Append(md, ANONYMOUS_KEY, a.anonymousUID) else md
  }

  function Inject(ctx: Context, md: Metadata): Context {
    var vals := Values(md, UID_KEY);
    var uidStr := if |vals| > 0 then vals[0] else "";
    if uidStr == INTERNAL then WithActor(ctx, INTERNAL_ACTOR)
    else if uidStr == "" || uidStr == NO_ACTOR then
      var anonymous := Values(md, ANONYMOUS_KEY);
      if |anonymous| > 0 then WithActor(ctx, FromAnonymousUser(anonymous[0])) else ctx
    else
      match Atoi(uidStr)
      case None => ctx
      case Some(uid) => WithActor(ctx, FromUser(ToInt32(uid)))
  }

  // ----- The normal form of an actor -----

  /** What of an actor can be propagated: internal, else the user, else the anonymous user, else nothing. */
  function Normal(a: Actor): Actor {
    if a.internal then INTERNAL_ACTOR
    else if a.uid != 0 then FromUser(a.uid)
    else if a.anonymousUID != "" then FromAnonymousUser(a.anonymousUID)
    else EMPTY
  }

  ghost predicate AtMostOneSet(a: Actor) {
    && !(a.internal && a.uid != 0)
    && !(a.internal && a.anonymousUID != "")
    && !(a.uid != 0 && a.anonymousUID != "")
  }

  /** The user ID survives the wire and is never mistaken for a keyword. */
  lemma UIDSurvives(uid: Int32)
    ensures var s := Itoa(uid);
            s != "" && s != INTERNAL && s != NO_ACTOR && Atoi(s) == Some(uid) && ToInt32(uid) == uid
  {
    ItoaRoundTrip(uid);
    Int32IsFixed(uid);
  }

  /**
   One HTTP hop, from any request and into any context, delivers the normal form, except that a
   missing actor is told apart only if nobody else has left one: a stale anonymous header on the
   request, or an actor already in the receiving context.
   */
  lemma HTTPHopExactlyWhen(a: Actor, h: Header, ctx: Context)
    ensures Delivered(a, h, ctx, Middleware(ctx, Outgoing(a, h)))
  {
    UIDSurvives(a.uid);
  }

  /** A request that already carries an anonymous ID makes that user of nobody. */
  lemma StaleAnonymousHeader(id: string)
    requires id != ""
    ensures Middleware(None, Outgoing(EMPTY, map[ANONYMOUS_KEY := id])) == Served(Some(FromAnonymousUser(id)))
  {
  }

  /** The same for a gRPC hop, whose metadata is always new. */
  lemma GRPCHopExactlyWhen(a: Actor, ctx: Context)
    ensures FromContext(Inject(ctx, Propagate(Some(a)))) == Normal(a) <==>
            Normal(a) != EMPTY || FromContext(ctx) == EMPTY
  {
    UIDSurvives(a.uid);
  }

  /** Both encoders put the same values on the wire. */
  lemma EncodersAgree(a: Actor, key: string)
    ensures Values(Propagate(Some(a)), key) == if key in Outgoing(a, map[]) then [Outgoing(a, map[])[key]] else []
  {
  }

  // ----- Chains of hops -----

  datatype Hop = HTTP | GRPC

  /** The context after one hop with a new request into a new context. */
  function OneHop(ctx: Context, hop: Hop): Incoming {
    match hop
    case HTTP => Middleware(None, Outgoing(FromContext(ctx), map[]))
    case GRPC => Served(Inject(None, Propagate(ctx)))
  }

  function Hops(ctx: Context, hops: seq<Hop>): Incoming
    decreases |hops|
  {
    if hops == [] then Served(ctx)
    else
      match OneHop(ctx, hops[0])
      case Forbidden => Forbidden
      case Served(next) => Hops(next, hops[1..])
  }

  lemma NormalIsFixed(a: Actor)
    ensures AtMostOneSet(Normal(a)) && Normal(Normal(a)) == Normal(a)
  {
  }

  lemma OneHopNormalizes(ctx: Context, hop: Hop)
    ensures OneHop(ctx, hop).Served? && FromContext(OneHop(ctx, hop).ctx) == Normal(FromContext(ctx))
  {
    var a := FromContext(ctx);
    HTTPHopExactlyWhen(a, map[], None);
    GRPCHopExactlyWhen(a, None);
    assert Propagate(ctx) == Propagate(Some(a));
  }

  /** However many hops of either kind an actor travels, its normal form arrives and is never refused. */
  lemma {:induction false} ChainDeliversNormal(ctx: Context, hops: seq<Hop>)
    requires hops != []
    ensures Hops(ctx, hops).Served?
    ensures FromContext(Hops(ctx, hops).ctx) == Normal(FromContext(ctx))
    ensures AtMostOneSet(FromContext(Hops(ctx, hops).ctx))
    decreases |hops|
  {
    OneHopNormalizes(ctx, hops[0]);
    NormalIsFixed(FromContext(ctx));
    if |hops| > 1 {
      ChainDeliversNormal(OneHop(ctx, hops[0]).ctx, hops[1..]);
    }
  }

  // ----- Whether the two decoders work exactly the same -----

  function Single(value: Option<string>): seq<string> {
    if value.Some? then [value.value] else []
  }

  /** The same wire values as headers and as metadata. */
  function AsHeader(uid: Option<string>, anonymous: Option<string>): Header {
    var h: Header := if uid.Some? then map[UID_KEY := uid.value] else map[];
    if anonymous.Some? then h[ANONYMOUS_KEY := anonymous.value] else h
  }

  function AsMetadata(uid: Option<string>, anonymous: Option<string>): Metadata {
    map[UID_KEY := Single(uid), ANONYMOUS_KEY := Single(anonymous)]
  }

  ghost predicate SaysNoActor(uid: Option<string>) {
    uid.None? || uid.value == "" || uid.value == NO_ACTOR
  }

  ghost predicate SaysInvalid(uid: Option<string>) {
    !SaysNoActor(uid) && uid.value != INTERNAL && Atoi(uid.value).None?
  }

  /**
   Given the same values in the same context, HTTP and gRPC arrive at the same actor exactly if
   the user ID is not an invalid one, which HTTP refuses and gRPC ignores, and an empty anonymous
   ID is not sent into a context with an actor, which gRPC replaces and HTTP keeps.
   */
  lemma DecodersAgreeExactlyWhen(ctx: Context, uid: Option<string>, anonymous: Option<string>)
    ensures var http := Middleware(ctx, AsHeader(uid, anonymous));
            var grpc := Inject(ctx, AsMetadata(uid, anonymous));
            (http.Served? && FromContext(http.ctx) == FromContext(grpc)) <==>
            !SaysInvalid(uid) && !(SaysNoActor(uid) && anonymous == Some("") && FromContext(ctx) != EMPTY)
  {
  }

  ghost function First(values: seq<string>): Option<string> {
    if values == [] then None else Some(values[0])
  }

  /** Of a metadata key sent several times, only the first value counts. */
  lemma OnlyFirstValueCounts(ctx: Context, md: Metadata)
    ensures Inject(ctx, md) == Inject(ctx, AsMetadata(First(Values(md, UID_KEY)), First(Values(md, ANONYMOUS_KEY))))
  {
  }

  /** HTTP refuses a user ID that is not a number where gRPC keeps the context as it is. */
  lemma InvalidUIDExample(ctx: Context)
    ensures Middleware(ctx, AsHeader(Some("x"), None)) == Forbidden
    ensures Inject(ctx, AsMetadata(Some("x"), None)) == ctx
  {
    assert !IsDigit('x');
    assert 'x' in "x" && !AllDigits("x");
  }

  /** An empty anonymous ID takes the user out of a context over gRPC, and leaves it in over HTTP. */
  lemma EmptyAnonymousExample()
    ensures Middleware(Some(FromUser(1)), AsHeader(None, Some(""))) == Served(Some(FromUser(1)))
    ensures FromContext(Inject(Some(FromUser(1)), AsMetadata(None, Some("")))) == EMPTY
  {
  }

  // ----- Numbers that are no user ID -----

  ghost predicate InInt32(n: int) {
    -TWO_31 <= n < TWO_31
  }

  lemma NumeralIsNoKeyword(uid: string, n: int)
    requires Atoi(uid) == Some(n)
    ensures uid != "" && uid != INTERNAL && uid != NO_ACTOR
  {
    assert 'i' in INTERNAL && 'n' in NO_ACTOR && !IsDigit('i') && !IsDigit('n');
    assert INTERNAL[0] == 'i' && NO_ACTOR[0] == 'n';
    assert Atoi("") == None;
  }

  /**
   Any numeral of a 64-bit integer is accepted as a user ID, by both decoders alike. The user
   served has the number written exactly if it lies in int32; otherwise it is another one.
   */
  lemma NumeralServedExactlyWhen(ctx: Context, uid: string, n: int)
    requires Atoi(uid) == Some(n)
    ensures Middleware(ctx, AsHeader(Some(uid), None)).Served?
    ensures var http := FromContext(Middleware(ctx, AsHeader(Some(uid), None)).ctx);
            var grpc := FromContext(Inject(ctx, AsMetadata(Some(uid), None)));
            http == grpc == FromUser(ToInt32(n)) && (http.uid == n <==> InInt32(n))
  {
    NumeralIsNoKeyword(uid, n);
  }

  /** The numeral 4294967297 is accepted and served as user 1. */
  lemma NumeralWraps(ctx: Context)
    ensures Middleware(ctx, AsHeader(Some("4294967297"), None)) == Served(Some(FromUser(1)))
    ensures Inject(ctx, AsMetadata(Some("4294967297"), None)) == Some(FromUser(1))
  {
    ReadPastInt32();
    NumeralServedExactlyWhen(ctx, "4294967297", 4294967297);
  }
}
