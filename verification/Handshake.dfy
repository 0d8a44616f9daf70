/** Two endpoints that exchange <hello> messages in end-of-message framing and then switch to the
    negotiated framing (src/session.c:1394-1556), as a step system over the bytes of both directions. */
module Handshake {
  import opened Bytes
  import opened Framing
  import opened Hello
  import opened Matcher
  import opened Negotiation
  import opened Runs
  import opened Sequences
  import opened Writer

  /** A message as it was written: the framing used and the blocks it was cut into. */
  datatype Sent = Sent(version: Version, chunks: seq<string>) {
    function Text(): string {
      Concat(chunks)
    }

    function Wire(): string {
      Frame(version, chunks)
    }
  }

  datatype Endpoint = Endpoint(
    library: bool,         // chooses the version as this library does, otherwise as RFC 6241 asks
    caps: seq<string>,     // capabilities it offers
    sid: Option<nat>,      // session-id, on the server
    version: Version,      // session->version
    outbox: string,        // bytes of the message being written that the transport has not taken yet
    sent: seq<Sent>,       // messages written, the <hello> first
    got: seq<string>)      // messages read, the peer's <hello> first

  /** `ab` and `ba` are the bytes under way in each direction. */
  datatype State = State(a: Endpoint, b: Endpoint, ab: string, ba: string)

  /** session->version after the peer's <hello>; `None` when the <hello> is refused. */
  function Negotiated(caps: seq<string>): Option<Version> {
    var entries := TrimAll(caps);
    var ver := VersionOf(entries);
    if "" in entries || ver < 0 then None else Some(if ver == 1 then V11 else V10)
  }

  /** What parse_cpblts() gives for the capabilities of a <hello>. */
  method ParseOffer(caps: seq<string>) returns (version: Option<Version>, list: seq<string>)
    ensures version == Negotiated(caps)
    ensures version.Some? ==> list == TrimAll(caps)
  {
    var elems := seq(|caps|, i requires 0 <= i < |caps| => Element(true, caps[i]));
    var ver;
    ver, list := ParseCpblts(elems);
    assert Values(elems) == caps;
    AcceptedAll(elems);
    version := if ver < 0 then None else Some(if ver == 1 then V11 else V10);
  }

  /** The highest base capability in both offers (section 8.1 of RFC 6241). */
  function Highest(own: seq<string>, other: seq<string>): Option<Version> {
    if BASE_11 in TrimAll(own) && BASE_11 in TrimAll(other) then Some(V11)
    else if BASE_10 in TrimAll(own) && BASE_10 in TrimAll(other) then Some(V10)
    else None
  }

  /** The version an endpoint chooses when it is offered `caps`; `None` when it refuses them. */
  function Chosen(x: Endpoint, caps: seq<string>): Option<Version> {
    if x.library then Negotiated(caps) else Highest(x.caps, caps)
  }

  /** nc_send_hello_io(): the first thing an endpoint writes. */
  ghost predicate SendHello(x: Endpoint, x': Endpoint, chunks: seq<string>) {
    && x.sent == [] && x.outbox == "" && x.version == V10
    && ValidChunks(chunks) && Concat(chunks) == Texts(HelloParts(x.caps, x.sid))
    && x' == x.(outbox := Frame(V10, chunks), sent := [Sent(V10, chunks)])
  }

  /** The transport takes some bytes of the message being written. */
  ghost predicate Transmit(x: Endpoint, x': Endpoint, xy: string, xy': string, n: nat) {
    && n <= |x.outbox|
    && xy' == xy + x.outbox[..n]
    && x' == x.(outbox := x.outbox[n..])
  }

  /** nc_recv_client_hello_io() or nc_recv_server_hello_io(), after the own <hello> is out. */
  ghost predicate ReadHello(x: Endpoint, x': Endpoint, yx: string, yx': string) {
    && x.sent != [] && x.outbox == "" && x.got == []
    && var r := ReadMsg(x.version, yx);
    && r.Msg?
    && var hello := ParseHello(r.data);
    && hello.Some? && Chosen(x, hello.value.caps).Some?
    && yx' == yx[r.consumed..]
    && x' == x.(got := [r.data], version := Chosen(x, hello.value.caps).value)
  }

  /** Any later message, cut into blocks in any way. */
  ghost predicate Send(x: Endpoint, x': Endpoint, chunks: seq<string>) {
    && x.got != [] && x.outbox == ""
    && ValidChunks(chunks) && Sendable(x.version, Concat(chunks))
    && x' == x.(outbox := Frame(x.version, chunks), sent := x.sent + [Sent(x.version, chunks)])
  }

  ghost predicate Read(x: Endpoint, x': Endpoint, yx: string, yx': string) {
    && x.got != []
    && var r := ReadMsg(x.version, yx);
    && r.Msg?
    && yx' == yx[r.consumed..]
    && x' == x.(got := x.got + [r.data])
  }

  /** A step of endpoint `x` towards a peer: `xy` are its outgoing bytes, `yx` its incoming ones. */
  ghost predicate EndpointStep(x: Endpoint, x': Endpoint, xy: string, xy': string, yx: string, yx': string) {
    || (xy' == xy && yx' == yx && exists chunks :: SendHello(x, x', chunks))
    || (yx' == yx && exists n: nat :: Transmit(x, x', xy, xy', n))
    || (xy' == xy && ReadHello(x, x', yx, yx'))
    || (xy' == xy && yx' == yx && exists chunks :: Send(x, x', chunks))
    || (xy' == xy && Read(x, x', yx, yx'))
  }

  ghost predicate Step(s: State, s': State) {
    || (s'.b == s.b && EndpointStep(s.a, s'.a, s.ab, s'.ab, s.ba, s'.ba))
    || (s'.a == s.a && EndpointStep(s.b, s'.b, s.ba, s'.ba, s.ab, s'.ab))
  }

  ghost predicate InitEndpoint(x: Endpoint) {
    x.version == V10 && x.outbox == "" && x.sent == [] && x.got == []
  }

  ghost predicate Init(s: State) {
    InitEndpoint(s.a) && InitEndpoint(s.b) && s.ab == "" && s.ba == ""
  }

  ghost predicate Run(run: seq<State>) {
    Path(Step, run) && Init(run[0])
  }

  /** Offered what `y` offers, `x` chooses `v` or refuses. */
  predicate Meets(x: Endpoint, y: Endpoint, v: Version) {
    Chosen(x, y.caps) == None || Chosen(x, y.caps) == Some(v)
  }

  /** Neither side chooses another version than `v`. */
  ghost predicate Agreed(s: State, v: Version) {
    Meets(s.a, s.b, v) && Meets(s.b, s.a, v)
  }

  /** The framing of the `i`-th message an endpoint writes. */
  function FramingOf(i: nat, v: Version): Version {
    if i == 0 then V10 else v
  }

  function SentWire(m: Sent): string {
    m.Wire()
  }

  function Wires(sent: seq<Sent>): string {
    FlatMap(SentWire, sent)
  }

  ghost predicate GoodSent(m: Sent, version: Version) {
    m.version == version && ValidChunks(m.chunks) && Sendable(version, m.Text())
  }

  /** One endpoint on its own. */
  ghost predicate EndpointInv(x: Endpoint, v: Version) {
    && x.version == (if x.got == [] then V10 else v)
    && (forall i :: 0 <= i < |x.sent| ==> GoodSent(x.sent[i], FramingOf(i, v)))
    && (x.sent != [] ==> x.sent[0].Text() == HelloText(x.caps, x.sid))
    && (x.got != [] || x.outbox != "" ==> x.sent != [])
    && (|x.sent| > 1 ==> x.got != [])
  }

  /** One direction: what `y` got are the first messages `x` sent, and the bytes under way together with
      those still to be written are exactly the other messages, each in its own framing. */
  ghost predicate ChannelInv(x: Endpoint, y: Endpoint, xy: string) {
    && |y.got| <= |x.sent|
    && (forall i :: 0 <= i < |y.got| ==> y.got[i] == x.sent[i].Text())
    && xy + x.outbox == Wires(x.sent[|y.got|..])
  }

  ghost predicate Inv(s: State, v: Version) {
    && Agreed(s, v) && EndpointInv(s.a, v) && EndpointInv(s.b, v)
    && ChannelInv(s.a, s.b, s.ab) && ChannelInv(s.b, s.a, s.ba)
  }

  /** Whatever part of the pending messages has arrived, a reader that uses the framing of the first one
      returns that message and leaves the others untouched, or waits; it never sees a bad frame. */
  lemma ReadFirst(version: Version, arrived: string, coming: string, pending: seq<Sent>)
    requires arrived + coming == Wires(pending)
    requires pending != [] ==> GoodSent(pending[0], version)
    ensures var r := ReadMsg(version, arrived);
            && r != BadFrame
            && (r.Msg? ==>
                  && pending != []
                  && r.data == pending[0].Text()
                  && arrived[r.consumed..] + coming == Wires(pending[1..]))
    ensures pending != [] && coming == "" ==> ReadMsg(version, arrived).Msg?
  {
    if pending == [] {
      assert arrived == "";
      assert ReadMsg(version, arrived) == Starved;
    } else {
      WiresCons(pending);
      RoundTrip(version, pending[0].chunks, Wires(pending[1..]));
      ReadPart(version, arrived, coming);
    }
  }

  lemma WiresCons(sent: seq<Sent>)
    requires sent != []
    ensures Wires(sent) == sent[0].Wire() + Wires(sent[1..])
  {
    assert sent == [sent[0]] + sent[1..];
    FlatMapCons(SentWire, sent[0], sent[1..]);
  }

  /** Reading when only a part has arrived: the same message or none yet. */
  lemma ReadPart(version: Version, arrived: string, coming: string)
    requires ReadMsg(version, arrived + coming).Msg?
    ensures var r := ReadMsg(version, arrived);
            var whole := ReadMsg(version, arrived + coming);
            && (r == Starved || r == whole)
            && (coming == "" ==> r == whole)
            && (r.Msg? ==> r.consumed <= |arrived|
                           && arrived[r.consumed..] + coming == (arrived + coming)[r.consumed..])
  {
    if ReadMsg(version, arrived) != Starved {
      ReadLocal(version, arrived, coming);
    }
    if coming == "" {
      assert arrived + coming == arrived;
    }
  }

  /** In every good state the endpoint `y` reads with the framing of the next message `x` sent. */
  lemma ReadNext(x: Endpoint, y: Endpoint, xy: string, v: Version)
    requires EndpointInv(x, v) && EndpointInv(y, v) && ChannelInv(x, y, xy)
    ensures var r := ReadMsg(y.version, xy);
            && r != BadFrame
            && (r.Msg? ==>
                  && |y.got| < |x.sent|
                  && r.data == x.sent[|y.got|].Text()
                  && xy[r.consumed..] + x.outbox == Wires(x.sent[|y.got| + 1..]))
    ensures |y.got| < |x.sent| && x.outbox == "" ==> ReadMsg(y.version, xy).Msg?
  {
    var pending := x.sent[|y.got|..];
    assert pending != [] ==> pending[0] == x.sent[|y.got|] && pending[1..] == x.sent[|y.got| + 1..];
    ReadFirst(y.version, xy, x.outbox, pending);
  }

  /** Writing another message extends what is pending. */
  lemma ChannelSend(x: Endpoint, y: Endpoint, xy: string, x': Endpoint, m: Sent)
    requires ChannelInv(x, y, xy) && x.outbox == ""
    requires x'.sent == x.sent + [m] && x'.outbox == m.Wire()
    ensures ChannelInv(x', y, xy)
  {
    assert x'.sent[|y.got|..] == x.sent[|y.got|..] + [m];
    FlatMapSnoc(SentWire, x.sent[|y.got|..], m);
  }

  lemma ChannelTake(x: Endpoint, y: Endpoint, xy: string, y': Endpoint, left: string)
    requires ChannelInv(x, y, xy) && |y.got| < |x.sent| && y'.got == y.got + [x.sent[|y.got|].Text()]
    requires left + x.outbox == Wires(x.sent[|y.got| + 1..])
    ensures ChannelInv(x, y', left)
  {
  }

  /** Reading a message moves it from pending to got. */
  lemma ChannelRead(x: Endpoint, y: Endpoint, xy: string, y': Endpoint, v: Version)
    requires EndpointInv(x, v) && EndpointInv(y, v) && ChannelInv(x, y, xy)
    requires var r := ReadMsg(y.version, xy); r.Msg? && y'.got == y.got + [r.data]
    ensures ChannelInv(x, y', xy[ReadMsg(y.version, xy).consumed..])
  {
    ReadNext(x, y, xy, v);
    ChannelTake(x, y, xy, y', xy[ReadMsg(y.version, xy).consumed..]);
  }

  /** A message in the right framing joins the ones sent. */
  lemma EndpointSend(x: Endpoint, x': Endpoint, v: Version, m: Sent)
    requires EndpointInv(x, v) && GoodSent(m, FramingOf(|x.sent|, v))
    requires x.sent == [] ==> m.Text() == HelloText(x.caps, x.sid)
    requires x.sent != [] ==> x.got != []
    requires x' == x.(outbox := m.Wire(), sent := x.sent + [m])
    ensures EndpointInv(x', v)
  {
    forall i | 0 <= i < |x'.sent| ensures GoodSent(x'.sent[i], FramingOf(i, v)) {
      assert i < |x.sent| ==> x'.sent[i] == x.sent[i];
    }
  }

  lemma HelloIsGood(x: Endpoint, chunks: seq<string>)
    requires ValidChunks(chunks) && Concat(chunks) == Texts(HelloParts(x.caps, x.sid))
    ensures GoodSent(Sent(V10, chunks), V10) && Concat(chunks) == HelloText(x.caps, x.sid)
  {
    HelloPartsText(x.caps, x.sid);
    HelloIsClean(x.caps, x.sid);
    CleanIsSendable(HelloText(x.caps, x.sid));
  }

  lemma StepHello(x: Endpoint, x': Endpoint, y: Endpoint, xy: string, yx: string, v: Version, chunks: seq<string>)
    requires EndpointInv(x, v) && EndpointInv(y, v) && ChannelInv(x, y, xy) && ChannelInv(y, x, yx)
    requires SendHello(x, x', chunks)
    ensures EndpointInv(x', v) && ChannelInv(x', y, xy) && ChannelInv(y, x', yx)
  {
    HelloIsGood(x, chunks);
    EndpointSend(x, x', v, Sent(V10, chunks));
    ChannelSend(x, y, xy, x', Sent(V10, chunks));
  }

  lemma StepSend(x: Endpoint, x': Endpoint, y: Endpoint, xy: string, yx: string, v: Version, chunks: seq<string>)
    requires EndpointInv(x, v) && EndpointInv(y, v) && ChannelInv(x, y, xy) && ChannelInv(y, x, yx)
    requires Send(x, x', chunks)
    ensures EndpointInv(x', v) && ChannelInv(x', y, xy) && ChannelInv(y, x', yx)
  {
    EndpointSend(x, x', v, Sent(x.version, chunks));
    ChannelSend(x, y, xy, x', Sent(x.version, chunks));
  }

  lemma Conserved(xy: string, outbox: string, n: nat)
    requires n <= |outbox|
    ensures xy + outbox[..n] + outbox[n..] == xy + outbox
  {
  }

  lemma StepTransmit(x: Endpoint, x': Endpoint, y: Endpoint, xy: string, xy': string, yx: string, v: Version, n: nat)
    requires EndpointInv(x, v) && EndpointInv(y, v) && ChannelInv(x, y, xy) && ChannelInv(y, x, yx)
    requires Transmit(x, x', xy, xy', n)
    ensures EndpointInv(x', v) && ChannelInv(x', y, xy') && ChannelInv(y, x', yx)
  {
    Conserved(xy, x.outbox, n);
  }

  /** The version both sides end up with comes from the <hello> that was really sent. */
  lemma StepReadHello(x: Endpoint, x': Endpoint, y: Endpoint, xy: string, yx: string, yx': string, v: Version)
    requires EndpointInv(x, v) && EndpointInv(y, v) && ChannelInv(x, y, xy) && ChannelInv(y, x, yx)
    requires ReadHello(x, x', yx, yx') && Meets(x, y, v)
    ensures EndpointInv(x', v) && ChannelInv(x', y, xy) && ChannelInv(y, x', yx')
  {
    ReadNext(y, x, yx, v);
    ParseHelloText(y.caps, y.sid);
    ChannelRead(y, x, yx, x', v);
  }

  lemma StepRead(x: Endpoint, x': Endpoint, y: Endpoint, xy: string, yx: string, yx': string, v: Version)
    requires EndpointInv(x, v) && EndpointInv(y, v) && ChannelInv(x, y, xy) && ChannelInv(y, x, yx)
    requires Read(x, x', yx, yx')
    ensures EndpointInv(x', v) && ChannelInv(x', y, xy) && ChannelInv(y, x', yx')
  {
    ChannelRead(y, x, yx, x', v);
  }

  lemma EndpointStepKeeps(x: Endpoint, x': Endpoint, y: Endpoint,
                          xy: string, xy': string, yx: string, yx': string, v: Version)
    requires EndpointInv(x, v) && EndpointInv(y, v) && ChannelInv(x, y, xy) && ChannelInv(y, x, yx)
    requires EndpointStep(x, x', xy, xy', yx, yx') && Meets(x, y, v)
    ensures EndpointInv(x', v) && ChannelInv(x', y, xy') && ChannelInv(y, x', yx')
    ensures x'.caps == x.caps && x'.library == x.library
  {
    if xy' == xy && yx' == yx && exists chunks :: SendHello(x, x', chunks) {
      var chunks :| SendHello(x, x', chunks);
      StepHello(x, x', y, xy, yx, v, chunks);
    } else if yx' == yx && exists n: nat :: Transmit(x, x', xy, xy', n) {
      var n: nat :| Transmit(x, x', xy, xy', n);
      StepTransmit(x, x', y, xy, xy', yx, v, n);
    } else if xy' == xy && ReadHello(x, x', yx, yx') {
      StepReadHello(x, x', y, xy, yx, yx', v);
    } else if xy' == xy && yx' == yx && exists chunks :: Send(x, x', chunks) {
      var chunks :| Send(x, x', chunks);
      StepSend(x, x', y, xy, yx, v, chunks);
    } else {
      StepRead(x, x', y, xy, yx, yx', v);
    }
  }

  lemma StepKeeps(s: State, s': State, v: Version)
    requires Inv(s, v) && Step(s, s')
    ensures Inv(s', v)
  {
    if s'.b == s.b && EndpointStep(s.a, s'.a, s.ab, s'.ab, s.ba, s'.ba) {
      EndpointStepKeeps(s.a, s'.a, s.b, s.ab, s'.ab, s.ba, s'.ba, v);
    } else {
      EndpointStepKeeps(s.b, s'.b, s.a, s.ba, s'.ba, s.ab, s'.ab, v);
    }
  }

  lemma {:induction false} RunKeeps(run: seq<State>, v: Version, i: nat)
    requires Run(run) && Agreed(run[0], v) && i < |run|
    ensures Inv(run[i], v)
  {
    if i > 0 {
      RunKeeps(run, v, i - 1);
      LastStep(Step, run, i);
      StepKeeps(run[i - 1], run[i], v);
    }
  }

  /** The messages an endpoint wrote. */
  function TextsOf(sent: seq<Sent>): seq<string> {
    seq(|sent|, i requires 0 <= i < |sent| => sent[i].Text())
  }

  /** One direction works: `y` has read exactly the first messages `x` wrote, in order, <hello> included; not one byte
      of a later message is gone; the reader meets no bad frame; and once a message is out, the reader gets it. */
  ghost predicate Works(x: Endpoint, y: Endpoint, xy: string) {
    && y.got <= TextsOf(x.sent)
    && xy + x.outbox == Wires(x.sent[|y.got|..])
    && ReadMsg(y.version, xy) != BadFrame
    && (x.outbox == "" && |y.got| < |x.sent| ==> ReadMsg(y.version, xy).Msg?)
  }

  /** Framing switch over whole runs: at every point of every interleaving both directions work. */
  lemma FramingSwitch(run: seq<State>, v: Version, i: nat)
    requires Run(run) && Agreed(run[0], v) && i < |run|
    ensures var s := run[i];
            Works(s.a, s.b, s.ab) && Works(s.b, s.a, s.ba)
  {
    RunKeeps(run, v, i);
    var s := run[i];
    ReadNext(s.a, s.b, s.ab, v);
    ReadNext(s.b, s.a, s.ba, v);
  }

  /** Two endpoints of this library agree: whatever other capabilities they offer, base:1.1 leads both to chunked
      framing. */
  lemma LibraryOffersAgree(caps: seq<string>)
    requires BASE_11 in TrimAll(caps) && "" !in TrimAll(caps)
    ensures Negotiated(caps) == Some(V11)
  {
    Base11Wins(TrimAll(caps));
  }

  /** The same state with the sides exchanged. */
  function Swap(s: State): State {
    State(s.b, s.a, s.ba, s.ab)
  }

  lemma SwapStep(s: State, s': State)
    requires Step(s, s')
    ensures Step(Swap(s), Swap(s'))
  {
  }

  lemma SwapLeads(s0: State, s: State)
    requires Leads(Step, s0, s)
    ensures Leads(Step, Swap(s0), Swap(s))
  {
    var run :| Path(Step, run) && run[0] == s0 && run[|run| - 1] == s;
    var run' := seq(|run|, i requires 0 <= i < |run| => Swap(run[i]));
    forall i | 0 <= i < |run'| - 1 ensures Step(run'[i], run'[i + 1]) {
      LastStep(Step, run, i + 1);
      SwapStep(run[i], run[i + 1]);
    }
    assert Path(Step, run') && run'[0] == Swap(s0) && run'[|run'| - 1] == Swap(s);
  }

  /** An endpoint after its <hello> is out. */
  function HelloOut(x: Endpoint): Endpoint {
    x.(sent := [Sent(V10, Singles(HelloText(x.caps, x.sid)))])
  }

  function HelloWire(x: Endpoint): string {
    Frame(V10, Singles(HelloText(x.caps, x.sid)))
  }

  /** An endpoint after it has read the <hello> of `y`. */
  function HelloRead(x: Endpoint, y: Endpoint): Endpoint
    requires Chosen(x, y.caps).Some?
  {
    x.(got := [HelloText(y.caps, y.sid)], version := Chosen(x, y.caps).value)
  }

  lemma SinglesAreHello(x: Endpoint)
    ensures var chunks := Singles(HelloText(x.caps, x.sid));
            ValidChunks(chunks) && Concat(chunks) == Texts(HelloParts(x.caps, x.sid))
  {
    ConcatSingles(HelloText(x.caps, x.sid));
    HelloPartsText(x.caps, x.sid);
  }

  lemma ReachHelloA(s0: State, s: State)
    requires Leads(Step, s0, s) && s.a.sent == [] && s.a.outbox == "" && s.a.version == V10 && s.ab == ""
    ensures Leads(Step, s0, s.(a := HelloOut(s.a), ab := HelloWire(s.a)))
  {
    var chunks, wire := Singles(HelloText(s.a.caps, s.a.sid)), HelloWire(s.a);
    SinglesAreHello(s.a);
    var s1 := s.(a := HelloOut(s.a).(outbox := wire));
    assert SendHello(s.a, s1.a, chunks);
    LeadsNext(Step, s0, s, s1);
    ReachTransmitA(s0, s1);
    assert "" + wire == wire;
  }

  lemma ReachTransmitA(s0: State, s: State)
    requires Leads(Step, s0, s)
    ensures Leads(Step, s0, s.(a := s.a.(outbox := ""), ab := s.ab + s.a.outbox))
  {
    var out := s.a.outbox;
    var s' := s.(a := s.a.(outbox := ""), ab := s.ab + out);
    assert out[..|out|] == out && out[|out|..] == "";
    assert Transmit(s.a, s'.a, s.ab, s'.ab, |out|);
    LeadsNext(Step, s0, s, s');
  }

  lemma ReachReadA(s0: State, s: State, b: Endpoint)
    requires Leads(Step, s0, s) && s.a.sent != [] && s.a.outbox == "" && s.a.got == [] && s.a.version == V10
    requires s.ba == HelloWire(b) && Chosen(s.a, b.caps).Some?
    ensures Leads(Step, s0, s.(a := HelloRead(s.a, b), ba := ""))
  {
    SinglesAreHello(b);
    HelloRoundTrip(b.caps, b.sid, Singles(HelloText(b.caps, b.sid)), "");
    assert HelloWire(b) + "" == HelloWire(b);
    var s' := s.(a := HelloRead(s.a, b), ba := "");
    assert s.ba[|s.ba|..] == "";
    assert ReadHello(s.a, s'.a, s.ba, s'.ba);
    LeadsNext(Step, s0, s, s');
  }

  lemma ReachHelloB(s0: State, s: State)
    requires Leads(Step, s0, s) && s.b.sent == [] && s.b.outbox == "" && s.b.version == V10 && s.ba == ""
    ensures Leads(Step, s0, s.(b := HelloOut(s.b), ba := HelloWire(s.b)))
  {
    SwapLeads(s0, s);
    ReachHelloA(Swap(s0), Swap(s));
    SwapLeads(Swap(s0), Swap(s.(b := HelloOut(s.b), ba := HelloWire(s.b))));
  }

  lemma ReachReadB(s0: State, s: State, a: Endpoint)
    requires Leads(Step, s0, s) && s.b.sent != [] && s.b.outbox == "" && s.b.got == [] && s.b.version == V10
    requires s.ab == HelloWire(a) && Chosen(s.b, a.caps).Some?
    ensures Leads(Step, s0, s.(b := HelloRead(s.b, a), ab := ""))
  {
    SwapLeads(s0, s);
    ReachReadA(Swap(s0), Swap(s), a);
    SwapLeads(Swap(s0), Swap(s.(b := HelloRead(s.b, a), ab := "")));
  }

  /** Both sides have exchanged their <hello> messages. */
  function Greeted(s: State): State
    requires Chosen(s.a, s.b.caps).Some? && Chosen(s.b, s.a.caps).Some?
  {
    State(HelloRead(HelloOut(s.a), s.b), HelloRead(HelloOut(s.b), s.a), "", "")
  }

  lemma ReachGreeted(s: State)
    requires Init(s) && Chosen(s.a, s.b.caps).Some? && Chosen(s.b, s.a.caps).Some?
    ensures Leads(Step, s, Greeted(s))
  {
    LeadsSelf(Step, s);
    ReachHelloA(s, s);
    var s1 := s.(a := HelloOut(s.a), ab := HelloWire(s.a));
    ReachHelloB(s, s1);
    var s2 := s1.(b := HelloOut(s.b), ba := HelloWire(s.b));
    ReachReadA(s, s2, s.b);
    var s3 := s2.(a := HelloRead(s2.a, s.b), ba := "");
    ReachReadB(s, s3, s.a);
  }

  /** A chunked message of one byte. */
  const ONE := Frame(V11, ["x"])

  lemma OneHasNoEnd()
    ensures '>' !in ONE && ValidChunks(["x"]) && Sendable(V11, Concat(["x"]))
  {
    assert Concat(["x"]) == "x" + Concat([]);
    assert Blocks(V11, ["x"]) == StartTag(V11, 1) + "x" + Blocks(V11, []);
  }

  /** Only text with a '>' ends a message in end-of-message framing. */
  lemma EndHasGt(t: string)
    ensures ReadMsg(V10, t) == Starved || '>' in t
  {
    if Until(END_TAG, t).Some? {
      var e := Until(END_TAG, t).value;
      UntilEndsWithTag(END_TAG, t);
      assert t[..e][e - 6..][5] == END_TAG[5] == '>';
    }
  }

  /** The side that has chosen chunked framing writes a message and the other side never gets it. */
  lemma ReachMissed(s: State)
    requires Init(s) && Chosen(s.a, s.b.caps) == Some(V11) && Chosen(s.b, s.a.caps) == Some(V10)
    ensures exists s' :: Leads(Step, s, s') && !Works(s'.a, s'.b, s'.ab)
  {
    ReachGreeted(s);
    OneHasNoEnd();
    MissedFrom(s, Greeted(s), ["x"], ONE);
  }

  /** From any state after the <hello> messages in which `a` writes chunks and `b` reads end-of-message framing. */
  lemma MissedFrom(s0: State, s: State, chunks: seq<string>, wire: string)
    requires Leads(Step, s0, s) && s.a.got != [] && s.a.outbox == "" && s.a.version == V11
    requires s.b.version == V10 && s.ab == "" && |s.b.got| <= |s.a.sent|
    requires ValidChunks(chunks) && Sendable(V11, Concat(chunks)) && wire == Frame(V11, chunks) && '>' !in wire
    ensures exists s' :: Leads(Step, s0, s') && !Works(s'.a, s'.b, s'.ab)
  {
    var s1 := s.(a := s.a.(outbox := wire, sent := s.a.sent + [Sent(V11, chunks)]));
    assert Send(s.a, s1.a, chunks);
    LeadsNext(Step, s0, s, s1);
    ReachTransmitA(s0, s1);
    var s2 := s1.(a := s1.a.(outbox := ""), ab := "" + wire);
    assert "" + wire == wire;
    EndHasGt(wire);
    StarvedFails(s2.a, s2.b, s2.ab);
    assert Leads(Step, s0, s2);
  }

  lemma StarvedFails(x: Endpoint, y: Endpoint, xy: string)
    requires x.outbox == "" && |y.got| < |x.sent| && ReadMsg(y.version, xy) == Starved
    ensures !Works(x, y, xy)
  {
  }

  ghost predicate BothWork(s: State) {
    Works(s.a, s.b, s.ab) && Works(s.b, s.a, s.ba)
  }

  lemma AgreedWorks(s0: State, s: State, v: Version)
    requires Init(s0) && Agreed(s0, v) && Leads(Step, s0, s)
    ensures BothWork(s)
  {
    var run :| Path(Step, run) && run[0] == s0 && run[|run| - 1] == s;
    FramingSwitch(run, v, |run| - 1);
  }

  lemma DisagreedFails(s0: State)
    requires Init(s0) && !Agreed(s0, V10) && !Agreed(s0, V11)
    ensures exists s :: Leads(Step, s0, s) && !BothWork(s)
  {
    if Chosen(s0.a, s0.b.caps) == Some(V11) {
      ReachMissed(s0);
    } else {
      ReachMissed(Swap(s0));
      var t :| Leads(Step, Swap(s0), t) && !Works(t.a, t.b, t.ab);
      SwapLeads(Swap(s0), t);
      assert Leads(Step, s0, Swap(t)) && !BothWork(Swap(t));
    }
  }

  /** Whatever comes to pass, both directions work. */
  ghost predicate AlwaysWorks(s0: State) {
    forall s :: Leads(Step, s0, s) ==> BothWork(s)
  }

  /** For any two endpoints, both directions work at every point of every run if and only if the two sides do not choose
      different versions. */
  lemma SwitchWorksIff(s0: State)
    requires Init(s0)
    ensures AlwaysWorks(s0) <==> Agreed(s0, V10) || Agreed(s0, V11)
  {
    if Agreed(s0, V10) || Agreed(s0, V11) {
      var v := if Agreed(s0, V10) then V10 else V11;
      forall s | Leads(Step, s0, s) ensures BothWork(s) {
        AgreedWorks(s0, s, v);
      }
    } else {
      DisagreedFails(s0);
    }
  }

  /** What the library offers: both base capabilities, and whatever else, none of it empty
      (src/session.c:1090-1091 and src/session.c:1368-1369). */
  ghost predicate LibraryOffer(x: Endpoint) {
    x.library && BASE_10 in TrimAll(x.caps) && BASE_11 in TrimAll(x.caps) && "" !in TrimAll(x.caps)
  }

  /** Two endpoints of the library always understand each other. */
  lemma LibraryPairWorks(s0: State)
    requires Init(s0) && LibraryOffer(s0.a) && LibraryOffer(s0.b)
    ensures AlwaysWorks(s0)
  {
    LibraryOffersAgree(s0.a.caps);
    LibraryOffersAgree(s0.b.caps);
    SwitchWorksIff(s0);
  }

  /** What the two sides choose when the library meets a peer that follows RFC 6241. */
  lemma PeerChoices(a: Endpoint, b: Endpoint)
    requires LibraryOffer(a) && !b.library
    ensures var entries := TrimAll(b.caps);
            && Chosen(b, a.caps) == (match Intended(entries)
                                     case 1 => Some(V11)
                                     case 0 => Some(V10)
                                     case _ => None)
            && (Chosen(a, b.caps) == None <==> "" in entries || VersionOf(entries) == -1)
            && (Chosen(a, b.caps) == Some(V11) <==> "" !in entries && VersionOf(entries) == 1)
  {
    VersionOfIs(TrimAll(b.caps));
  }

  /** The library and any peer that offers what it likes and chooses as RFC 6241 asks: both directions work at every
      point of every run if and only if one side refuses the other's offer or the library finds the version in the
      peer's offer that the standard finds there. */
  lemma LibraryPeerIff(s0: State)
    requires Init(s0) && LibraryOffer(s0.a) && !s0.b.library
    ensures var entries := TrimAll(s0.b.caps);
            AlwaysWorks(s0) <==>
            "" in entries || Intended(entries) == -1 || VersionOf(entries) == Intended(entries)
  {
    var entries := TrimAll(s0.b.caps);
    SwitchWorksIff(s0);
    PeerChoices(s0.a, s0.b);
    VersionOfIs(entries);
    MatchCases(BASE_10);
  }

  lemma TrimSelf(c: string)
    requires c != "" && !IsSpace(c[0]) && !IsSpace(c[|c| - 1])
    ensures Trim(c) == c
  {
    TrimIgnoresSpaces("", c, "");
    assert "" + c + "" == c;
  }

  /** The condition is needed: a peer that offers base:1.0 and then "urn:" is misunderstood. */
  lemma AbbreviationBreaks(s0: State)
    requires Init(s0) && LibraryOffer(s0.a) && !s0.b.library && s0.b.caps == [BASE_10, ABBREVIATION]
    ensures exists s :: Leads(Step, s0, s) && !BothWork(s)
  {
    TrimSelf(BASE_10);
    TrimSelf(ABBREVIATION);
    assert TrimAll(s0.b.caps) == [BASE_10, ABBREVIATION];
    AbbreviationsMislead();
    LibraryPeerIff(s0);
  }
}
