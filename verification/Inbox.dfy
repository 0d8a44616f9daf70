/** From the frames on the wire to the messages handed to callers: recv_msg() reads with nc_read_msg_poll_io(), tells
    the type with get_msg_type() and sorts the messages (src/session_client.c:2030-2117). */
module Inbox {
  import opened Bytes
  import opened Demux
  import opened Framing
  import opened MsgType
  import opened Sequences

  /** How a call goes: it does not get the queue lock, or, if it has to read, nothing comes in time, reading fails, or
      it waits for the next message. */
  datatype Attempt = Locked | Late | Fails | Reads

  /** A call for messages of one kind. */
  datatype Request = Request(expected: Kind, attempt: Attempt)

  /** The bytes still to be read, the messages read so far, the queue, and what has been delivered. */
  datatype World = World(stream: string, read: seq<string>, queue: seq<Cont<string>>, delivered: seq<Cont<string>>)

  /** A message text with the type get_msg_type() gives it. */
  function Typed(text: string): Cont<string> {
    Cont(Classify(text), text)
  }

  /** What a call that reads meets on the wire. */
  function EventOf(attempt: Attempt, r: ReadResult): Event<string> {
    match attempt
    case Locked => NoLock
    case Late => WireIdle
    case Fails => WireError
    case Reads => if r.Msg? then WireMsg(Typed(r.data)) else WireIdle
  }

  /** The call takes a message off the wire: it has to read and there is one. */
  predicate Takes(w: World, c: Request, r: ReadResult) {
    c.attempt.Reads? && FirstOf(w.queue, c.expected) == |w.queue| && r.Msg?
  }

  /** One call of recv_msg(). */
  function Serve(v: Version, w: World, c: Request): World {
    var r := ReadMsg(v, w.stream);
    var o := Recv(w.queue, c.expected, EventOf(c.attempt, r));
    World(if Takes(w, c, r) then w.stream[r.consumed..] else w.stream,
          if Takes(w, c, r) then w.read + [r.data] else w.read,
          o.queue,
          w.delivered + Listed(o.delivered))
  }

  /** Calls one after the other on a stream, by any callers. */
  function ServeAll(v: Version, stream: string, calls: seq<Request>): World {
    if calls == [] then World(stream, [], [], [])
    else Serve(v, ServeAll(v, stream, calls[..|calls| - 1]), calls[|calls| - 1])
  }

  /** Messages as the peer wrote them: lists of blocks. */
  function FrameMaker(v: Version): seq<string> -> string {
    (chunks: seq<string>) => Frame(v, chunks)
  }

  function Frames(v: Version, sent: seq<seq<string>>): string {
    FlatMap(FrameMaker(v), sent)
  }

  function Contents(sent: seq<seq<string>>): seq<string> {
    seq(|sent|, i requires 0 <= i < |sent| => Concat(sent[i]))
  }

  ghost predicate Good(v: Version, sent: seq<seq<string>>) {
    forall i :: 0 <= i < |sent| ==> ValidChunks(sent[i]) && Sendable(v, Concat(sent[i]))
  }

  /** What is read off a stream of frames is the first message, and the others are left. */
  lemma NextMessage(v: Version, sent: seq<seq<string>>)
    requires Good(v, sent)
    ensures var r := ReadMsg(v, Frames(v, sent));
            r.Msg? ==> sent != [] && r.data == Concat(sent[0]) && Frames(v, sent)[r.consumed..] == Frames(v, sent[1..])
    ensures sent != [] ==> ReadMsg(v, Frames(v, sent)).Msg?
  {
    if sent == [] {
      assert ReadMsg(v, "") == Starved;
    } else {
      assert sent == [sent[0]] + sent[1..];
      FlatMapCons(FrameMaker(v), sent[0], sent[1..]);
      RoundTrip(v, sent[0], Frames(v, sent[1..]));
    }
  }

  /** The messages read are the first ones sent, and the frames of the others are left. */
  ghost predicate OnStream(v: Version, sent: seq<seq<string>>, w: World) {
    && |w.read| <= |sent| && w.read == Contents(sent)[..|w.read|]
    && w.stream == Frames(v, sent[|w.read|..])
  }

  lemma ContentsSnoc(sent: seq<seq<string>>, n: nat)
    requires n < |sent|
    ensures Contents(sent)[..n + 1] == Contents(sent)[..n] + [Concat(sent[n])]
  {
  }

  lemma ServeKeepsStream(v: Version, sent: seq<seq<string>>, w: World, c: Request)
    requires Good(v, sent) && OnStream(v, sent, w)
    ensures OnStream(v, sent, Serve(v, w, c))
  {
    var n, r := |w.read|, ReadMsg(v, w.stream);
    if Takes(w, c, r) {
      var left := sent[n..];
      assert Good(v, left);
      NextMessage(v, left);
      assert left[0] == sent[n] && left[1..] == sent[n + 1..];
      ContentsSnoc(sent, n);
    }
  }

  function TypedAll(texts: seq<string>): seq<Cont<string>> {
    seq(|texts|, i requires 0 <= i < |texts| => Typed(texts[i]))
  }

  /** The texts of the messages of one kind, in order. */
  function TextsOf(ms: seq<Cont<string>>, k: Kind): seq<string> {
    Bodies(OfKind(ms, k))
  }

  function Bodies(ms: seq<Cont<string>>): seq<string> {
    seq(|ms|, i requires 0 <= i < |ms| => ms[i].body)
  }

  /** The texts that get_msg_type() gives one type, in order. */
  function OfType(texts: seq<string>, k: Kind): seq<string> {
    if texts == [] then []
    else OfType(texts[..|texts| - 1], k) + if Classify(texts[|texts| - 1]) == k then [texts[|texts| - 1]] else []
  }

  lemma {:induction false} TextsOfTyped(texts: seq<string>, k: Kind)
    ensures TextsOf(TypedAll(texts), k) == OfType(texts, k)
  {
    if texts != [] {
      var n := |texts| - 1;
      assert texts == texts[..n] + [texts[n]];
      TypedSnoc(texts[..n], texts[n], k);
      TextsOfTyped(texts[..n], k);
    }
  }

  /** For kind `k`: delivered followed by queued is what was read of that type. */
  ghost predicate Sorted(w: World, k: Kind) {
    Conserved(w.delivered, w.queue, TypedAll(w.read), k)
  }

  lemma TypedSnoc(texts: seq<string>, text: string, k: Kind)
    ensures OfKind(TypedAll(texts + [text]), k)
            == OfKind(TypedAll(texts), k) + if Classify(text) == k then [Typed(text)] else []
  {
    assert TypedAll(texts + [text]) == TypedAll(texts) + [Typed(text)];
    OfKindAppend(TypedAll(texts), [Typed(text)], k);
    OfKindOne(Typed(text), k);
  }

  lemma ServeSorts(v: Version, w: World, c: Request, k: Kind)
    requires Sorted(w, k) && c.expected != Malformed && k != Malformed
    ensures Sorted(Serve(v, w, c), k)
  {
    var r := ReadMsg(v, w.stream);
    var event := EventOf(c.attempt, r);
    var o := Recv(w.queue, c.expected, event);
    RecvConserves(w.queue, c.expected, event, w.delivered, TypedAll(w.read), k);
    ReadIsListed(w, c, r);
    OfKindAppend(TypedAll(w.read), Listed(o.read), k);
    if Takes(w, c, r) {
      TypedSnoc(w.read, r.data, k);
      if Classify(r.data) != Malformed {
        OfKindOne(Typed(r.data), k);
      }
    }
  }

  /** A call hands over or queues what it takes off the wire unless it is malformed. */
  lemma ReadIsListed(w: World, c: Request, r: ReadResult)
    requires c.expected != Malformed
    ensures Listed(Recv(w.queue, c.expected, EventOf(c.attempt, r)).read)
            == if Takes(w, c, r) && Classify(r.data) != Malformed then [Typed(r.data)] else []
  {
  }

  lemma {:induction false} ServeAllKeepsStream(v: Version, sent: seq<seq<string>>, calls: seq<Request>)
    requires Good(v, sent)
    ensures OnStream(v, sent, ServeAll(v, Frames(v, sent), calls))
  {
    if calls == [] {
      assert sent[0..] == sent;
    } else {
      var n := |calls| - 1;
      ServeAllKeepsStream(v, sent, calls[..n]);
      ServeKeepsStream(v, sent, ServeAll(v, Frames(v, sent), calls[..n]), calls[n]);
    }
  }

  lemma {:induction false} ServeAllSorts(v: Version, stream: string, calls: seq<Request>, k: Kind)
    requires k != Malformed && forall i :: 0 <= i < |calls| ==> calls[i].expected != Malformed
    ensures Sorted(ServeAll(v, stream, calls), k)
  {
    if calls != [] {
      var n := |calls| - 1;
      ServeAllSorts(v, stream, calls[..n], k);
      ServeSorts(v, ServeAll(v, stream, calls[..n]), calls[n], k);
    }
  }

  /** From the wire to the callers: whatever messages a peer wrote, in whatever blocks, after any calls by both kinds of
      callers the messages read are the first ones written, byte for byte, the bytes of the others are untouched, and
      of each type the texts delivered followed by those queued are exactly the texts read that have that type. */
  lemma Delivered(v: Version, sent: seq<seq<string>>, calls: seq<Request>, k: Kind)
    requires Good(v, sent) && k != Malformed && forall i :: 0 <= i < |calls| ==> calls[i].expected != Malformed
    ensures var w := ServeAll(v, Frames(v, sent), calls);
            && |w.read| <= |sent| && w.read == Contents(sent)[..|w.read|]
            && w.stream == Frames(v, sent[|w.read|..])
            && OfKind(w.delivered, k) + OfKind(w.queue, k) == OfKind(TypedAll(w.read), k)
            && TextsOf(w.delivered, k) + TextsOf(w.queue, k) == OfType(w.read, k)
  {
    ServeAllKeepsStream(v, sent, calls);
    ServeAllSorts(v, Frames(v, sent), calls, k);
    var w := ServeAll(v, Frames(v, sent), calls);
    TextsOfTyped(w.read, k);
    BodiesAppend(OfKind(w.delivered, k), OfKind(w.queue, k));
  }

  lemma BodiesAppend(a: seq<Cont<string>>, b: seq<Cont<string>>)
    ensures Bodies(a + b) == Bodies(a) + Bodies(b)
  {
  }

  /** A call for messages of type `k` that gets the lock and waits for a message if it has to read. */
  predicate Asks(c: Request, k: Kind) {
    c.expected == k && c.attempt == Reads
  }

  /** The call takes a message of another type off the wire. */
  predicate Skips(v: Version, w: World, c: Request, k: Kind) {
    var r := ReadMsg(v, w.stream);
    Asks(c, k) && Takes(w, c, r) && Classify(r.data) != k
  }

  /** How many calls ask for type `k`. */
  function AskCount(calls: seq<Request>, k: Kind): nat {
    if calls == [] then 0
    else AskCount(calls[..|calls| - 1], k) + if Asks(calls[|calls| - 1], k) then 1 else 0
  }

  /** How many of them meet a message of another type. */
  function SkipCount(v: Version, stream: string, calls: seq<Request>, k: Kind): nat {
    if calls == [] then 0
    else
      var before := calls[..|calls| - 1];
      SkipCount(v, stream, before, k) + if Skips(v, ServeAll(v, stream, before), calls[|calls| - 1], k) then 1 else 0
  }

  /** All messages have been read and none of type `k` is waiting. */
  predicate Settled(sent: seq<seq<string>>, w: World, k: Kind) {
    OfKind(w.queue, k) == [] && |w.read| == |sent|
  }

  /** How many messages of type `k` have been delivered. */
  function Count(w: World, k: Kind): nat {
    |OfKind(w.delivered, k)|
  }

  /** The messages delivered stay delivered, and one that is handed over is counted. */
  lemma CountAfter(v: Version, w: World, c: Request, k: Kind)
    ensures var d := Recv(w.queue, c.expected, EventOf(c.attempt, ReadMsg(v, w.stream))).delivered;
            Count(Serve(v, w, c), k) == Count(w, k) + if d.Some? && d.value.kind == k then 1 else 0
  {
    var d := Recv(w.queue, c.expected, EventOf(c.attempt, ReadMsg(v, w.stream))).delivered;
    OfKindAppend(w.delivered, Listed(d), k);
    if d.Some? {
      OfKindOne(d.value, k);
    }
  }

  lemma NothingLeft(v: Version, sent: seq<seq<string>>, w: World)
    requires Good(v, sent) && OnStream(v, sent, w)
    ensures ReadMsg(v, w.stream).Msg? <==> |w.read| < |sent|
  {
    assert Good(v, sent[|w.read|..]);
    NextMessage(v, sent[|w.read|..]);
  }

  lemma SettledStays(v: Version, sent: seq<seq<string>>, w: World, c: Request, k: Kind)
    requires Good(v, sent) && OnStream(v, sent, w) && Settled(sent, w, k) && c.expected != Malformed
    ensures Settled(sent, Serve(v, w, c), k)
  {
    NothingLeft(v, sent, w);
    RecvServes(w.queue, c.expected, EventOf(c.attempt, ReadMsg(v, w.stream)));
  }

  /** A call that asks for a type delivers a message of it or passes one of another type, or nothing is left. */
  lemma AskServes(v: Version, sent: seq<seq<string>>, w: World, c: Request, k: Kind)
    requires Good(v, sent) && OnStream(v, sent, w) && k != Malformed && Asks(c, k)
    ensures Settled(sent, w, k) || Count(Serve(v, w, c), k) == Count(w, k) + if Skips(v, w, c, k) then 0 else 1
  {
    var r := ReadMsg(v, w.stream);
    NothingLeft(v, sent, w);
    RecvServes(w.queue, k, EventOf(c.attempt, r));
    FirstIsOldest(w.queue, k);
    CountAfter(v, w, c, k);
  }

  lemma {:induction false} AsksAreServed(v: Version, sent: seq<seq<string>>, calls: seq<Request>, k: Kind)
    requires Good(v, sent) && k != Malformed && forall i :: 0 <= i < |calls| ==> calls[i].expected != Malformed
    ensures var w := ServeAll(v, Frames(v, sent), calls);
            || Settled(sent, w, k)
            || AskCount(calls, k) <= Count(w, k) + SkipCount(v, Frames(v, sent), calls, k)
  {
    if calls != [] {
      var n := |calls| - 1;
      var w, c := ServeAll(v, Frames(v, sent), calls[..n]), calls[n];
      AsksAreServed(v, sent, calls[..n], k);
      ServeAllKeepsStream(v, sent, calls[..n]);
      if Settled(sent, w, k) {
        SettledStays(v, sent, w, c, k);
      } else if Asks(c, k) {
        AskServes(v, sent, w, c, k);
      } else {
        CountAfter(v, w, c, k);
      }
    }
  }

  /** What is passed is of another type. */
  lemma {:induction false} SkipsAreOthers(v: Version, stream: string, calls: seq<Request>, k: Kind)
    ensures var w := ServeAll(v, stream, calls);
            SkipCount(v, stream, calls, k) + |OfKind(TypedAll(w.read), k)| <= |w.read|
  {
    if calls != [] {
      var n := |calls| - 1;
      var w, c := ServeAll(v, stream, calls[..n]), calls[n];
      SkipsAreOthers(v, stream, calls[..n], k);
      var r := ReadMsg(v, w.stream);
      if Takes(w, c, r) {
        TypedSnoc(w.read, r.data, k);
      }
    }
  }

  /** Of type `k`, everything that was sent has been delivered, in order. */
  ghost predicate AllDelivered(sent: seq<seq<string>>, w: World, k: Kind) {
    TextsOf(w.delivered, k) == OfType(Contents(sent), k)
  }

  lemma TypedSplit(texts: seq<string>, n: nat, k: Kind)
    requires n <= |texts|
    ensures OfKind(TypedAll(texts), k) == OfKind(TypedAll(texts[..n]), k) + OfKind(TypedAll(texts[n..]), k)
  {
    assert TypedAll(texts) == TypedAll(texts[..n]) + TypedAll(texts[n..]);
    OfKindAppend(TypedAll(texts[..n]), TypedAll(texts[n..]), k);
  }

  lemma InParts<T>(d: seq<T>, q: seq<T>, rest: seq<T>, all: seq<T>)
    requires d + q + rest == all
    ensures d <= all && |d + q| <= |all|
    ensures q == [] && rest == [] ==> d == all
    ensures |all| <= |d| ==> d == all
  {
  }

  /** Delivered are the first ones of the type; when they are as many as were sent, they are all. */
  lemma DeliveredIsPrefix(v: Version, sent: seq<seq<string>>, calls: seq<Request>, k: Kind)
    requires Good(v, sent) && k != Malformed && forall i :: 0 <= i < |calls| ==> calls[i].expected != Malformed
    ensures var w, all := ServeAll(v, Frames(v, sent), calls), OfKind(TypedAll(Contents(sent)), k);
            && OfKind(w.delivered, k) <= all
            && |OfKind(TypedAll(w.read), k)| <= |all|
            && (Settled(sent, w, k) ==> AllDelivered(sent, w, k))
            && (|all| <= Count(w, k) ==> AllDelivered(sent, w, k))
  {
    var w := ServeAll(v, Frames(v, sent), calls);
    Delivered(v, sent, calls, k);
    PrefixOfSent(sent, w, k);
  }

  lemma PrefixOfSent(sent: seq<seq<string>>, w: World, k: Kind)
    requires |w.read| <= |sent| && w.read == Contents(sent)[..|w.read|]
    requires OfKind(w.delivered, k) + OfKind(w.queue, k) == OfKind(TypedAll(w.read), k)
    ensures var all := OfKind(TypedAll(Contents(sent)), k);
            && OfKind(w.delivered, k) <= all
            && |OfKind(TypedAll(w.read), k)| <= |all|
            && (Settled(sent, w, k) ==> AllDelivered(sent, w, k))
            && (|all| <= Count(w, k) ==> AllDelivered(sent, w, k))
  {
    var n, texts := |w.read|, Contents(sent);
    TypedSplit(texts, n, k);
    var rest := OfKind(TypedAll(texts[n..]), k);
    InParts(OfKind(w.delivered, k), OfKind(w.queue, k), rest, OfKind(TypedAll(texts), k));
    if Settled(sent, w, k) {
      assert texts[n..] == [] && TypedAll([]) == [];
    }
    TextsOfTyped(texts, k);
  }

  /** Nothing waits for ever: when the calls that ask for a type are as many as the messages of it and those of other
      types that such calls meet, all messages of the type have been delivered, in order. */
  lemma EnoughAsks(v: Version, sent: seq<seq<string>>, calls: seq<Request>, k: Kind)
    requires Good(v, sent) && k != Malformed && forall i :: 0 <= i < |calls| ==> calls[i].expected != Malformed
    requires |OfType(Contents(sent), k)| + SkipCount(v, Frames(v, sent), calls, k) <= AskCount(calls, k)
    ensures AllDelivered(sent, ServeAll(v, Frames(v, sent), calls), k)
  {
    TextsOfTyped(Contents(sent), k);
    AsksAreServed(v, sent, calls, k);
    DeliveredIsPrefix(v, sent, calls, k);
  }

  /** So as many calls as there are messages of any type are enough, whatever other calls come between. */
  lemma AsManyAsSent(v: Version, sent: seq<seq<string>>, calls: seq<Request>, k: Kind)
    requires Good(v, sent) && k != Malformed && forall i :: 0 <= i < |calls| ==> calls[i].expected != Malformed
    requires |sent| <= AskCount(calls, k)
    ensures AllDelivered(sent, ServeAll(v, Frames(v, sent), calls), k)
  {
    AsksAreServed(v, sent, calls, k);
    DeliveredIsPrefix(v, sent, calls, k);
    SkipsAreOthers(v, Frames(v, sent), calls, k);
    Delivered(v, sent, calls, k);
    var w := ServeAll(v, Frames(v, sent), calls);
    assert |OfKind(w.delivered, k) + OfKind(w.queue, k)| == Count(w, k) + |OfKind(w.queue, k)|;
  }

  /** As many as there are messages of the type are not: where the only reply follows a notification, one call for a
      reply returns without it. */
  lemma FewerAreNotEnough(v: Version, sent: seq<seq<string>>)
    requires Good(v, sent) && sent != [] && Classify(Concat(sent[0])) == Notif && |OfType(Contents(sent), Reply)| == 1
    ensures AskCount([Request(Reply, Reads)], Reply) == |OfType(Contents(sent), Reply)|
    ensures ServeAll(v, Frames(v, sent), [Request(Reply, Reads)]).delivered == []
  {
    NextMessage(v, sent);
    OneAsk(v, Frames(v, sent));
  }

  lemma OneAsk(v: Version, stream: string)
    requires ReadMsg(v, stream).Msg? && Classify(ReadMsg(v, stream).data) == Notif
    ensures ServeAll(v, stream, [Request(Reply, Reads)]).delivered == []
    ensures AskCount([Request(Reply, Reads)], Reply) == 1
  {
    var c := Request(Reply, Reads);
    assert [c][..0] == [];
    assert AskCount([c], Reply) == AskCount([], Reply) + 1;
    assert ServeAll(v, stream, [c]) == Serve(v, ServeAll(v, stream, []), c);
  }
}
