/** Pairing of replies with RPCs by message-id: nc_send_rpc() and nc_recv_reply() of one client thread against a server
    that may send any replies, with notifications anywhere in between (src/session_client.c:1929-1958,
    src/session_client.c:2119-2152, src/session_client.c:3139-3150, src/io.c:952-984). A server that follows sections
    4.1 and 4.5 of RFC 6241 answers in order and echoes the message-id. */
module Pairing {
  import opened Bytes
  import opened Decimal
  import opened Demux
  import opened MessageId
  import MessageIo
  import RpcIds
  import opened RpcText
  import opened Runs
  import opened MsgType
  import opened Writer

  /** What matters of a message: the text of its message-id attribute, if it has one, and which request the server
      means to answer with it. */
  datatype Body = Body(attr: Option<string>, request: nat)

  type Message = Cont<Body>

  /** NC_MSG_REPLY or NC_MSG_REPLY_ERR_MSGID, for the answer to a request. */
  datatype Result = ReplyOk(request: nat) | WrongId(request: nat)

  /** What a call of nc_recv_reply() that was given id `expected` delivered. */
  datatype Received = Received(expected: nat, result: Result)

  /** recv_reply_check_msgid(). */
  function CheckMsgid(body: Body, msgid: nat): Result {
    if body.attr.None? || StrToUl(body.attr.value) != msgid then WrongId(body.request) else ReplyOk(body.request)
  }

  /** The check tells replies apart by the number they carry: one that echoes id `n` passes if and only if `n` is the
      expected id, and one without a message-id never does. */
  lemma CheckIff(n: nat, msgid: nat, request: nat)
    requires n <= ULONG_MAX
    ensures CheckMsgid(Body(Some(Print(n)), request), msgid) == ReplyOk(request) <==> n == msgid
    ensures CheckMsgid(Body(Some(Print(n)), request), msgid) == WrongId(request) <==> n != msgid
    ensures CheckMsgid(Body(None, request), msgid) == WrongId(request)
  {
    StrToUlPrint(n, "");
    assert Print(n) + "" == Print(n);
  }

  datatype State = State(
    base: nat,               // session->opts.client.msgid at the start
    msgid: nat,              // session->opts.client.msgid
    ids: seq<nat>,           // what nc_send_rpc() returned
    requests: seq<string>,   // the texts of the RPCs on their way to the server or there
    answers: seq<Body>,      // the replies the server has sent
    wire: seq<Message>,      // messages on their way to the client
    queue: seq<Message>,     // session->opts.client.msgs
    results: seq<Received>)  // what nc_recv_reply() has delivered, in order

  ghost predicate Init(s: State) {
    && s.base <= ULONG_MAX && s.msgid == s.base && s.ids == [] && s.requests == []
    && s.answers == [] && s.wire == [] && s.queue == [] && s.results == []
  }

  /** nc_send_rpc(): the message is written, the counter moves on, and its value is returned. RPCs may be pipelined. */
  ghost predicate SendRpc(s: State, s': State, msg: MessageIo.Message) {
    && msg.Rpc?
    && s' == s.(requests := s.requests + [Texts(MessageIo.Parts(msg, s.msgid))],
                msgid := MessageIo.NextMsgid(msg, s.msgid),
                ids := s.ids + [s'.msgid])
  }

  /** The server sends a reply, whatever it says. */
  ghost predicate ServerReply(s: State, s': State, body: Body) {
    s' == s.(answers := s.answers + [body], wire := s.wire + [Cont(Reply, body)])
  }

  ghost predicate ServerNotif(s: State, s': State, body: Body) {
    s' == s.(wire := s.wire + [Cont(Notif, body)])
  }

  /** The event a call meets: no lock, nothing or an error on the wire, or its first message. */
  ghost predicate EventFrom(wire: seq<Message>, event: Event<Body>) {
    event.WireMsg? ==> wire != [] && event.msg == wire[0]
  }

  function After(wire: seq<Message>, read: Option<Message>): seq<Message>
    requires read.Some? ==> wire != []
  {
    if read.Some? then wire[1..] else wire
  }

  /** nc_recv_reply() with any id. */
  ghost predicate RecvReply(s: State, s': State, event: Event<Body>, expected: nat) {
    && EventFrom(s.wire, event)
    && var o := Recv(s.queue, Reply, event);
    && s' == s.(
         queue := o.queue,
         wire := After(s.wire, o.read),
         results := s.results +
           (if o.delivered.None? then []
            else [Received(expected, CheckMsgid(o.delivered.value.body, expected))]))
  }

  /** nc_recv_notif(), by any thread. */
  ghost predicate RecvNotif(s: State, s': State, event: Event<Body>) {
    && EventFrom(s.wire, event)
    && var o := Recv(s.queue, Notif, event);
    && s' == s.(queue := o.queue, wire := After(s.wire, o.read))
  }

  ghost predicate Step(s: State, s': State) {
    || (exists msg :: SendRpc(s, s', msg))
    || (exists body :: ServerReply(s, s', body))
    || (exists body :: ServerNotif(s, s', body))
    || (exists event, expected :: RecvReply(s, s', event, expected))
    || (exists event :: RecvNotif(s, s', event))
  }

  ghost predicate Run(run: seq<State>) {
    Path(Step, run) && Init(run[0])
  }

  /** The replies from the `from`-th on, as messages. */
  function Replies(answers: seq<Body>, from: nat): seq<Message>
    requires from <= |answers|
  {
    seq(|answers| - from, i requires 0 <= i < |answers| - from => Cont(Reply, answers[from + i]))
  }

  /** Each request carries the id returned for it, and ids are counted from `base`. */
  ghost predicate IdsInv(s: State) {
    && |s.requests| == |s.ids| && s.msgid == NthId(s.base, |s.ids|)
    && forall k :: 0 <= k < |s.ids| ==>
         s.ids[k] == NthId(s.base, k + 1) && MessageIdText(s.requests[k]) == Some(Print(s.ids[k]))
  }

  /** The replies that are queued followed by those on the wire are the replies not yet received, in order; those
      received have been checked against the id the call was given. */
  ghost predicate Inv(s: State) {
    && IdsInv(s) && |s.results| <= |s.answers|
    && OfKind(s.queue, Reply) + OfKind(s.wire, Reply) == Replies(s.answers, |s.results|)
    && (forall i :: 0 <= i < |s.results| ==> Checked(s, i))
    && (forall i :: 0 <= i < |s.wire| ==> s.wire[i].kind != Malformed)
  }

  ghost predicate Checked(s: State, i: nat)
    requires i < |s.results| <= |s.answers|
  {
    s.results[i].result == CheckMsgid(s.answers[i], s.results[i].expected)
  }

  lemma RepliesSnoc(answers: seq<Body>, from: nat, body: Body)
    requires from <= |answers|
    ensures Replies(answers + [body], from) == Replies(answers, from) + [Cont(Reply, body)]
  {
  }

  lemma RepliesTail(answers: seq<Body>, from: nat)
    requires from < |answers|
    ensures Replies(answers, from) == [Cont(Reply, answers[from])] + Replies(answers, from + 1)
  {
  }

  /** A call moves messages from the wire to the caller and the queue; together the replies stay the same. */
  lemma RecvMoves(queue: seq<Message>, wire: seq<Message>, expected: Kind, event: Event<Body>, k: Kind)
    requires expected != Malformed && EventFrom(wire, event)
    ensures var o := Recv(queue, expected, event);
            && (o.read.Some? ==> wire != [])
            && OfKind(Listed(o.delivered), k) + (OfKind(o.queue, k) + OfKind(After(wire, o.read), k))
               == OfKind(queue, k) + OfKind(wire, k)
  {
    var o := Recv(queue, expected, event);
    assert Conserved([], queue, queue, k);
    RecvConserves(queue, expected, event, [], queue, k);
    assert [] + Listed(o.delivered) == Listed(o.delivered);
    OfKindAppend(queue, Listed(o.read), k);
    var rest := After(wire, o.read);
    assert wire == Listed(o.read) + rest;
    OfKindAppend(Listed(o.read), rest, k);
    Regroup(OfKind(Listed(o.delivered), k), OfKind(o.queue, k), OfKind(rest, k));
    Regroup(OfKind(queue, k), OfKind(Listed(o.read), k), OfKind(rest, k));
  }

  lemma AfterKeepsKinds(wire: seq<Message>, read: Option<Message>)
    requires read.Some? ==> wire != []
    requires forall i :: 0 <= i < |wire| ==> wire[i].kind != Malformed
    ensures var w := After(wire, read); forall i :: 0 <= i < |w| ==> w[i].kind != Malformed
  {
  }

  /** The first of the outstanding replies is the oldest one that has not been received. */
  lemma OldestReply(m: Message, left: seq<Message>, answers: seq<Body>, n: nat)
    requires n <= |answers| && [m] + left == Replies(answers, n)
    ensures n < |answers| && m == Cont(Reply, answers[n]) && left == Replies(answers, n + 1)
  {
    assert |[m] + left| > 0;
    RepliesTail(answers, n);
    assert m == ([m] + left)[0] && left == ([m] + left)[1..];
  }

  lemma CheckedStays(s: State, s': State)
    requires |s.results| <= |s.answers| && |s'.results| <= |s'.answers|
    requires s.results <= s'.results && s.answers <= s'.answers
    requires forall i :: 0 <= i < |s.results| ==> Checked(s, i)
    ensures forall i :: 0 <= i < |s.results| ==> Checked(s', i)
  {
    forall i | 0 <= i < |s.results| ensures Checked(s', i) {
      assert Checked(s, i);
    }
  }

  /** The reply delivered is the oldest one outstanding, and it has been checked. */
  lemma RecvReplyKeeps(s: State, s': State, event: Event<Body>, expected: nat)
    requires Inv(s) && RecvReply(s, s', event, expected)
    ensures Inv(s')
  {
    var o := Recv(s.queue, Reply, event);
    AfterKeepsKinds(s.wire, o.read);
    LeftAfter(s, s', event, expected);
    var left := OfKind(s'.queue, Reply) + OfKind(s'.wire, Reply);
    if o.delivered.Some? {
      OldestReply(o.delivered.value, left, s.answers, |s.results|);
    }
    CheckedStays(s, s');
  }

  /** The outstanding replies are the one delivered, if any, and those that are left. */
  lemma LeftAfter(s: State, s': State, event: Event<Body>, expected: nat)
    requires Inv(s) && RecvReply(s, s', event, expected)
    ensures var left := OfKind(s'.queue, Reply) + OfKind(s'.wire, Reply);
            Listed(Recv(s.queue, Reply, event).delivered) + left == Replies(s.answers, |s.results|)
  {
    var o := Recv(s.queue, Reply, event);
    RecvMoves(s.queue, s.wire, Reply, event, Reply);
    if o.delivered.Some? {
      OfKindOne(o.delivered.value, Reply);
    }
  }

  lemma RecvNotifKeeps(s: State, s': State, event: Event<Body>)
    requires Inv(s) && RecvNotif(s, s', event)
    ensures Inv(s')
  {
    var o := Recv(s.queue, Notif, event);
    RecvMoves(s.queue, s.wire, Notif, event, Reply);
    AfterKeepsKinds(s.wire, o.read);
    if o.delivered.Some? {
      OfKindOne(o.delivered.value, Reply);
    }
    var left := OfKind(s'.queue, Reply) + OfKind(s'.wire, Reply);
    assert [] + left == left;
    CheckedStays(s, s');
  }

  lemma WireGrows(queue: seq<Message>, wire: seq<Message>, m: Message)
    ensures OfKind(queue, Reply) + OfKind(wire + [m], Reply)
            == OfKind(queue, Reply) + OfKind(wire, Reply) + if m.kind == Reply then [m] else []
  {
    OfKindAppend(wire, [m], Reply);
    OfKindOne(m, Reply);
    Regroup(OfKind(queue, Reply), OfKind(wire, Reply), OfKind([m], Reply));
  }

  lemma ServerReplyKeeps(s: State, s': State, body: Body)
    requires Inv(s) && ServerReply(s, s', body)
    ensures Inv(s')
  {
    WireGrows(s.queue, s.wire, Cont(Reply, body));
    RepliesSnoc(s.answers, |s.results|, body);
    CheckedStays(s, s');
  }

  lemma ServerNotifKeeps(s: State, s': State, body: Body)
    requires Inv(s) && ServerNotif(s, s', body)
    ensures Inv(s')
  {
    var m := Cont(Notif, body);
    WireGrows(s.queue, s.wire, m);
    CheckedStays(s, s');
  }

  lemma IdWritten(msg: MessageIo.Message, msgid: nat)
    requires msg.Rpc?
    ensures MessageIdText(Texts(MessageIo.Parts(msg, msgid))) == Some(Print(NextId(msgid)))
  {
    IdReadBack(msg.attrs, msg.action, msg.body, NextId(msgid));
  }

  lemma SendKeepsIds(s: State, s': State, text: string)
    requires IdsInv(s) && MessageIdText(text) == Some(Print(NextId(s.msgid)))
    requires s' == s.(requests := s.requests + [text], msgid := NextId(s.msgid), ids := s.ids + [NextId(s.msgid)])
    ensures IdsInv(s')
  {
    NextOfNth(s.base, |s.ids|);
  }

  /** Sending writes the id after the counter, moves the counter on and returns it. */
  lemma SendKeeps(s: State, s': State, msg: MessageIo.Message)
    requires Inv(s) && SendRpc(s, s', msg)
    ensures Inv(s')
  {
    IdWritten(msg, s.msgid);
    SendKeepsIds(s, s', Texts(MessageIo.Parts(msg, s.msgid)));
    CheckedStays(s, s');
  }

  lemma {:induction false} RunKeeps(run: seq<State>, i: nat)
    requires Run(run) && i < |run|
    ensures Inv(run[i])
  {
    if i > 0 {
      RunKeeps(run, i - 1);
      var s, s' := run[i - 1], run[i];
      LastStep(Step, run, i);
      if msg :| SendRpc(s, s', msg) {
        SendKeeps(s, s', msg);
      } else if body :| ServerReply(s, s', body) {
        ServerReplyKeeps(s, s', body);
      } else if body :| ServerNotif(s, s', body) {
        ServerNotifKeeps(s, s', body);
      } else if event, expected :| RecvReply(s, s', event, expected) {
        RecvReplyKeeps(s, s', event, expected);
      } else if event :| RecvNotif(s, s', event) {
        RecvNotifKeeps(s, s', event);
      }
    }
  }

  /** The reply answers a request and echoes the message-id attribute that can be read in its text. */
  predicate Echoes(s: State, body: Body) {
    body.request < |s.requests| && body.attr == MessageIdText(s.requests[body.request])
  }

  /** Reply checking over whole runs, with a server that answers in any order, more than once or not at all, and callers
      that ask for any id: the k-th result is that of the k-th reply sent; if that reply echoes the id of a request, a
      wrong message-id is reported if and only if another id was returned for that request than the call was given; and
      a reply without a message-id is always reported. */
  lemma WrongIdIff(run: seq<State>, i: nat, k: nat)
    requires Run(run) && i < |run| && k < |run[i].results|
    ensures var s := run[i];
            && k < |s.answers| && |s.ids| == |s.requests|
            && var body, r := s.answers[k], s.results[k];
            && (r.result == ReplyOk(body.request) || r.result == WrongId(body.request))
            && (Echoes(s, body) ==> (r.result == WrongId(body.request) <==> s.ids[body.request] != r.expected))
            && (body.attr == None ==> r.result == WrongId(body.request))
  {
    RunKeeps(run, i);
    var s := run[i];
    assert Checked(s, k);
    var body := s.answers[k];
    if Echoes(s, body) {
      CheckIff(s.ids[body.request], s.results[k].expected, body.request);
    }
  }

  /** The first replies answer the requests in order and echo their ids. */
  ghost predicate InOrder(s: State, n: nat) {
    forall k :: 0 <= k < n && k < |s.answers| ==> s.answers[k].request == k && Echoes(s, s.answers[k])
  }

  /** Reply pairing over whole runs: where the server answers in order and echoes the message-id, nc_recv_reply()
      reports the k-th reply as the answer to the k-th RPC if and only if it is called with the id that nc_send_rpc()
      returned for that RPC, and otherwise as one with a wrong message-id. */
  lemma RepliesMatch(run: seq<State>, i: nat, k: nat)
    requires Run(run) && i < |run| && k < |run[i].results| && InOrder(run[i], k + 1)
    ensures k < |run[i].ids| == |run[i].requests| && MessageIdOf(run[i].requests[k]) == Some(run[i].ids[k])
    ensures run[i].results[k].result
            == if run[i].results[k].expected == run[i].ids[k] then ReplyOk(k) else WrongId(k)
  {
    RunKeeps(run, i);
    WrongIdIff(run, i, k);
    StrToUlPrint(run[i].ids[k], "");
    assert Print(run[i].ids[k]) + "" == Print(run[i].ids[k]);
  }

  /** The ids in such a run are those that threads sharing one session get from it, and those a peer reads in their
      frames, while one of them alone sends RPCs. */
  lemma IdsAreReturned(run: seq<State>, i: nat, io: seq<MessageIo.State>, j: nat, sender: nat, k: nat)
    requires Run(run) && i < |run| && k < |run[i].ids|
    requires MessageIo.Run(io) && j < |io| && RpcIds.OneSender(io[j].log, sender) && k < |io[j].returned|
    requires run[i].base == io[j].base
    ensures run[i].ids[k] == io[j].returned[k].id
    ensures var r := io[j].returned[k];
            && k < |run[i].requests| && r.entry < |io[j].log|
            && MessageIo.IdOf(io[j].log[r.entry]) == Some(run[i].ids[k])
  {
    RunKeeps(run, i);
    RpcIds.OneSenderCounts(io, j, sender, k);
    RpcIds.OneSenderIds(io, j, sender);
  }
}
