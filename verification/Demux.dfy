/** Replies and notifications of one session, sorted out to two kinds of callers through a queue:
    recv_msg() (src/session_client.c:2018-2117). */
module Demux {
  import opened Bytes
  import opened MsgType

  /** struct nc_msg_cont: a message with its type. `body` is what the caller gets. */
  datatype Cont<T> = Cont(kind: Kind, body: T)

  /** What happens to a call before it looks at the queue and when it has to read the wire. */
  datatype Event<T> =
    | NoLock              // the queue lock timed out or failed
    | WireIdle            // nothing came in time
    | WireError           // reading failed
    | WireMsg(msg: Cont<T>)  // a message came; its kind is what get_msg_type() says

  /** Index of the first queued message of `kind`, or the length of the queue. */
  function FirstOf<T>(queue: seq<Cont<T>>, kind: Kind): (i: nat)
    ensures i <= |queue|
    ensures i < |queue| ==> queue[i].kind == kind
    ensures forall j :: 0 <= j < i ==> queue[j].kind != kind
  {
    if queue == [] || queue[0].kind == kind then 0 else 1 + FirstOf(queue[1..], kind)
  }

  /** The state a call leaves behind: the queue, the message delivered to the caller if any, and the
      recognised message taken off the wire if any. */
  datatype Outcome<T> = Outcome(queue: seq<Cont<T>>, delivered: Option<Cont<T>>, read: Option<Cont<T>>)

  /** One call of recv_msg() by a caller that wants `expected`. */
  function Recv<T>(queue: seq<Cont<T>>, expected: Kind, event: Event<T>): Outcome<T> {
    if event.NoLock? then Outcome(queue, None, None)
    else
      var i := FirstOf(queue, expected);
      if i < |queue| then Outcome(queue[..i] + queue[i + 1..], Some(queue[i]), None)
      else match event
        case WireMsg(m) =>
          if m.kind == Malformed then Outcome(queue, None, None)
          else if m.kind == expected then Outcome(queue, Some(m), Some(m))
          else Outcome(queue + [m], None, Some(m))
        case _ => Outcome(queue, None, None)
  }

  /** NC_MSG_TYPE results of recv_msg(). */
  datatype Ret = Got(kind: Kind) | WouldBlock | Error

  /** The client part of a session. `wire` lists the messages that were read and recognised, `out` those
      that were delivered. */
  class Client<T> {
    var msgs: seq<Cont<T>>
    ghost var wire: seq<Cont<T>>
    ghost var out: seq<Cont<T>>

    /** For each kind: what was delivered followed by what is queued is what came off the wire. */
    ghost predicate Valid()
      reads this
    {
      forall k :: Conserved(out, msgs, wire, k)
    }

    constructor ()
      ensures Valid() && msgs == [] && wire == [] && out == []
    {
      msgs, wire, out := [], [], [];
    }

    /** recv_msg(): the call serves its caller, as `Serves` and `Reads` say by the messages of each kind, and its result
        tells the kind of the message that was handed over or queued. */
    method RecvMsg(expected: Kind, event: Event<T>) returns (ret: Ret, message: Option<T>)
      requires Valid() && expected != Malformed
      modifies this
      ensures Valid()
      ensures msgs == Recv(old(msgs), expected, event).queue
      ensures Serves(old(msgs), expected, event, msgs, Handed(expected, message))
      ensures out == old(out) + Listed(Handed(expected, message))
      ensures wire == old(wire) + Reads(old(msgs), expected, event)
      ensures message.Some? <==> ret == Got(expected)
      ensures event.NoLock? ==> !ret.Got?
      ensures !event.NoLock? && message.None? ==>
                ret == if event.WireIdle? then WouldBlock
                       else if event.WireMsg? && event.msg.kind != Malformed then Got(event.msg.kind) else Error
    {
      ghost var o := Recv(msgs, expected, event);
      forall k ensures Conserved(out + Listed(o.delivered), o.queue, wire + Listed(o.read), k) {
        RecvConserves(msgs, expected, event, out, wire, k);
      }
      RecvServes(msgs, expected, event);
      ret, message := Receive(expected, event);
      out, wire := out + Listed(o.delivered), wire + Listed(o.read);
    }

    /** The code of recv_msg(). */
    method Receive(expected: Kind, event: Event<T>) returns (ret: Ret, message: Option<T>)
      requires expected != Malformed
      modifies this`msgs
      ensures msgs == Recv(old(msgs), expected, event).queue
      ensures Handed(expected, message) == Recv(old(msgs), expected, event).delivered
      ensures message.Some? <==> ret == Got(expected)
      ensures event.NoLock? ==> !ret.Got?
      ensures !event.NoLock? && message.None? ==>
                ret == if event.WireIdle? then WouldBlock
                       else if event.WireMsg? && event.msg.kind != Malformed then Got(event.msg.kind) else Error
    {
      if event.NoLock? {
        ret := *;
        return if ret.WouldBlock? then WouldBlock else Error, None;
      }
      var i := 0;
      while i < |msgs| && msgs[i].kind != expected
        invariant i <= |msgs| && FirstOf(msgs, expected) >= i
      {
        i := i + 1;
      }
      if i < |msgs| {
        var cont := msgs[i];
        msgs := msgs[..i] + msgs[i + 1..];
        return Got(cont.kind), Some(cont.body);
      }
      match event {
        case WireIdle => return WouldBlock, None;
        case WireMsg(m) =>
          if m.kind == Malformed {
            return Error, None;
          }
          if m.kind != expected {
            msgs := msgs + [m];
            return Got(m.kind), None;
          }
          return Got(m.kind), Some(m.body);
        case _ => return Error, None;
      }
    }
  }

  /** What a caller that wants `expected` is handed. */
  function Handed<T>(expected: Kind, message: Option<T>): Option<Cont<T>> {
    if message.Some? then Some(Cont(expected, message.value)) else None
  }

  /** What a call has to do, by the messages of each kind: without the lock nothing happens; if a message of the kind
      is queued the oldest one is handed over, the others of its kind and all of the other kinds stay; otherwise a
      message that comes is handed over if it is of the kind and queued last if it is of another one. */
  ghost predicate Serves<T>(queue: seq<Cont<T>>, expected: Kind, event: Event<T>,
                            queue': seq<Cont<T>>, handed: Option<Cont<T>>)
  {
    var waiting := OfKind(queue, expected);
    if event.NoLock? then queue' == queue && handed == None
    else if waiting != [] then
      && handed == Some(waiting[0])
      && forall k :: OfKind(queue', k) == if k == expected then waiting[1..] else OfKind(queue, k)
    else if event.WireMsg? && event.msg.kind == expected then queue' == queue && handed == Some(event.msg)
    else if event.WireMsg? && event.msg.kind != Malformed then queue' == queue + [event.msg] && handed == None
    else queue' == queue && handed == None
  }

  /** What a call takes off the wire: nothing while a message of its kind is queued. */
  function Reads<T>(queue: seq<Cont<T>>, expected: Kind, event: Event<T>): seq<Cont<T>> {
    if OfKind(queue, expected) == [] && event.WireMsg? && event.msg.kind != Malformed then [event.msg] else []
  }

  /** The messages of one kind, in order. */
  function OfKind<T>(ms: seq<Cont<T>>, k: Kind): seq<Cont<T>> {
    if ms == [] then []
    else (if ms[0].kind == k then [ms[0]] else []) + OfKind(ms[1..], k)
  }

  lemma {:induction false} OfKindAppend<T>(a: seq<Cont<T>>, b: seq<Cont<T>>, k: Kind)
    ensures OfKind(a + b, k) == OfKind(a, k) + OfKind(b, k)
  {
    if a == [] {
      assert a + b == b;
    } else {
      assert (a + b)[0] == a[0] && (a + b)[1..] == a[1..] + b;
      OfKindAppend(a[1..], b, k);
    }
  }

  lemma OfKindOne<T>(m: Cont<T>, k: Kind)
    ensures OfKind([m], k) == if m.kind == k then [m] else []
  {
  }

  lemma {:induction false} OfKindNone<T>(ms: seq<Cont<T>>, k: Kind)
    requires forall j :: 0 <= j < |ms| ==> ms[j].kind != k
    ensures OfKind(ms, k) == []
  {
    if ms != [] {
      OfKindNone(ms[1..], k);
    }
  }

  function Listed<T>(o: Option<Cont<T>>): seq<Cont<T>> {
    if o.Some? then [o.value] else []
  }

  /** For kind `k`: what was delivered followed by what is queued is what came off the wire. */
  ghost predicate Conserved<T>(out: seq<Cont<T>>, queue: seq<Cont<T>>, wire: seq<Cont<T>>, k: Kind) {
    OfKind(out, k) + OfKind(queue, k) == OfKind(wire, k)
  }

  lemma TakeFromMiddle<T>(a: seq<Cont<T>>, m: Cont<T>, b: seq<Cont<T>>, k: Kind)
    requires k == m.kind ==> OfKind(a, k) == []
    ensures OfKind([m], k) + OfKind(a + b, k) == OfKind(a + ([m] + b), k)
  {
    OfKindAppend(a, [m] + b, k);
    OfKindAppend([m], b, k);
    OfKindAppend(a, b, k);
    OfKindOne(m, k);
  }

  /** Taking the first message of a kind out of a queue takes it off the front of that kind alone. */
  lemma TakeFirst<T>(queue: seq<Cont<T>>, expected: Kind, k: Kind)
    requires FirstOf(queue, expected) < |queue|
    ensures var i := FirstOf(queue, expected);
            OfKind([queue[i]], k) + OfKind(queue[..i] + queue[i + 1..], k) == OfKind(queue, k)
  {
    var i := FirstOf(queue, expected);
    assert queue == queue[..i] + ([queue[i]] + queue[i + 1..]);
    if k == expected {
      OfKindNone(queue[..i], k);
    }
    TakeFromMiddle(queue[..i], queue[i], queue[i + 1..], k);
  }

  /** The search finds the oldest message of the kind if there is one. */
  lemma FirstIsOldest<T>(queue: seq<Cont<T>>, kind: Kind)
    ensures FirstOf(queue, kind) < |queue| <==> OfKind(queue, kind) != []
    ensures FirstOf(queue, kind) < |queue| ==> OfKind(queue, kind)[0] == queue[FirstOf(queue, kind)]
  {
    var i := FirstOf(queue, kind);
    if i < |queue| {
      TakeFirst(queue, kind, kind);
      OfKindOne(queue[i], kind);
    } else {
      OfKindNone(queue, kind);
    }
  }

  /** What is left of each kind when the oldest message of one is taken. */
  lemma LeftOfKind<T>(queue: seq<Cont<T>>, expected: Kind, k: Kind)
    requires FirstOf(queue, expected) < |queue|
    ensures OfKind(queue, expected) != []
    ensures var i := FirstOf(queue, expected);
            OfKind(queue[..i] + queue[i + 1..], k)
            == if k == expected then OfKind(queue, k)[1..] else OfKind(queue, k)
  {
    var i := FirstOf(queue, expected);
    FirstIsOldest(queue, expected);
    TakeFirst(queue, expected, k);
    OfKindOne(queue[i], k);
    var left := OfKind(queue[..i] + queue[i + 1..], k);
    assert ([queue[i]] + left)[1..] == left && [] + left == left;
  }

  /** Whatever is queued and whatever comes, one call does what it has to do. */
  lemma RecvServes<T>(queue: seq<Cont<T>>, expected: Kind, event: Event<T>)
    requires expected != Malformed
    ensures var o := Recv(queue, expected, event);
            Serves(queue, expected, event, o.queue, o.delivered) && Listed(o.read) == Reads(queue, expected, event)
  {
    FirstIsOldest(queue, expected);
    if FirstOf(queue, expected) < |queue| {
      forall k ensures var i := FirstOf(queue, expected);
                       OfKind(queue[..i] + queue[i + 1..], k)
                       == if k == expected then OfKind(queue, k)[1..] else OfKind(queue, k) {
        LeftOfKind(queue, expected, k);
      }
    }
  }

  lemma Regroup<T>(a: seq<T>, b: seq<T>, c: seq<T>)
    ensures a + b + c == a + (b + c)
  {
  }

  /** A message served from the queue. */
  lemma FromQueue<T>(out: seq<Cont<T>>, queue: seq<Cont<T>>, wire: seq<Cont<T>>, expected: Kind, k: Kind)
    requires Conserved(out, queue, wire, k) && FirstOf(queue, expected) < |queue|
    ensures var i := FirstOf(queue, expected);
            Conserved(out + [queue[i]], queue[..i] + queue[i + 1..], wire, k)
  {
    var i := FirstOf(queue, expected);
    TakeFirst(queue, expected, k);
    OfKindAppend(out, [queue[i]], k);
    Regroup(OfKind(out, k), OfKind([queue[i]], k), OfKind(queue[..i] + queue[i + 1..], k));
  }

  /** A message handed on directly, which is right only because none of its kind is waiting. */
  lemma Direct<T>(out: seq<Cont<T>>, queue: seq<Cont<T>>, wire: seq<Cont<T>>, m: Cont<T>, k: Kind)
    requires Conserved(out, queue, wire, k) && FirstOf(queue, m.kind) == |queue|
    ensures Conserved(out + [m], queue, wire + [m], k)
  {
    OfKindAppend(out, [m], k);
    OfKindAppend(wire, [m], k);
    OfKindOne(m, k);
    var a, q := OfKind(out, k), OfKind(queue, k);
    if k == m.kind {
      OfKindNone(queue, k);
      assert a + q == a && a + [m] + q == a + [m];
    } else {
      assert a + [] == a && OfKind(wire, k) + [] == OfKind(wire, k);
    }
  }

  /** A message of the other kind is queued behind the others. */
  lemma Queued<T>(out: seq<Cont<T>>, queue: seq<Cont<T>>, wire: seq<Cont<T>>, m: Cont<T>, k: Kind)
    requires Conserved(out, queue, wire, k)
    ensures Conserved(out, queue + [m], wire + [m], k)
  {
    OfKindAppend(queue, [m], k);
    OfKindAppend(wire, [m], k);
    Regroup(OfKind(out, k), OfKind(queue, k), OfKind([m], k));
  }

  lemma Untouched<T>(out: seq<T>, wire: seq<T>)
    ensures out + [] == out && wire + [] == wire
  {
  }

  /** Conservation in one call, for either kind. */
  lemma RecvConserves<T>(queue: seq<Cont<T>>, expected: Kind, event: Event<T>,
                         out: seq<Cont<T>>, wire: seq<Cont<T>>, k: Kind)
    requires expected != Malformed && Conserved(out, queue, wire, k)
    ensures var o := Recv(queue, expected, event);
            Conserved(out + Listed(o.delivered), o.queue, wire + Listed(o.read), k)
  {
    Untouched(out, wire);
    var o := Recv(queue, expected, event);
    if event.NoLock? {
      assert o == Outcome(queue, None, None);
    } else if FirstOf(queue, expected) < |queue| {
      var i := FirstOf(queue, expected);
      FromQueue(out, queue, wire, expected, k);
      assert o == Outcome(queue[..i] + queue[i + 1..], Some(queue[i]), None);
    } else if event.WireMsg? && event.msg.kind == expected {
      Direct(out, queue, wire, event.msg, k);
      assert o == Outcome(queue, Some(event.msg), Some(event.msg));
    } else if event.WireMsg? && event.msg.kind != Malformed {
      Queued(out, queue, wire, event.msg, k);
      assert o == Outcome(queue + [event.msg], None, Some(event.msg));
    } else {
      assert o == Outcome(queue, None, None);
    }
  }

  /** A call: which kind the caller wants and what happened meanwhile. */
  datatype Call<T> = Call(expected: Kind, event: Event<T>)

  /** The whole history of a run of calls that starts with an empty queue. */
  datatype History<T> = History(queue: seq<Cont<T>>, delivered: seq<Cont<T>>, read: seq<Cont<T>>)

  function Play<T>(calls: seq<Call<T>>): History<T> {
    if calls == [] then History([], [], [])
    else
      var h := Play(calls[..|calls| - 1]);
      var c := calls[|calls| - 1];
      var o := Recv(h.queue, c.expected, c.event);
      History(o.queue, h.delivered + Listed(o.delivered), h.read + Listed(o.read))
  }

  /** Demultiplexing over whole runs: after any calls by both kinds of callers, in any order and with any
      events, each kind has been delivered in the order it was read, nothing recognised is lost or
      duplicated, and what is missing from the deliveries is still queued. */
  lemma {:induction false} RunConserves<T>(calls: seq<Call<T>>, k: Kind)
    requires forall i :: 0 <= i < |calls| ==> calls[i].expected != Malformed
    ensures var h := Play(calls);
            OfKind(h.delivered, k) + OfKind(h.queue, k) == OfKind(h.read, k)
  {
    if calls != [] {
      var n := |calls| - 1;
      RunConserves(calls[..n], k);
      var h := Play(calls[..n]);
      assert Conserved(h.delivered, h.queue, h.read, k);
      RecvConserves(h.queue, calls[n].expected, calls[n].event, h.delivered, h.read, k);
    }
  }
}
