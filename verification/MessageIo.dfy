/** Writing whole messages: nc_write_msg_io() (src/io.c:909-1163), for one caller as a method and for many
    threads as a step system over the bytes on the wire. */
module MessageIo {
  import opened Bytes
  import opened Decimal
  import opened Framing
  import opened Hello
  import opened MessageId
  import opened RpcText
  import opened Runs
  import opened Sequences
  import opened Transport
  import opened Writer

  /** What a caller wants to send. The body of an RPC, reply or notification is a list of texts printed by the
      data library; `action` tells an action from an RPC. */
  datatype Message =
    | Rpc(attrs: string, action: bool, body: seq<Part>)
    | HelloMsg(caps: seq<string>, sid: Option<nat>)
    | Other(body: seq<Part>)

  /** The calls of nc_write_clb() for a message when the last message-id was `msgid`. */
  function Parts(msg: Message, msgid: nat): seq<Part> {
    match msg
    case Rpc(attrs, action, body) => RpcParts(attrs, action, body, NextId(msgid))
    case HelloMsg(caps, sid) => HelloParts(caps, sid)
    case Other(body) => body
  }

  /** session->opts.client.msgid after a message. */
  function NextMsgid(msg: Message, msgid: nat): nat {
    if msg.Rpc? then NextId(msgid) else msgid
  }

  /** A peer reads message-id `id` in the text. */
  predicate CarriesId(text: string, id: nat) {
    MessageIdOf(text) == Some(id)
  }

  lemma IdInText(msg: Message, msgid: nat)
    ensures msg.Rpc? ==> CarriesId(Texts(Parts(msg, msgid)), NextMsgid(msg, msgid))
  {
    if msg.Rpc? {
      IdReadBack(msg.attrs, msg.action, msg.body, NextId(msgid));
    }
  }

  datatype WriteRet = Written | WouldBlock | WriteError

  /** nc_write_msg_io(): under the IO lock, which is given back exactly once on every path, the whole message goes out
      as one frame unless a write fails (`ok` is false then and only then), and an RPC takes the next message-id. The
      printer of the data library may give up after some calls, for reasons of its own or because a write failed
      (`givesUp`); then the message is left without its end and no message-id is taken. */
  method WriteMsgIo(session: Session, msg: Message, givesUp: Option<nat>)
    returns (ret: WriteRet, ghost ok: bool, ghost chunks: seq<string>)
    requires !session.ioHeld
    requires forall i :: 0 <= i < |Parts(msg, session.msgid)| ==> |Parts(msg, session.msgid)[i].text| <= ULONG_MAX
    requires givesUp.Some? ==> !msg.HelloMsg? && givesUp.value <= |Parts(msg, session.msgid)|
    modifies session`wire, session`status, session`termReason, session`writeErrors, session`msgid,
             session`ioHeld, session`taken, session`given
    ensures !session.ioHeld
    ensures 0 <= session.given - old(session.given) == session.taken - old(session.taken) <= 1
    ensures ok ==>
              && ValidChunks(chunks)
              && Concat(chunks) == Texts(Parts(msg, old(session.msgid)))
              && session.wire == old(session.wire) + Frame(session.version, chunks)
    ensures session.taken == old(session.taken) || (msg.HelloMsg? && session.version != V10) ==>
              !ok && ret != Written && session.wire == old(session.wire) && session.msgid == old(session.msgid)
    ensures session.taken > old(session.taken) && !(msg.HelloMsg? && session.version != V10) ==>
              if givesUp.None? then
                && session.msgid == NextMsgid(msg, old(session.msgid))
                && (ok <==> session.writeErrors == old(session.writeErrors))
                && ret == if session.Alive() then Written else WriteError
              else
                && session.msgid == old(session.msgid) && old(session.wire) <= session.wire
                && !ok && ret == WriteError
                && (session.writeErrors == old(session.writeErrors) ==>
                      && Concat(chunks) <= Texts(Parts(msg, session.msgid)[..givesUp.value])
                      && session.wire == old(session.wire) + Blocks(session.version, chunks))
  {
    ok, chunks := false, [];
    if !session.Alive() {
      return WriteError, false, [];
    }
    var r := session.IoLock();
    if r < 0 {
      return WriteError, false, [];
    } else if r == 0 {
      return WouldBlock, false, [];
    }
    if msg.HelloMsg? && session.version != V10 {
      session.IoUnlock();
      return WriteError, false, [];
    }
    ret, ok, chunks := WriteLocked(session, msg, givesUp);
    session.IoUnlock();
  }

  /** The part of nc_write_msg_io() between taking the IO lock and giving it back. */
  method WriteLocked(session: Session, msg: Message, givesUp: Option<nat>)
    returns (ret: WriteRet, ghost ok: bool, ghost chunks: seq<string>)
    requires session.Alive()
    requires forall i :: 0 <= i < |Parts(msg, session.msgid)| ==> |Parts(msg, session.msgid)[i].text| <= ULONG_MAX
    requires givesUp.Some? ==> givesUp.value <= |Parts(msg, session.msgid)|
    modifies session`wire, session`status, session`termReason, session`writeErrors, session`msgid
    ensures ok ==>
              && ValidChunks(chunks)
              && Concat(chunks) == Texts(Parts(msg, old(session.msgid)))
              && session.wire == old(session.wire) + Frame(session.version, chunks)
    ensures givesUp.None? ==>
              && session.msgid == NextMsgid(msg, old(session.msgid))
              && (ok <==> session.writeErrors == old(session.writeErrors))
              && ret == if session.Alive() then Written else WriteError
    ensures givesUp.Some? ==>
              && session.msgid == old(session.msgid) && old(session.wire) <= session.wire
              && !ok && ret == WriteError
              && (session.writeErrors == old(session.writeErrors) ==>
                    && Concat(chunks) <= Texts(Parts(msg, session.msgid)[..givesUp.value])
                    && session.wire == old(session.wire) + Blocks(session.version, chunks))
  {
    if givesUp.Some? {
      chunks := WritePart(session, Parts(msg, session.msgid)[..givesUp.value]);
      return WriteError, false, chunks;
    }
    var sent;
    sent, chunks := WriteMessage(session, Parts(msg, session.msgid));
    ok := sent;
    if msg.Rpc? {
      session.msgid := NextId(session.msgid);
    }
    ret := if session.Alive() then Written else WriteError;
  }

  /** The end of nc_send_rpc(), with no other thread about: the id it returns is the one a peer reads in what was
      written. */
  method SendRpc(session: Session, msg: Message, givesUp: Option<nat>)
    returns (ret: WriteRet, msgid: Option<nat>, ghost ok: bool, ghost chunks: seq<string>)
    requires !session.ioHeld && msg.Rpc?
    requires forall i :: 0 <= i < |Parts(msg, session.msgid)| ==> |Parts(msg, session.msgid)[i].text| <= ULONG_MAX
    requires givesUp.Some? ==> givesUp.value <= |Parts(msg, session.msgid)|
    modifies session`wire, session`status, session`termReason, session`writeErrors, session`msgid,
             session`ioHeld, session`taken, session`given
    ensures ret == Written <==> msgid.Some?
    ensures ok ==> session.wire == old(session.wire) + Frame(session.version, chunks)
    ensures ok ==> MessageIdOf(Concat(chunks)) == Some(session.msgid)
    ensures msgid.Some? ==> msgid == Some(session.msgid) && session.msgid == NextId(old(session.msgid))
  {
    IdInText(msg, session.msgid);
    ret, ok, chunks := WriteMsgIo(session, msg, givesUp);
    msgid := if ret == Written then Some(session.msgid) else None;
  }

  /** A message that a thread wrote or is writing, in the order the IO lock was taken. */
  datatype Entry = Entry(thread: nat, msg: Message, msgid: nat, chunks: seq<string>)

  /** Where a thread is: outside, writing under the IO lock with bytes left, before or after it has moved the
      message-id on for an RPC (`counted`), or just after it sent the RPC at `entry` of the log, before nc_send_rpc()
      reads the message-id. */
  datatype Pc = Idle | Writing(left: string, counted: bool) | SentRpc(entry: nat)

  /** What nc_send_rpc() returned for the RPC at `entry` of the log. */
  datatype Returned = Returned(entry: nat, id: nat)

  datatype State = State(
    version: Version,
    base: nat,               // session->opts.client.msgid at the start
    msgid: nat,              // session->opts.client.msgid
    owner: Option<nat>,      // owner of the IO lock
    pc: map<nat, Pc>,
    wire: string,
    log: seq<Entry>,
    returned: seq<Returned>)

  ghost predicate Init(s: State) {
    && s.base < ID_COUNT && s.msgid == s.base && s.owner == None && s.wire == ""
    && s.log == [] && s.returned == []
    && forall t :: t in s.pc ==> s.pc[t] == Idle
  }

  /** The blocks of an entry are those of its message. */
  ghost predicate Composed(e: Entry) {
    ValidChunks(e.chunks) && Concat(e.chunks) == Texts(Parts(e.msg, e.msgid))
  }

  /** The lock is free and the thread takes it. */
  ghost predicate Acquire(s: State, s': State, e: Entry) {
    && e.thread in s.pc && s.pc[e.thread] == Idle && s.owner == None && e.msgid == s.msgid
    && s' == s.(owner := Some(e.thread),
                pc := s.pc[e.thread := Writing(Frame(s.version, e.chunks), !e.msg.Rpc?)],
                log := s.log + [e])
  }

  /** The transport takes some bytes; before an RPC is counted these do not reach into the end tag. */
  ghost predicate WriteSome(s: State, s': State, t: nat, n: nat) {
    && t in s.pc && s.pc[t].Writing? && n <= |s.pc[t].left|
    && (s.pc[t].counted || |EndTag(s.version)| <= |s.pc[t].left| - n)
    && s' == s.(wire := s.wire + s.pc[t].left[..n], pc := s.pc[t := s.pc[t].(left := s.pc[t].left[n..])])
  }

  /** All text of an RPC has been handed over and the message-id moves on; what is buffered and the end tag, at least,
      are still to be written. */
  ghost predicate Count(s: State, s': State, t: nat) {
    && t in s.pc && s.pc[t].Writing? && !s.pc[t].counted && |EndTag(s.version)| <= |s.pc[t].left|
    && s' == s.(msgid := NextId(s.msgid), pc := s.pc[t := s.pc[t].(counted := true)])
  }

  /** Everything is out and the lock is given back. */
  ghost predicate Release(s: State, s': State, t: nat) {
    && t in s.pc && s.pc[t] == Writing("", true) && s.log != []
    && s' == s.(owner := None,
                pc := s.pc[t := if s.log[|s.log| - 1].msg.Rpc? then SentRpc(|s.log| - 1) else Idle])
  }

  /** nc_send_rpc() reads the message-id, without the lock, and returns it. */
  ghost predicate Report(s: State, s': State, t: nat) {
    && t in s.pc && s.pc[t].SentRpc?
    && s' == s.(pc := s.pc[t := Idle], returned := s.returned + [Returned(s.pc[t].entry, s.msgid)])
  }

  ghost predicate Step(s: State, s': State) {
    || (exists e :: Acquire(s, s', e) && Composed(e))
    || (exists t, n: nat :: WriteSome(s, s', t, n))
    || (exists t :: Count(s, s', t))
    || (exists t :: Release(s, s', t))
    || (exists t :: Report(s, s', t))
  }

  ghost predicate Run(run: seq<State>) {
    Path(Step, run) && Init(run[0])
  }

  /** Number of RPCs in a log. */
  function Rpcs(log: seq<Entry>): nat {
    if log == [] then 0
    else Rpcs(log[..|log| - 1]) + if log[|log| - 1].msg.Rpc? then 1 else 0
  }

  /** The frames of a log one after the other. */
  function Frames(v: Version, log: seq<Entry>): string {
    FlatMap(FrameMaker(v), log)
  }

  function FrameMaker(v: Version): Entry -> string {
    (e: Entry) => Frame(v, e.chunks)
  }

  /** What the owner of the lock has still to write. */
  function Left(s: State): string {
    if s.owner.Some? && s.owner.value in s.pc && s.pc[s.owner.value].Writing? then s.pc[s.owner.value].left else ""
  }

  /** The `i`-th message was composed when the last message-id was the number of RPCs before it, counted from
      `base`. */
  ghost predicate GoodId(s: State, i: nat)
    requires i < |s.log|
  {
    s.log[i].msgid == NthId(s.base, Rpcs(s.log[..i]))
  }

  /** The owner of the lock is writing an RPC for which the message-id has not moved on yet. */
  predicate Uncounted(s: State) {
    && s.owner.Some? && s.owner.value in s.pc
    && s.pc[s.owner.value].Writing? && !s.pc[s.owner.value].counted
  }

  /** The RPCs for which the message-id has moved on. */
  function Counted(s: State): nat {
    if Uncounted(s) && s.log != [] then Rpcs(s.log[..|s.log| - 1]) else Rpcs(s.log)
  }

  ghost predicate Inv(s: State) {
    && (forall t :: t in s.pc ==> (s.pc[t].Writing? <==> s.owner == Some(t)))
    && (s.owner.Some? ==> s.owner.value in s.pc && s.log != [])
    && (Uncounted(s) ==> s.log[|s.log| - 1].msg.Rpc?)
    && s.wire + Left(s) == Frames(s.version, s.log)
    && (s.log != [] ==> |Left(s)| <= |Frame(s.version, s.log[|s.log| - 1].chunks)|)
    && (forall i :: 0 <= i < |s.log| ==> GoodId(s, i))
    && s.msgid == NthId(s.base, Counted(s))
  }

  lemma LogSnoc(v: Version, log: seq<Entry>, e: Entry)
    ensures Frames(v, log + [e]) == Frames(v, log) + Frame(v, e.chunks)
    ensures Rpcs(log + [e]) == Rpcs(log) + if e.msg.Rpc? then 1 else 0
  {
  }

  /** Earlier entries do not care what is appended. */
  lemma IdsStay(s: State, s': State)
    requires s.log <= s'.log && s'.base == s.base
    requires forall i :: 0 <= i < |s.log| ==> GoodId(s, i)
    ensures forall i :: 0 <= i < |s.log| ==> GoodId(s', i)
  {
    forall i | 0 <= i < |s.log| ensures GoodId(s', i) {
      assert GoodId(s, i);
      assert s'.log[i] == s.log[i] && s'.log[..i] == s.log[..i];
    }
  }

  lemma AcquireKeeps(s: State, s': State, e: Entry)
    requires Inv(s) && Acquire(s, s', e)
    ensures Inv(s')
  {
    LogSnoc(s.version, s.log, e);
    IdsStay(s, s');
    assert s'.log[..|s.log|] == s.log;
    assert GoodId(s', |s.log|);
    assert s.wire + "" == s.wire;
  }

  lemma WriteSomeKeeps(s: State, s': State, t: nat, n: nat)
    requires Inv(s) && WriteSome(s, s', t, n)
    ensures Inv(s')
  {
    var left := s.pc[t].left;
    IdsStay(s, s');
    assert left == left[..n] + left[n..];
    Assoc(s.wire, left[..n], left[n..]);
  }

  lemma CountKeeps(s: State, s': State, t: nat)
    requires Inv(s) && Count(s, s', t)
    ensures Inv(s')
  {
    IdsStay(s, s');
    NextOfNth(s.base, Counted(s));
  }

  lemma ReleaseKeeps(s: State, s': State, t: nat)
    requires Inv(s) && Release(s, s', t)
    ensures Inv(s')
  {
    IdsStay(s, s');
  }

  lemma StepKeeps(s: State, s': State)
    requires Inv(s) && Step(s, s')
    ensures Inv(s')
  {
    if e :| Acquire(s, s', e) {
      AcquireKeeps(s, s', e);
    } else if t, n: nat :| WriteSome(s, s', t, n) {
      WriteSomeKeeps(s, s', t, n);
    } else if t :| Count(s, s', t) {
      CountKeeps(s, s', t);
    } else if t :| Release(s, s', t) {
      ReleaseKeeps(s, s', t);
    } else {
      var t :| Report(s, s', t);
      ReportKeeps(s, s', t);
    }
  }

  lemma ReportKeeps(s: State, s': State, t: nat)
    requires Inv(s) && Report(s, s', t)
    ensures Inv(s')
  {
    IdsStay(s, s');
  }

  lemma {:induction false} RunKeeps(run: seq<State>, i: nat)
    requires Run(run) && i < |run|
    ensures Inv(run[i])
  {
    if i > 0 {
      RunKeeps(run, i - 1);
      LastStep(Step, run, i);
      StepKeeps(run[i - 1], run[i]);
    }
  }

  /** Wire atomicity over whole runs: at every point the wire holds whole frames in the order the lock was taken,
      the last one perhaps in part, and when the lock is free it holds nothing else. */
  lemma WholeFrames(run: seq<State>, i: nat)
    requires Run(run) && i < |run|
    ensures var s := run[i];
            && s.wire + Left(s) == Frames(s.version, s.log)
            && (s.owner == None ==> s.wire == Frames(s.version, s.log))
            && (s.log != [] ==> Frames(s.version, s.log[..|s.log| - 1]) <= s.wire)
  {
    RunKeeps(run, i);
    var s := run[i];
    assert s.owner == None ==> s.wire + "" == s.wire;
    if s.log != [] {
      var n := |s.log| - 1;
      PrefixOf(s.wire, Left(s), Frames(s.version, s.log[..n]), Frame(s.version, s.log[n].chunks));
    }
  }

  /** While the message-id has not moved on for an RPC, its end tag is still to be written. */
  ghost predicate CountedFirst(s: State) {
    Uncounted(s) ==> |EndTag(s.version)| <= |Left(s)|
  }

  lemma StepCountsFirst(s: State, s': State)
    requires Inv(s) && Inv(s') && CountedFirst(s) && Step(s, s')
    ensures CountedFirst(s')
  {
  }

  /** No peer can read an RPC whose message-id has not been counted: in every run its frame is still incomplete. */
  lemma {:induction false} CountedBeforeRead(run: seq<State>, i: nat)
    requires Run(run) && i < |run|
    ensures var s := run[i];
            Uncounted(s) ==>
              && s.log != [] && s.log[|s.log| - 1].msg.Rpc?
              && |EndTag(s.version)| <= |Left(s)| && s.wire + Left(s) == Frames(s.version, s.log)
  {
    RunKeeps(run, i);
    if i > 0 {
      CountedBeforeRead(run, i - 1);
      RunKeeps(run, i - 1);
      LastStep(Step, run, i);
      StepCountsFirst(run[i - 1], run[i]);
    }
  }

  lemma PrefixOf(a: string, b: string, c: string, d: string)
    requires a + b == c + d && |b| <= |d|
    ensures c <= a
  {
    assert (a + b)[..|a|] == a && (c + d)[..|c|] == c;
    assert a[..|c|] == (a + b)[..|c|];
  }

  lemma StepComposes(s: State, s': State)
    requires Step(s, s') && forall j :: 0 <= j < |s.log| ==> Composed(s.log[j])
    ensures forall j :: 0 <= j < |s'.log| ==> Composed(s'.log[j])
  {
  }

  /** Every frame on the wire is a whole message, with the message-id its writer saw under the lock. */
  lemma {:induction false} WholeMessages(run: seq<State>, i: nat)
    requires Run(run) && i < |run|
    ensures forall j :: 0 <= j < |run[i].log| ==> Composed(run[i].log[j])
  {
    if i > 0 {
      WholeMessages(run, i - 1);
      LastStep(Step, run, i);
      StepComposes(run[i - 1], run[i]);
    }
  }

  /** A reader of the peer that stands behind the first `j` frames gets the whole `j`-th message next and stands
      behind its frame, whatever threads wrote before, after or are writing now. */
  lemma ReadsBack(run: seq<State>, i: nat, j: nat)
    requires Run(run) && i < |run| && j < |Complete(run[i])|
    requires Sendable(run[i].version, Texts(Parts(run[i].log[j].msg, run[i].log[j].msgid)))
    ensures var s := run[i];
            var e := s.log[j];
            && |Frames(s.version, s.log[..j])| <= |s.wire|
            && ReadMsg(s.version, s.wire[|Frames(s.version, s.log[..j])|..])
               == Msg(Texts(Parts(e.msg, e.msgid)), |Frame(s.version, e.chunks)|)
  {
    var s := run[i];
    var whole := Complete(s);
    assert Frames(s.version, whole) <= s.wire by { WholeFrames(run, i); }
    assert Composed(s.log[j]) by { WholeMessages(run, i); }
    assert whole[..j] == s.log[..j];
    ReadAt(s.version, s.wire, whole, j);
  }

  /** The entries whose frame is complete for sure. */
  function Complete(s: State): seq<Entry> {
    if s.owner == None || s.log == [] then s.log else s.log[..|s.log| - 1]
  }

  lemma ReadAt(v: Version, wire: string, log: seq<Entry>, j: nat)
    requires Frames(v, log) <= wire && j < |log| && Composed(log[j])
    requires Sendable(v, Texts(Parts(log[j].msg, log[j].msgid)))
    ensures |Frames(v, log[..j])| <= |wire|
    ensures ReadMsg(v, wire[|Frames(v, log[..j])|..])
            == Msg(Texts(Parts(log[j].msg, log[j].msgid)), |Frame(v, log[j].chunks)|)
  {
    var tail := FlatMap(FrameMaker(v), log[j + 1..]);
    FlatMapAt(FrameMaker(v), log, j);
    var rest := Behind(wire, Frames(v, log[..j]), Frame(v, log[j].chunks), tail);
    RoundTrip(v, log[j].chunks, rest);
  }

  lemma Behind(wire: string, head: string, frame: string, tail: string) returns (rest: string)
    requires head + (frame + tail) <= wire
    ensures |head| <= |wire| && wire[|head|..] == frame + rest
  {
    var n := |head + (frame + tail)|;
    assert wire == head + (frame + tail) + wire[n..];
    rest := tail + wire[n..];
    assert wire == head + (frame + rest);
  }

  /** The message-id a peer reads in the text of a frame. */
  function IdOf(e: Entry): Option<nat> {
    MessageIdOf(Concat(e.chunks))
  }

  lemma IdOfNth(s: State, j: nat)
    requires j < |s.log| && s.log[j].msg.Rpc? && GoodId(s, j) && Composed(s.log[j])
    ensures IdOf(s.log[j]) == Some(NthId(s.base, Rpcs(s.log[..j + 1])))
  {
    var e := s.log[j];
    assert s.log[..j + 1] == s.log[..j] + [e];
    LogSnoc(s.version, s.log[..j], e);
    NextOfNth(s.base, Rpcs(s.log[..j]));
    IdInText(e.msg, e.msgid);
  }

  /** The `n`-th RPC written carries the text of the `n`-th message-id after `base`: ids are consecutive. */
  lemma ConsecutiveIds(run: seq<State>, i: nat, j: nat)
    requires Run(run) && i < |run| && j < |run[i].log| && run[i].log[j].msg.Rpc?
    ensures var s := run[i];
            IdOf(s.log[j]) == Some(NthId(s.base, Rpcs(s.log[..j + 1])))
  {
    RunKeeps(run, i);
    assert GoodId(run[i], j);
    assert Composed(run[i].log[j]) by { WholeMessages(run, i); }
    IdOfNth(run[i], j);
  }

  /** A reader of the peer that stands behind the first `j` frames, the next being that of the `n`-th RPC, reads the
      `n`-th message-id after `base` in the message it gets. */
  lemma IdsOnTheWire(run: seq<State>, i: nat, j: nat)
    requires Run(run) && i < |run| && j < |Complete(run[i])| && run[i].log[j].msg.Rpc?
    requires Sendable(run[i].version, Texts(Parts(run[i].log[j].msg, run[i].log[j].msgid)))
    ensures var s := run[i];
            && |Frames(s.version, s.log[..j])| <= |s.wire|
            && var r := ReadMsg(s.version, s.wire[|Frames(s.version, s.log[..j])|..]);
            r.Msg? && MessageIdOf(r.data) == Some(NthId(s.base, Rpcs(s.log[..j + 1])))
  {
    ReadsBack(run, i, j);
    ConsecutiveIds(run, i, j);
    assert Composed(run[i].log[j]) by { WholeMessages(run, i); }
  }

  lemma {:induction false} RpcsGrow(log: seq<Entry>, m: nat, n: nat)
    requires m <= n <= |log|
    ensures Rpcs(log[..m]) <= Rpcs(log[..n])
    decreases n
  {
    if m < n {
      assert log[..n][..n - 1] == log[..n - 1];
      RpcsGrow(log, m, n - 1);
    }
  }

  lemma NthIdsDiffer(log: seq<Entry>, base: nat, j: nat, k: nat)
    requires j < k < |log| && log[k].msg.Rpc? && Rpcs(log[..k + 1]) - Rpcs(log[..j + 1]) < ID_COUNT
    ensures NthId(base, Rpcs(log[..j + 1])) != NthId(base, Rpcs(log[..k + 1]))
  {
    RpcsGrow(log, j + 1, k);
    assert log[..k + 1][..k] == log[..k];
    SameIdIff(base, Rpcs(log[..j + 1]), Rpcs(log[..k + 1]));
  }

  /** A peer reads different message-ids in two RPCs unless 2^64 RPCs lie between them. */
  lemma DistinctIds(run: seq<State>, i: nat, j: nat, k: nat)
    requires Run(run) && i < |run| && j < k < |run[i].log| && run[i].log[j].msg.Rpc? && run[i].log[k].msg.Rpc?
    requires Rpcs(run[i].log[..k + 1]) - Rpcs(run[i].log[..j + 1]) < ID_COUNT
    ensures IdOf(run[i].log[j]) != IdOf(run[i].log[k])
  {
    ConsecutiveIds(run, i, j);
    ConsecutiveIds(run, i, k);
    NthIdsDiffer(run[i].log, run[i].base, j, k);
  }
}
