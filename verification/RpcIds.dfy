/** The message-ids that nc_send_rpc() returns (src/session_client.c:3139-3150) when threads share a session: the
    counter is read after the IO lock has been given back. */
module RpcIds {
  import opened Bytes
  import opened Decimal
  import opened Framing
  import opened MessageId
  import opened MessageIo
  import opened Runs
  import opened Writer

  /** A thread that has sent an RPC has not sent anything since. */
  ghost predicate Latest(s: State, t: nat, entry: nat) {
    && entry < |s.log| && s.log[entry].thread == t && s.log[entry].msg.Rpc?
    && (s.owner.Some? ==> entry < |s.log| - 1)
    && forall k :: entry < k < |s.log| ==> s.log[k].thread != t
  }

  ghost predicate SentInv(s: State) {
    && (s.owner.Some? ==> s.log != [] && s.log[|s.log| - 1].thread == s.owner.value)
    && (forall t :: t in s.pc && s.pc[t].SentRpc? ==> Latest(s, t, s.pc[t].entry))
  }

  lemma StepKeepsSent(s: State, s': State)
    requires Inv(s) && SentInv(s) && Step(s, s')
    ensures SentInv(s')
  {
    if e :| Acquire(s, s', e) {
      AcquireKeepsSent(s, s', e);
    } else if t :| Release(s, s', t) {
      ReleaseKeepsSent(s, s', t);
    } else {
      assert s'.log == s.log && s'.owner == s.owner;
      forall u | u in s'.pc && s'.pc[u].SentRpc? ensures Latest(s', u, s'.pc[u].entry) {
        assert Latest(s, u, s.pc[u].entry);
      }
    }
  }

  lemma AcquireKeepsSent(s: State, s': State, e: Entry)
    requires SentInv(s) && Acquire(s, s', e)
    ensures SentInv(s')
  {
    forall t | t in s'.pc && s'.pc[t].SentRpc? ensures Latest(s', t, s'.pc[t].entry) {
      assert Latest(s, t, s.pc[t].entry);
    }
  }

  lemma ReleaseKeepsSent(s: State, s': State, t: nat)
    requires Inv(s) && SentInv(s) && Release(s, s', t)
    ensures SentInv(s')
  {
    forall u | u in s'.pc && s'.pc[u].SentRpc? ensures Latest(s', u, s'.pc[u].entry) {
      assert u != t ==> Latest(s, u, s.pc[u].entry);
    }
  }

  lemma {:induction false} RunKeepsSent(run: seq<State>, i: nat)
    requires Run(run) && i < |run|
    ensures SentInv(run[i])
  {
    if i > 0 {
      RunKeepsSent(run, i - 1);
      RunKeeps(run, i - 1);
      LastStep(Step, run, i);
      StepKeepsSent(run[i - 1], run[i]);
    }
  }

  /** The RPCs for which other threads have moved the message-id on since the one at `entry`. */
  function Since(s: State, entry: nat): int
    requires entry < |s.log|
  {
    Counted(s) - Rpcs(s.log[..entry + 1])
  }

  lemma SinceIsNat(s: State, t: nat, entry: nat)
    requires Latest(s, t, entry)
    ensures Since(s, entry) >= 0
  {
    RpcsGrow(s.log, entry + 1, if s.owner.Some? then |s.log| - 1 else |s.log|);
    assert s.log[..|s.log|] == s.log;
    RpcsGrow(s.log, entry + 1, |s.log|);
  }

  lemma SameSince(s: State, entry: nat)
    requires entry < |s.log| && Since(s, entry) >= 0
    ensures NthId(s.base, Counted(s)) == NthId(s.base, Rpcs(s.log[..entry + 1])) <==> Since(s, entry) % ID_COUNT == 0
  {
    SameIdIff(s.base, Rpcs(s.log[..entry + 1]), Counted(s));
  }

  /** What nc_send_rpc() returns is the message-id it wrote if and only if the number of RPCs for which other threads
      have moved the message-id on since, whether they still hold the lock or not, is a multiple of 2^64. */
  lemma ReportedIdIff(run: seq<State>, i: nat, t: nat)
    requires Run(run) && i < |run| - 1 && Report(run[i], run[i + 1], t)
    ensures var s, n := run[i], |run[i].returned|;
            var r := run[i + 1].returned[n];
            && r.entry < |s.log| && s.log[r.entry].thread == t && Since(s, r.entry) >= 0
            && (Some(r.id) == IdOf(s.log[r.entry]) <==> Since(s, r.entry) % ID_COUNT == 0)
  {
    var s := run[i];
    RunKeeps(run, i);
    RunKeepsSent(run, i);
    var entry := s.pc[t].entry;
    SinceIsNat(s, t, entry);
    ConsecutiveIds(run, i, entry);
    SameSince(s, entry);
  }

  /** All RPCs of the log were sent by one thread. */
  ghost predicate OneSender(log: seq<Entry>, t: nat) {
    forall k :: 0 <= k < |log| && log[k].msg.Rpc? ==> log[k].thread == t
  }

  lemma {:induction false} NoRpcsSince(log: seq<Entry>, m: nat, n: nat)
    requires m <= n <= |log| && forall k :: m <= k < n ==> !log[k].msg.Rpc?
    ensures Rpcs(log[..n]) == Rpcs(log[..m])
    decreases n
  {
    if m < n {
      assert log[..n][..n - 1] == log[..n - 1];
      NoRpcsSince(log, m, n - 1);
    }
  }

  lemma AloneSinceNothing(s: State, t: nat, entry: nat, sender: nat)
    requires Inv(s) && Latest(s, t, entry) && OneSender(s.log, sender)
    ensures Since(s, entry) == 0
  {
    assert forall k :: entry < k < |s.log| ==> !s.log[k].msg.Rpc?;
    assert !Uncounted(s);
    NoRpcsSince(s.log, entry + 1, |s.log|);
    assert s.log[..|s.log|] == s.log;
  }

  /** Every id returned so far is the one that was written. */
  ghost predicate ReturnedRight(s: State) {
    forall k :: 0 <= k < |s.returned| ==>
      var r := s.returned[k]; r.entry < |s.log| && s.log[r.entry].msg.Rpc? && Some(r.id) == IdOf(s.log[r.entry])
  }

  lemma LogGrows(s: State, s': State)
    requires Step(s, s')
    ensures s.log <= s'.log
    ensures s'.returned == s.returned || exists t :: Report(s, s', t)
  {
  }

  /** With one sender, what a call returns is right. */
  lemma ReportRight(run: seq<State>, i: nat, t: nat, sender: nat)
    requires Run(run) && i < |run| - 1 && Report(run[i], run[i + 1], t) && OneSender(run[i].log, sender)
    ensures var s, r := run[i], run[i + 1].returned[|run[i].returned|];
            r.entry < |s.log| && s.log[r.entry].msg.Rpc? && Some(r.id) == IdOf(s.log[r.entry])
  {
    var s := run[i];
    assert Inv(s) by { RunKeeps(run, i); }
    assert Latest(s, t, s.pc[t].entry) by { RunKeepsSent(run, i); }
    AloneSinceNothing(s, t, s.pc[t].entry, sender);
    ReportedIdIff(run, i, t);
  }

  /** While one thread alone sends RPCs, whatever other messages other threads send, nc_send_rpc() always returns the
      message-id it wrote. */
  lemma {:induction false} OneSenderIds(run: seq<State>, i: nat, sender: nat)
    requires Run(run) && i < |run| && OneSender(run[i].log, sender)
    ensures ReturnedRight(run[i])
  {
    if i > 0 {
      var s, s' := run[i - 1], run[i];
      LastStep(Step, run, i);
      LogGrows(s, s');
      assert forall k :: 0 <= k < |s.log| ==> s'.log[k] == s.log[k];
      OneSenderIds(run, i - 1, sender);
      if t :| Report(s, s', t) {
        ReportRight(run, i - 1, t, sender);
        assert s'.log == s.log;
      }
    }
  }

  /** The `k`-th call to return was for the `k`-th RPC. */
  ghost predicate InTurn(log: seq<Entry>, returned: seq<Returned>) {
    forall k :: 0 <= k < |returned| ==>
      returned[k].entry < |log| && Rpcs(log[..returned[k].entry + 1]) == k + 1
  }

  lemma InTurnStays(log: seq<Entry>, log': seq<Entry>, returned: seq<Returned>)
    requires InTurn(log, returned) && log <= log'
    ensures InTurn(log', returned)
  {
    forall k | 0 <= k < |returned|
      ensures returned[k].entry < |log'| && Rpcs(log'[..returned[k].entry + 1]) == k + 1
    {
      assert log'[..returned[k].entry + 1] == log[..returned[k].entry + 1];
    }
  }

  /** One call of the sender has moved the message-id on and not returned yet. */
  function Pending(s: State, sender: nat): nat {
    if sender !in s.pc then 0
    else if s.pc[sender].SentRpc? then 1
    else if s.pc[sender].Writing? && s.pc[sender].counted && s.log != [] && s.log[|s.log| - 1].msg.Rpc? then 1
    else 0
  }

  /** With one sender, the RPCs counted are those whose call has returned and the one that has not. */
  ghost predicate InOrder(s: State, sender: nat) {
    Counted(s) == |s.returned| + Pending(s, sender) && InTurn(s.log, s.returned)
  }

  lemma AcquireKeepsOrder(s: State, s': State, e: Entry, sender: nat)
    requires Inv(s) && OneSender(s'.log, sender) && InOrder(s, sender) && Acquire(s, s', e)
    ensures InOrder(s', sender)
  {
    assert s'.log[..|s.log|] == s.log && s'.log[|s.log|] == e;
    LogSnoc(s.version, s.log, e);
    InTurnStays(s.log, s'.log, s.returned);
  }

  lemma CountKeepsOrder(s: State, s': State, t: nat, sender: nat)
    requires Inv(s) && SentInv(s) && OneSender(s.log, sender) && InOrder(s, sender) && Count(s, s', t)
    ensures InOrder(s', sender)
  {
    assert s.owner == Some(t) && t == sender;
  }

  lemma ReleaseKeepsOrder(s: State, s': State, t: nat, sender: nat)
    requires Inv(s) && SentInv(s) && OneSender(s.log, sender) && InOrder(s, sender) && Release(s, s', t)
    ensures InOrder(s', sender)
  {
    assert s.owner == Some(t);
    assert s.log[|s.log| - 1].msg.Rpc? ==> t == sender;
  }

  lemma ReportKeepsOrder(s: State, s': State, t: nat, sender: nat)
    requires Inv(s) && SentInv(s) && OneSender(s.log, sender) && InOrder(s, sender) && Report(s, s', t)
    ensures InOrder(s', sender)
  {
    var entry := s.pc[t].entry;
    assert Latest(s, t, entry);
    AloneSinceNothing(s, t, entry, sender);
  }

  lemma StepKeepsOrder(s: State, s': State, sender: nat)
    requires Inv(s) && SentInv(s) && Step(s, s') && OneSender(s.log, sender) && OneSender(s'.log, sender)
    requires InOrder(s, sender)
    ensures InOrder(s', sender)
  {
    if e :| Acquire(s, s', e) {
      AcquireKeepsOrder(s, s', e, sender);
    } else if t :| Count(s, s', t) {
      CountKeepsOrder(s, s', t, sender);
    } else if t :| Release(s, s', t) {
      ReleaseKeepsOrder(s, s', t, sender);
    } else if t :| Report(s, s', t) {
      ReportKeepsOrder(s, s', t, sender);
    }
  }

  lemma {:induction false} RunKeepsOrder(run: seq<State>, i: nat, sender: nat)
    requires Run(run) && i < |run| && OneSender(run[i].log, sender)
    ensures InOrder(run[i], sender)
  {
    if i > 0 {
      var s, s' := run[i - 1], run[i];
      LastStep(Step, run, i);
      LogGrows(s, s');
      assert forall k :: 0 <= k < |s.log| ==> s'.log[k] == s.log[k];
      RunKeepsOrder(run, i - 1, sender);
      RunKeeps(run, i - 1);
      RunKeepsSent(run, i - 1);
      StepKeepsOrder(s, s', sender);
    }
  }

  /** With one sender the ids come back consecutively. */
  lemma OneSenderCounts(run: seq<State>, i: nat, sender: nat, k: nat)
    requires Run(run) && i < |run| && OneSender(run[i].log, sender) && k < |run[i].returned|
    ensures run[i].returned[k].id == NthId(run[i].base, k + 1)
  {
    OneSenderIds(run, i, sender);
    RunKeepsOrder(run, i, sender);
    ConsecutiveIds(run, i, run[i].returned[k].entry);
  }

  /** The state after a thread has taken the lock. */
  function Acquired(s: State, e: Entry): State {
    s.(owner := Some(e.thread), pc := s.pc[e.thread := Writing(Frame(s.version, e.chunks), !e.msg.Rpc?)],
       log := s.log + [e])
  }

  /** The state after a thread has moved the message-id on. */
  function HasCounted(s: State, t: nat): State
    requires t in s.pc && s.pc[t].Writing?
  {
    s.(msgid := NextId(s.msgid), pc := s.pc[t := s.pc[t].(counted := true)])
  }

  lemma AcquireLeads(s0: State, s: State, e: Entry)
    requires Leads(Step, s0, s) && s.owner == None && e.thread in s.pc && s.pc[e.thread] == Idle
    requires e.msgid == s.msgid && Composed(e)
    ensures Leads(Step, s0, Acquired(s, e))
  {
    assert Acquire(s, Acquired(s, e), e);
    LeadsNext(Step, s0, s, Acquired(s, e));
  }

  lemma CountLeads(s0: State, s: State, t: nat)
    requires Leads(Step, s0, s) && t in s.pc && s.pc[t].Writing? && !s.pc[t].counted
    requires |EndTag(s.version)| <= |s.pc[t].left|
    ensures Leads(Step, s0, HasCounted(s, t))
  {
    assert Count(s, HasCounted(s, t), t);
    LeadsNext(Step, s0, s, HasCounted(s, t));
  }

  lemma WriteLeads(s0: State, s: State, t: nat)
    requires Leads(Step, s0, s) && t in s.pc && s.pc[t].Writing? && s.pc[t].counted
    ensures Leads(Step, s0, s.(wire := s.wire + s.pc[t].left, pc := s.pc[t := Writing("", true)]))
  {
    var left := s.pc[t].left;
    var s' := s.(wire := s.wire + left, pc := s.pc[t := Writing("", true)]);
    assert left[..|left|] == left && left[|left|..] == "";
    assert WriteSome(s, s', t, |left|);
    LeadsNext(Step, s0, s, s');
  }

  lemma ReleaseLeads(s0: State, s: State, t: nat)
    requires Leads(Step, s0, s) && t in s.pc && s.pc[t] == Writing("", true)
    requires s.log != [] && s.log[|s.log| - 1].msg.Rpc?
    ensures Leads(Step, s0, s.(owner := None, pc := s.pc[t := SentRpc(|s.log| - 1)]))
  {
    var s' := s.(owner := None, pc := s.pc[t := SentRpc(|s.log| - 1)]);
    assert Release(s, s', t);
    LeadsNext(Step, s0, s, s');
  }

  /** The state after a thread has sent a whole RPC and given back the lock. */
  function AfterRpc(s: State, e: Entry): State {
    s.(msgid := NextId(s.msgid), pc := s.pc[e.thread := SentRpc(|s.log|)],
       wire := s.wire + Frame(s.version, e.chunks), log := s.log + [e])
  }

  lemma SendWhole(s0: State, s: State, e: Entry)
    requires Leads(Step, s0, s) && s.owner == None && e.thread in s.pc && s.pc[e.thread] == Idle
    requires e.msgid == s.msgid && e.msg.Rpc? && Composed(e)
    ensures Leads(Step, s0, AfterRpc(s, e))
  {
    var t := e.thread;
    AcquireLeads(s0, s, e);
    var s1 := Acquired(s, e);
    CountLeads(s0, s1, t);
    var s2 := HasCounted(s1, t);
    WriteLeads(s0, s2, t);
    var s3 := s2.(wire := s.wire + Frame(s.version, e.chunks), pc := s2.pc[t := Writing("", true)]);
    ReleaseLeads(s0, s3, t);
    assert s3.pc[t := SentRpc(|s.log|)] == s.pc[t := SentRpc(|s.log|)];
    assert s3.(owner := None, pc := s3.pc[t := SentRpc(|s.log|)]) == AfterRpc(s, e);
  }

  lemma ComposedSingles(thread: nat, msg: Message, msgid: nat)
    ensures var e := Entry(thread, msg, msgid, Singles(Texts(Parts(msg, msgid))));
            Composed(e) && (msg.Rpc? ==> IdOf(e) == Some(NextId(msgid)))
  {
    ConcatSingles(Texts(Parts(msg, msgid)));
    IdInText(msg, msgid);
  }

  lemma ReportLeads(s0: State, s: State, t: nat)
    requires Leads(Step, s0, s) && t in s.pc && s.pc[t].SentRpc?
    ensures Leads(Step, s0, s.(pc := s.pc[t := Idle], returned := s.returned + [Returned(s.pc[t].entry, s.msgid)]))
  {
    var s' := s.(pc := s.pc[t := Idle], returned := s.returned + [Returned(s.pc[t].entry, s.msgid)]);
    assert Report(s, s', t);
    LeadsNext(Step, s0, s, s');
  }

  /** The last call to return was that of `t`, and it returned another id than it had written. */
  ghost predicate WrongLast(s: State, t: nat) {
    && s.returned != []
    && var r := s.returned[|s.returned| - 1];
    && r.entry < |s.log| && s.log[r.entry].thread == t && s.log[r.entry].msg.Rpc?
    && IdOf(s.log[r.entry]) != None && IdOf(s.log[r.entry]) != Some(r.id)
  }

  /** The condition is needed: from every state in which two threads are free to send, one can send an RPC, the other
      take the lock and move the message-id on, and then the first one returns a wrong id, while the other has not even
      written a byte. */
  lemma WrongIdReturned(s: State, t: nat, u: nat, msg: Message)
    requires s.owner == None && msg.Rpc?
    requires t in s.pc && u in s.pc && t != u && s.pc[t] == Idle && s.pc[u] == Idle
    ensures exists s' :: Leads(Step, s, s') && WrongLast(s', t) && |s'.log| == |s.log| + 2
                         && s'.wire == s.wire + Frame(s.version, s'.log[|s.log|].chunks)
  {
    LeadsSelf(Step, s);
    var e := Entry(t, msg, s.msgid, Singles(Texts(Parts(msg, s.msgid))));
    ComposedSingles(t, msg, s.msgid);
    SendWhole(s, s, e);
    var s1 := AfterRpc(s, e);
    var f := Entry(u, msg, s1.msgid, Singles(Texts(Parts(msg, s1.msgid))));
    ComposedSingles(u, msg, s1.msgid);
    AcquireLeads(s, s1, f);
    var s2 := Acquired(s1, f);
    CountLeads(s, s2, u);
    var s3 := HasCounted(s2, u);
    ReportLeads(s, s3, t);
    NextDiffers(s.msgid);
    var s4 := s3.(pc := s3.pc[t := Idle], returned := s3.returned + [Returned(|s.log|, s3.msgid)]);
    assert s4.log[|s.log|] == e;
    assert Leads(Step, s, s4) && WrongLast(s4, t);
  }

  lemma RunTo(s: State, s': State) returns (run: seq<State>)
    requires Init(s) && Leads(Step, s, s')
    ensures Run(run) && run[0] == s && run[|run| - 1] == s'
  {
    run :| Path(Step, run) && run[0] == s && run[|run| - 1] == s';
  }

  /** A session before two threads use it. */
  function Fresh(v: Version, base: nat): State {
    State(v, base, base, None, map[0 := Idle, 1 := Idle], "", [], [])
  }

  lemma WrongFrom(s: State, msg: Message) returns (run: seq<State>)
    requires Init(s) && msg.Rpc? && 0 in s.pc && 1 in s.pc
    ensures Run(run) && run[0] == s && WrongLast(run[|run| - 1], 0)
  {
    WrongIdReturned(s, 0, 1, msg);
    var s' :| Leads(Step, s, s') && WrongLast(s', 0);
    run := RunTo(s, s');
  }

  /** So two threads can get a wrong id from the start, in either framing and with any first message-id. */
  lemma TwoSendersGoWrong(v: Version, base: nat, msg: Message)
    requires base <= ULONG_MAX && msg.Rpc?
    ensures exists run: seq<State> ::
              Run(run) && run[0].version == v && run[0].base == base && WrongLast(run[|run| - 1], 0)
  {
    var run := WrongFrom(Fresh(v, base), msg);
  }
}
