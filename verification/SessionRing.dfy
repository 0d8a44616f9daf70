/** NETCONF sessions that share one SSH session: the circular list of nc_connect_ssh_channel()
    (src/session_client_ssh.c:1765-1778) and nc_session_free() (src/session.c:741-824, src/session.c:1009-1012). */
module SessionRing {
  import opened Runs
  import opened Transport

  /** Life of a session as other threads see it: `Leaving` is between being marked as closing and the transport
      cleanup, `LastOut` between that cleanup and destroying the lock. */
  datatype Phase = Joining | Active | Leaving | LastOut | Gone {
    predicate InRing() {
      Joining? || Active? || Leaving?
    }
  }

  /** All sessions ever made on one SSH session. */
  datatype Group = Group(phase: map<nat, Phase>, sshFrees: nat, lockFrees: nat)

  ghost predicate Init(g: Group) {
    g.sshFrees == 0 && g.lockFrees == 0 && exists x :: g.phase == map[x := Joining]
  }

  function AfterJoin(g: Group, y: nat): Group {
    g.(phase := g.phase[y := Joining])
  }

  /** A session joins through one that is in the ring. */
  ghost predicate Join(g: Group, g': Group, x: nat, y: nat) {
    x in g.phase && g.phase[x].InRing() && y !in g.phase && g' == AfterJoin(g, y)
  }

  /** Its handshake succeeded. */
  ghost predicate Ready(g: Group, g': Group, x: nat) {
    x in g.phase && g.phase[x] == Joining && g' == g.(phase := g.phase[x := Active])
  }

  /** nc_session_free() marks it as closing; a session whose handshake failed is freed as well. */
  ghost predicate BeginFree(g: Group, g': Group, x: nat) {
    && x in g.phase && (g.phase[x] == Joining || g.phase[x] == Active)
    && g' == g.(phase := g.phase[x := Leaving])
  }

  /** Another session in the ring is past starting. */
  ghost predicate OthersInUse(g: Group, x: nat) {
    exists y :: y in g.phase && y != x && (g.phase[y] == Active || g.phase[y] == Leaving)
  }

  /** The last one out takes all that are still starting with it and frees the SSH session. */
  ghost function AfterCleanup(g: Group, x: nat): Group
    requires x in g.phase
  {
    if OthersInUse(g, x) then g.(phase := g.phase[x := Gone])
    else g.(sshFrees := g.sshFrees + 1,
            phase := map y | y in g.phase ::
              if y == x then LastOut else if g.phase[y].InRing() then Gone else g.phase[y])
  }

  /** The transport cleanup under the IO lock. */
  ghost predicate Cleanup(g: Group, g': Group, x: nat) {
    x in g.phase && g.phase[x] == Leaving && g' == AfterCleanup(g, x)
  }

  ghost predicate DestroyLock(g: Group, g': Group, x: nat) {
    && x in g.phase && g.phase[x] == LastOut
    && g' == g.(lockFrees := g.lockFrees + 1, phase := g.phase[x := Gone])
  }

  ghost predicate Step(g: Group, g': Group) {
    || (exists x, y :: Join(g, g', x, y))
    || (exists x :: Ready(g, g', x) || BeginFree(g, g', x) || Cleanup(g, g', x) || DestroyLock(g, g', x))
  }

  ghost predicate Run(run: seq<Group>) {
    Path(Step, run) && Init(run[0])
  }

  ghost predicate SomeInRing(g: Group) {
    exists x :: x in g.phase && g.phase[x].InRing()
  }

  ghost predicate SomeLastOut(g: Group) {
    exists x :: x in g.phase && g.phase[x] == LastOut
  }

  /** The SSH session lives exactly as long as the ring, and the lock is destroyed once, by the session that freed
      the SSH session, when nobody is left to take it. */
  ghost predicate Inv(g: Group) {
    && g.sshFrees == (if SomeInRing(g) then 0 else 1)
    && g.lockFrees == (if SomeInRing(g) || SomeLastOut(g) then 0 else 1)
    && (SomeLastOut(g) ==> !SomeInRing(g))
    && (forall x, y :: x in g.phase && y in g.phase && g.phase[x] == LastOut && g.phase[y] == LastOut ==> x == y)
  }

  lemma CleanupKeeps(g: Group, g': Group, x: nat)
    requires Inv(g) && Cleanup(g, g', x)
    ensures Inv(g')
  {
    assert SomeInRing(g);
    if OthersInUse(g, x) {
      var y :| y in g.phase && y != x && (g.phase[y] == Active || g.phase[y] == Leaving);
      assert y in g'.phase && g'.phase[y].InRing();
    } else {
      assert x in g'.phase && g'.phase[x] == LastOut;
    }
  }

  lemma StepKeeps(g: Group, g': Group)
    requires Inv(g) && Step(g, g')
    ensures Inv(g')
  {
    if x, y :| Join(g, g', x, y) {
      assert x in g'.phase && g'.phase[x].InRing();
      assert forall z :: z in g'.phase ==> g'.phase[z] != LastOut;
    } else {
      var x :| Ready(g, g', x) || BeginFree(g, g', x) || Cleanup(g, g', x) || DestroyLock(g, g', x);
      if Cleanup(g, g', x) {
        CleanupKeeps(g, g', x);
      } else if DestroyLock(g, g', x) {
        assert SomeLastOut(g);
        assert forall z :: z in g'.phase ==> z in g.phase;
      } else {
        assert x in g.phase && g.phase[x].InRing();
        assert x in g'.phase && g'.phase[x].InRing();
        assert forall z :: z in g'.phase ==> g'.phase[z] != LastOut;
      }
    }
  }

  lemma {:induction false} RunKeeps(run: seq<Group>, i: nat)
    requires Run(run) && i < |run|
    ensures Inv(run[i])
  {
    if i > 0 {
      RunKeeps(run, i - 1);
      LastStep(Step, run, i);
      StepKeeps(run[i - 1], run[i]);
    } else {
      var x :| run[0].phase == map[x := Joining];
      assert x in run[0].phase && run[0].phase[x].InRing();
    }
  }

  /** Shared ownership over whole runs, under any order of joins and concurrent frees: nothing shared is freed while
      a session is in the ring, the lock not before the SSH session, neither twice, and both once when all are gone. */
  lemma FreedExactlyOnce(run: seq<Group>, i: nat)
    requires Run(run) && i < |run|
    ensures var g := run[i];
            && (SomeInRing(g) ==> g.sshFrees == 0 && g.lockFrees == 0)
            && g.lockFrees <= g.sshFrees <= 1
            && ((forall x :: x in g.phase ==> g.phase[x] == Gone) ==> g.sshFrees == 1 && g.lockFrees == 1)
  {
    RunKeeps(run, i);
  }

  lemma {:induction false} FreesNeverUndone(run: seq<Group>, i: nat, j: nat)
    requires Run(run) && i <= j < |run|
    ensures run[i].sshFrees <= run[j].sshFrees
    decreases j
  {
    if i < j {
      FreesNeverUndone(run, i, j - 1);
      LastStep(Step, run, j);
    }
  }

  /** The cleanup that frees the SSH session is that of the last session in use: all others in the ring were still
      starting, and from then on there is never a session in the ring again, so nobody joins, closes or cleans up. */
  lemma FreedByLastInUse(run: seq<Group>, i: nat, x: nat, j: nat)
    requires Run(run) && i < j < |run| && Cleanup(run[i], run[i + 1], x)
    ensures run[i + 1].sshFrees == 1 <==>
            forall y :: y in run[i].phase && y != x && run[i].phase[y].InRing() ==> run[i].phase[y] == Joining
    ensures run[i + 1].sshFrees == 1 ==> !SomeInRing(run[j]) && run[j].sshFrees == 1
  {
    RunKeeps(run, i);
    RunKeeps(run, j);
    assert SomeInRing(run[i]);
    FreesNeverUndone(run, i + 1, j);
  }

  /** A state that some run of the step system ends in. */
  ghost predicate Reached(g: Group) {
    exists g0 :: Init(g0) && Leads(Step, g0, g)
  }

  lemma ReachedFirst(x: nat)
    ensures Reached(Group(map[x := Joining], 0, 0))
  {
    var g := Group(map[x := Joining], 0, 0);
    LeadsSelf(Step, g);
    assert Init(g);
  }

  lemma ReachedNext(g: Group, g': Group)
    requires Reached(g) && Step(g, g')
    ensures Reached(g')
  {
    var g0 :| Init(g0) && Leads(Step, g0, g);
    LeadsNext(Step, g0, g, g');
  }

  lemma ReachedRun(g: Group) returns (run: seq<Group>)
    requires Reached(g)
    ensures Run(run) && run[|run| - 1] == g
  {
    var g0 :| Init(g0) && Leads(Step, g0, g);
    run :| Path(Step, run) && run[0] == g0 && run[|run| - 1] == g;
  }

  /** A session as a member of the list. */
  class Member {
    var status: Status
    /** ti.libssh.next: null for a session that is alone. */
    var next: Member?
    ghost const id: nat

    constructor (ghost id: nat)
      ensures status == Starting && next == null && this.id == id
    {
      status, next := Starting, null;
      this.id := id;
    }
  }

  function Succ(i: nat, n: nat): nat {
    if i + 1 == n then 0 else i + 1
  }

  /** The `next` pointers form one simple cycle of exactly these sessions, or null for a single one. */
  ghost predicate Ring(ring: seq<Member>)
    reads ring
  {
    && ring != []
    && (forall i, j :: 0 <= i < j < |ring| ==> ring[i] != ring[j])
    && (|ring| == 1 ==> ring[0].next == null)
    && (|ring| > 1 ==> forall i :: 0 <= i < |ring| ==> ring[i].next == ring[Succ(i, |ring|)])
  }

  function Rotated(ring: seq<Member>, k: nat): seq<Member>
    requires k < |ring|
  {
    ring[k..] + ring[..k]
  }

  lemma RotatedAt(ring: seq<Member>, k: nat, i: nat)
    requires k < |ring| && i < |ring|
    ensures Rotated(ring, k)[i] == ring[if i < |ring| - k then k + i else k + i - |ring|]
  {
  }

  /** Rotating keeps the sessions. */
  lemma RotatedMembers(ring: seq<Member>, k: nat)
    requires k < |ring|
    ensures forall s :: s in Rotated(ring, k) <==> s in ring
  {
  }

  /** Where the list starts does not matter. */
  lemma RotateRing(ring: seq<Member>, k: nat)
    requires k < |ring| && Ring(ring)
    ensures Ring(Rotated(ring, k))
    ensures Rotated(ring, k)[0] == ring[k]
  {
    var r, n := Rotated(ring, k), |ring|;
    forall i | 0 <= i < n ensures r[i] == ring[if i < n - k then k + i else k + i - n] {
      RotatedAt(ring, k, i);
    }
  }

  /** Some other session of the ring is past starting. */
  ghost predicate Multisession(ring: seq<Member>)
    reads ring
  {
    exists k :: 1 <= k < |ring| && ring[k].status != Starting
  }

  /** What a status means for the others. */
  function PhaseOf(status: Status): Phase {
    match status
    case Starting => Joining
    case Closing => Leaving
    case _ => Active
  }

  /** The sessions of the ring are those of the group that are in the ring, in the phase their status says. */
  ghost predicate Agrees(ring: seq<Member>, g: Group)
    reads ring`status
  {
    && (forall s :: s in ring ==> s.id in g.phase && g.phase[s.id] == PhaseOf(s.status))
    && (forall s, t :: s in ring && t in ring && s.id == t.id ==> s == t)
    && (forall x :: x in g.phase && g.phase[x].InRing() ==> exists s :: s in ring && s.id == x)
  }

  /** Where the ring starts does not matter. */
  lemma RotatedAgrees(ring: seq<Member>, k: nat, g: Group)
    requires k < |ring| && Agrees(ring, g)
    ensures Agrees(Rotated(ring, k), g)
  {
    RotatedMembers(ring, k);
  }

  lemma JoinAgrees(ring: seq<Member>, newSession: Member, g: Group)
    requires ring != [] && Agrees(ring, g) && newSession.id !in g.phase && newSession.status == Starting
    ensures Agrees([ring[0], newSession] + ring[1..], AfterJoin(g, newSession.id))
  {
    var r := [ring[0], newSession] + ring[1..];
    assert r[1] == newSession;
    assert ring == [ring[0]] + ring[1..];
    assert forall s :: s in r <==> s in ring || s == newSession;
  }

  /** The search on the heap finds what the step system asks for. */
  lemma InUseIff(ring: seq<Member>, g: Group)
    requires Ring(ring) && Agrees(ring, g)
    ensures Multisession(ring) <==> OthersInUse(g, ring[0].id)
  {
    if Multisession(ring) {
      var k :| 1 <= k < |ring| && ring[k].status != Starting;
      assert ring[k] in ring && ring[k].id in g.phase;
    }
    if OthersInUse(g, ring[0].id) {
      var y :| y in g.phase && y != ring[0].id && (g.phase[y] == Active || g.phase[y] == Leaving);
      var t :| t in ring && t.id == y;
      var k :| 0 <= k < |ring| && ring[k] == t;
      assert k != 0;
    }
  }

  /** What is left of the ring agrees with the group after the cleanup. */
  lemma LeftAgrees(ring: seq<Member>, g: Group)
    requires Ring(ring) && Agrees(ring, g) && ring[0].id in g.phase
    ensures Agrees(if OthersInUse(g, ring[0].id) then ring[1..] else [], AfterCleanup(g, ring[0].id))
  {
    var x, g' := ring[0].id, AfterCleanup(g, ring[0].id);
    if OthersInUse(g, x) {
      var rest := ring[1..];
      forall t | t in rest ensures t in ring && t.id != x {
        var i :| 0 <= i < |rest| && rest[i] == t;
        assert ring[i + 1] == t;
      }
      forall y | y in g'.phase && g'.phase[y].InRing() ensures exists t :: t in rest && t.id == y {
        var t :| t in ring && t.id == y;
        assert t in rest;
      }
    }
  }

  lemma InsertRing(ring: seq<Member>, newSession: Member)
    requires ring != [] && newSession !in ring
    requires forall i, j :: 0 <= i < j < |ring| ==> ring[i] != ring[j]
    requires forall i :: 1 <= i < |ring| ==> ring[i].next == ring[Succ(i, |ring|)]
    requires ring[0].next == newSession
    requires newSession.next == if |ring| == 1 then ring[0] else ring[1]
    ensures Ring([ring[0], newSession] + ring[1..])
  {
  }

  /** A new session is put into the ring behind `session` (src/session_client_ssh.c:1757-1778). */
  method Insert(session: Member, ghost ring: seq<Member>, ghost id: nat, ghost g: Group)
    returns (newSession: Member)
    requires Ring(ring) && ring[0] == session && Agrees(ring, g) && id !in g.phase
    modifies session`next
    ensures fresh(newSession) && newSession.status == Starting && newSession.id == id
    ensures Ring([session, newSession] + ring[1..])
    ensures Agrees([session, newSession] + ring[1..], AfterJoin(g, id))
  {
    newSession := new Member(id);
    if session.next == null {
      session.next := newSession;
      newSession.next := session;
    } else {
      var ptr := session.next;
      session.next := newSession;
      newSession.next := ptr;
    }
    InsertRing(ring, newSession);
    JoinAgrees(ring, newSession, g);
  }

  /** The search for another session in use (src/session.c:755-762). */
  method FindOther(session: Member, ghost ring: seq<Member>) returns (multisession: bool)
    requires Ring(ring) && ring[0] == session
    ensures multisession == Multisession(ring)
  {
    if session.next == null {
      return false;
    }
    var siter := session.next;
    ghost var k := 1;
    while siter != session
      invariant 1 <= k <= |ring| && siter == if k < |ring| then ring[k] else session
      invariant forall j :: 1 <= j < k ==> ring[j].status == Starting
      decreases |ring| - k
    {
      if siter.status != Starting {
        return true;
      }
      siter := siter.next;
      k := k + 1;
    }
    return false;
  }

  /** The starting sessions are taken out and freed one by one (src/session.c:766-780). */
  method FreeStarting(session: Member, ghost ring: seq<Member>) returns (ghost freed: seq<Member>)
    requires Ring(ring) && ring[0] == session
    modifies session`next
    ensures freed == ring[1..]
  {
    freed := [];
    if session.next != null {
      ghost var k := 1;
      var first := true;
      while first || session.next != session
        invariant 1 <= k <= |ring| && freed == ring[1..k]
        invariant session.next == if k < |ring| then ring[k] else session
        invariant first ==> k == 1
        invariant forall j :: 1 <= j < |ring| ==> ring[j].next == ring[Succ(j, |ring|)]
        decreases |ring| - k
      {
        first := false;
        var siter := session.next;
        session.next := siter.next;
        freed := freed + [siter];
        k := k + 1;
      }
    }
  }

  /** The session is taken out of a ring that goes on without it (src/session.c:789-797). */
  method Unlink(session: Member, ghost ring: seq<Member>, ghost last: Member)
    requires Ring(ring) && ring[0] == session && |ring| > 1 && last == ring[|ring| - 1]
    modifies last`next
    ensures Ring(ring[1..])
  {
    var siter := session.next;
    ghost var k := 1;
    while siter.next != session
      invariant 1 <= k < |ring| && siter == ring[k]
      decreases |ring| - k
    {
      siter := siter.next;
      k := k + 1;
    }
    if session.next == siter {
      siter.next := null;
    } else {
      siter.next := session.next;
    }
  }

  /** The session leaves the ring (src/session.c:752-797): `rest` is what is left of it. */
  method Leave(session: Member, ghost ring: seq<Member>, ghost g: Group)
    returns (multisession: bool, ghost rest: seq<Member>, ghost freed: seq<Member>)
    requires Ring(ring) && ring[0] == session
    requires Agrees(if Multisession(ring) then ring[1..] else [], g)
    modifies ring`next
    ensures multisession == old(Multisession(ring))
    ensures (rest, freed) == if multisession then (ring[1..], []) else ([], ring[1..])
    ensures rest != [] ==> Ring(rest)
    ensures Agrees(rest, g)
  {
    multisession := FindOther(session, ring);
    if multisession {
      Unlink(session, ring, ring[|ring| - 1]);
      rest, freed := ring[1..], [];
    } else {
      rest := [];
      freed := FreeStarting(session, ring);
    }
  }

  lemma JoinReady(ring: seq<Member>, k: nat, g: Group, id: nat)
    requires k < |ring| && Ring(ring) && Agrees(ring, g) && Reached(g) && id !in g.phase
    ensures var r := Rotated(ring, k);
            && Ring(r) && r[0] == ring[k] && Agrees(r, g)
            && Join(g, AfterJoin(g, id), ring[k].id, id) && Reached(AfterJoin(g, id))
  {
    RotateRing(ring, k);
    RotatedAgrees(ring, k, g);
    assert ring[k] in ring;
    assert Join(g, AfterJoin(g, id), ring[k].id, id);
    ReachedNext(g, AfterJoin(g, id));
  }

  /** Seen from any session that is closing, leaving the ring is the cleanup step. */
  lemma LeaveReady(ring: seq<Member>, k: nat, g: Group) returns (g': Group)
    requires k < |ring| && Ring(ring) && Agrees(ring, g) && Reached(g) && ring[k].status == Closing
    ensures var r := Rotated(ring, k);
            && Ring(r) && r[0] == ring[k] && (forall s :: s in r <==> s in ring)
            && Agrees(if Multisession(r) then r[1..] else [], g')
            && g'.sshFrees == g.sshFrees + (if Multisession(r) then 0 else 1) && g'.lockFrees == g.lockFrees
    ensures Reached(g') && Cleanup(g, g', ring[k].id)
  {
    var r, x := Rotated(ring, k), ring[k].id;
    RotateRing(ring, k);
    RotatedMembers(ring, k);
    RotatedAgrees(ring, k, g);
    assert ring[k] in ring;
    g' := AfterCleanup(g, x);
    InUseIff(r, g);
    LeftAgrees(r, g);
    assert Cleanup(g, g', x);
    ReachedNext(g, g');
  }

  /** The SSH session and the IO lock all sessions of the ring share, with counts of how often they were freed, and
      the state of the step system that the calls have led to. */
  class Shared {
    ghost var ring: seq<Member>
    ghost var group: Group
    var sshFrees: nat
    var lockFrees: nat

    /** The `next` pointers form the ring, and the heap is as the group says. */
    ghost predicate Shaped()
      reads this, ring
    {
      && (ring != [] ==> Ring(ring))
      && Agrees(ring, group) && group.sshFrees == sshFrees && group.lockFrees == lockFrees
    }

    /** Beyond that, the group is what the step system can get to. */
    ghost predicate Valid()
      reads this, ring
    {
      Shaped() && Reached(group)
    }

    /** The first session of an SSH session. */
    constructor (session: Member)
      requires session.next == null && session.status == Starting
      ensures Valid() && ring == [session]
    {
      ring := [session];
      sshFrees, lockFrees := 0, 0;
      group := Group(map[session.id := Joining], 0, 0);
      ReachedFirst(session.id);
    }

    /** The new session goes into the ring and the group. */
    method PutIn(session: Member, ghost r: seq<Member>, ghost id: nat) returns (newSession: Member)
      requires Ring(r) && r[0] == session && Agrees(r, group) && id !in group.phase
      requires group.sshFrees == sshFrees && group.lockFrees == lockFrees
      modifies this`ring, this`group, session`next
      ensures Shaped() && group == AfterJoin(old(group), id)
      ensures fresh(newSession) && newSession.status == Starting && ring == [session, newSession] + r[1..]
    {
      newSession := Insert(session, r, id, group);
      ring, group := [session, newSession] + r[1..], AfterJoin(group, id);
    }

    /** The part of nc_connect_ssh_channel() that makes a session and puts it into the ring behind `session`. */
    method Connect(session: Member, ghost k: nat, ghost id: nat) returns (newSession: Member)
      requires Valid() && k < |ring| && ring[k] == session && id !in group.phase
      modifies this`ring, this`group, session`next
      ensures Valid() && fresh(newSession) && newSession.status == Starting
      ensures ring == [session, newSession] + old(Rotated(ring, k))[1..]
      ensures Join(old(group), group, session.id, id)
    {
      JoinReady(ring, k, group, id);
      newSession := PutIn(session, Rotated(ring, k), id);
    }

    /** The handshake of a session succeeds. */
    method MarkRunning(session: Member, ghost k: nat)
      requires Valid() && k < |ring| && ring[k] == session && session.status == Starting
      modifies this`group, session`status
      ensures Valid() && session.status == Running && Ready(old(group), group, session.id)
    {
      session.status := Running;
      ghost var g := group;
      group := g.(phase := g.phase[session.id := Active]);
      assert Ready(g, group, session.id);
      ReachedNext(g, group);
    }

    /** nc_session_free() marks a session as closing (src/session.c:969-970). */
    method MarkClosing(session: Member, ghost k: nat)
      requires Valid() && k < |ring| && ring[k] == session && session.status != Closing
      modifies this`group, session`status
      ensures Valid() && session.status == Closing && BeginFree(old(group), group, session.id)
    {
      session.status := Closing;
      ghost var g := group;
      group := g.(phase := g.phase[session.id := Leaving]);
      assert BeginFree(g, group, session.id);
      ReachedNext(g, group);
    }

    /** The session leaves; the group becomes `after`. */
    method TakeOut(session: Member, ghost r: seq<Member>, ghost after: Group)
      returns (multisession: bool, ghost freed: seq<Member>)
      requires Ring(r) && r[0] == session
      requires Agrees(if Multisession(r) then r[1..] else [], after)
      requires after.lockFrees == lockFrees && after.sshFrees == sshFrees + if Multisession(r) then 0 else 1
      modifies this`ring, this`group, this`sshFrees, r`next
      ensures Shaped() && group == after
      ensures multisession == old(Multisession(r))
      ensures (ring, freed) == if multisession then (r[1..], []) else ([], r[1..])
    {
      multisession, ring, freed := Leave(session, r, after);
      group, sshFrees := after, if multisession then sshFrees else sshFrees + 1;
    }

    /** nc_session_free_transport() under the IO lock: while another session is in use the session just leaves the
        ring; otherwise it takes the starting ones with it and frees the SSH session. */
    method FreeTransport(session: Member, ghost k: nat) returns (multisession: bool, ghost freed: seq<Member>)
      requires Valid() && k < |ring| && ring[k] == session && session.status == Closing
      modifies this`ring, this`group, this`sshFrees, ring`next
      ensures Valid()
      ensures multisession == old(Multisession(Rotated(ring, k)))
      ensures (ring, freed) ==
              if multisession then (old(Rotated(ring, k))[1..], []) else ([], old(Rotated(ring, k))[1..])
      ensures sshFrees == old(sshFrees) + if multisession then 0 else 1
      ensures Cleanup(old(group), group, session.id)
    {
      ghost var after := LeaveReady(ring, k, group);
      multisession, freed := TakeOut(session, Rotated(ring, k), after);
    }

    /** The end of nc_session_free() for the session that freed the SSH session (src/session.c:1009-1012). */
    method DestroySharedLock(session: Member)
      requires Valid() && session.id in group.phase && group.phase[session.id] == LastOut
      modifies this`group, this`lockFrees
      ensures Valid() && lockFrees == old(lockFrees) + 1 && DestroyLock(old(group), group, session.id)
    {
      lockFrees := lockFrees + 1;
      ghost var g := group;
      group := g.(lockFrees := g.lockFrees + 1, phase := g.phase[session.id := Gone]);
      assert DestroyLock(g, group, session.id);
      ReachedNext(g, group);
    }

    /** Whatever calls were made: nothing shared is freed while the ring has sessions, the lock not before the SSH
        session, and neither twice. */
    lemma Safe()
      requires Valid()
      ensures ring != [] ==> Ring(ring) && sshFrees == 0 && lockFrees == 0
      ensures ring == [] ==> sshFrees == 1
      ensures lockFrees <= sshFrees <= 1
      ensures (forall x :: x in group.phase ==> group.phase[x] == Gone) ==> sshFrees == 1 && lockFrees == 1
    {
      var run := ReachedRun(group);
      FreedExactlyOnce(run, |run| - 1);
      RunKeeps(run, |run| - 1);
      if ring != [] {
        assert ring[0] in ring;
      }
    }
  }
}
