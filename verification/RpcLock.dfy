/** The RPC lock of a server session: a mutex, the flag rpc_inuse and a condition variable, with timeouts on
    both sides (src/session.c:263-390), as a step system of any number of threads. */
module RpcLock {
  import opened Bytes
  import opened Runs

  /** The `timeout` argument: 0, a number of milliseconds, or none. */
  datatype Patience = Try | Timed | Forever

  /** Where a thread is. A thread in `Holder` has returned from a successful nc_session_rpc_lock(). */
  datatype Pc =
    | Outside
    | LockEntry(p: Patience)      // before the mutex call of nc_session_rpc_lock()
    | Checking(p: Patience)       // owns the mutex, about to look at rpc_inuse
    | GoingToWait(p: Patience)    // owns the mutex, saw rpc_inuse set
    | Waiting(p: Patience)        // inside pthread_cond_wait(), mutex released
    | Woken(p: Patience)          // woken up, must get the mutex back
    | TimedOut                    // timed out in the wait, must get the mutex back
    | GiveUp                      // owns the mutex, about to release it and return 0 or -1
    | Free                        // owns the mutex, saw rpc_inuse clear
    | Marked                      // owns the mutex, has set rpc_inuse
    | Holder
    | UnlockEntry(p: Patience)    // before the mutex call of nc_session_rpc_unlock()
    | Clearing(locked: bool)      // about to clear rpc_inuse, with or without the mutex
    | Signalling(locked: bool)    // about to signal
    | Releasing                   // owns the mutex, about to release it and return
  {
    predicate OwnsMutex() {
      Checking? || GoingToWait? || GiveUp? || Free? || Marked? || Releasing?
      || this == Clearing(true) || this == Signalling(true)
    }

    /** Between the moment the lock is taken and the moment it is given back. */
    predicate InSection() {
      Marked? || Holder? || UnlockEntry? || Clearing?
    }
  }

  datatype State = State(owner: Option<nat>, inuse: bool, pc: map<nat, Pc>)

  /** Thread `t` moves on; the mutex and the flag become as given. */
  function Move(s: State, t: nat, pc: Pc, owner: Option<nat>, inuse: bool): State {
    State(owner, inuse, s.pc[t := pc])
  }

  /** Steps of nc_session_rpc_lock(). The mutex call may time out or fail; a wait may end by a signal, for no
      reason, by its timeout or with an error. */
  ghost predicate LockStep(s: State, s': State, t: nat) {
    && t in s.pc
    && match s.pc[t]
       case Outside => exists p :: s' == Move(s, t, LockEntry(p), s.owner, s.inuse)
       case LockEntry(p) =>
         || (s.owner == None && s' == Move(s, t, Checking(p), Some(t), s.inuse))
         || s' == Move(s, t, Outside, s.owner, s.inuse)
       case Checking(p) =>
         if !s.inuse then s' == Move(s, t, Free, s.owner, s.inuse)
         else if p == Try then s' == Move(s, t, GiveUp, s.owner, s.inuse)
         else s' == Move(s, t, GoingToWait(p), s.owner, s.inuse)
       case GoingToWait(p) =>
         || s' == Move(s, t, Waiting(p), None, s.inuse)
         || s' == Move(s, t, GiveUp, s.owner, s.inuse)
       case Waiting(p) =>
         || s' == Move(s, t, Woken(p), s.owner, s.inuse)
         || (p == Timed && s' == Move(s, t, TimedOut, s.owner, s.inuse))
       case Woken(p) => s.owner == None && s' == Move(s, t, Checking(p), Some(t), s.inuse)
       case TimedOut => s.owner == None && s' == Move(s, t, GiveUp, Some(t), s.inuse)
       case GiveUp => s' == Move(s, t, Outside, None, s.inuse)
       case Free => s' == Move(s, t, Marked, s.owner, true)
       case Marked => s' == Move(s, t, Holder, None, s.inuse)
       case _ => false
  }

  /** Steps of nc_session_rpc_unlock(). When the mutex call times out, which it can only while another thread owns
      the mutex, the flag is cleared without it; on another error the call returns -1 and the lock stays held. */
  ghost predicate UnlockStep(s: State, s': State, t: nat) {
    && t in s.pc
    && match s.pc[t]
       case Holder => exists p :: s' == Move(s, t, UnlockEntry(p), s.owner, s.inuse)
       case UnlockEntry(p) =>
         || (s.owner == None && s' == Move(s, t, Clearing(true), Some(t), s.inuse))
         || (p != Forever && s.owner.Some? && s' == Move(s, t, Clearing(false), s.owner, s.inuse))
         || s' == Move(s, t, Holder, s.owner, s.inuse)
       case Clearing(locked) => s' == Move(s, t, Signalling(locked), s.owner, false)
       case Signalling(locked) => Signal(s, s', t, if locked then Releasing else Outside)
       case Releasing => s' == Move(s, t, Outside, None, s.inuse)
       case _ => false
  }

  /** pthread_cond_signal(): one waiting thread wakes up, if there is one. */
  ghost predicate Signal(s: State, s': State, t: nat, next: Pc) {
    || (exists w :: w in s.pc && w != t && s.pc[w].Waiting?
          && s' == Move(Move(s, w, Woken(s.pc[w].p), s.owner, s.inuse), t, next, s.owner, s.inuse))
    || ((forall w :: w in s.pc ==> !s.pc[w].Waiting?) && s' == Move(s, t, next, s.owner, s.inuse))
  }

  ghost predicate Init(s: State) {
    s.owner == None && !s.inuse && forall t :: t in s.pc ==> s.pc[t] == Outside
  }

  ghost predicate Step(s: State, s': State) {
    exists t :: LockStep(s, s', t) || UnlockStep(s, s', t)
  }

  ghost predicate Run(run: seq<State>) {
    Path(Step, run) && Init(run[0])
  }

  /** The mutex has exactly the owner the threads think it has. */
  ghost predicate MutexInv(s: State) {
    && (s.owner.Some? ==> s.owner.value in s.pc)
    && forall t :: t in s.pc ==> (s.pc[t].OwnsMutex() <==> s.owner == Some(t))
  }

  /** At most one thread is in its section, the flag is set exactly while there is one, and a thread that saw
      the flag clear under the mutex still sees it clear. */
  ghost predicate FlagInv(s: State) {
    && (forall t, u :: t in s.pc && u in s.pc && s.pc[t].InSection() && s.pc[u].InSection() ==> t == u)
    && (forall t :: t in s.pc && s.pc[t].InSection() ==> s.inuse)
    && (s.inuse ==> exists t :: t in s.pc && s.pc[t].InSection())
    && (forall t :: t in s.pc && s.pc[t] == Free ==> !s.inuse)
  }

  /** A step of `t` that treats the mutex properly: it keeps it, takes it when it is free, or releases its own. */
  ghost predicate MutexLegal(s: State, t: nat, pc: Pc, owner: Option<nat>)
    requires t in s.pc
  {
    || (owner == s.owner && pc.OwnsMutex() == s.pc[t].OwnsMutex())
    || (s.owner == None && owner == Some(t) && pc.OwnsMutex())
    || (s.owner == Some(t) && owner == None && !pc.OwnsMutex())
  }

  /** A step of `t` that treats the flag properly: it leaves it, sets it having seen it clear, or clears its own. */
  ghost predicate FlagLegal(s: State, t: nat, pc: Pc, inuse: bool)
    requires t in s.pc
  {
    || (inuse == s.inuse && pc.InSection() == s.pc[t].InSection() && (pc == Free ==> !s.inuse))
    || (s.pc[t] == Free && inuse && pc.InSection())
    || (s.pc[t].InSection() && !inuse && !pc.InSection() && pc != Free)
  }

  lemma MoveKeepsMutex(s: State, t: nat, pc: Pc, owner: Option<nat>, inuse: bool)
    requires t in s.pc && MutexInv(s) && MutexLegal(s, t, pc, owner)
    ensures MutexInv(Move(s, t, pc, owner, inuse))
  {
  }

  lemma MoveKeepsFlag(s: State, t: nat, pc: Pc, owner: Option<nat>, inuse: bool)
    requires t in s.pc && MutexInv(s) && FlagInv(s) && FlagLegal(s, t, pc, inuse)
    ensures FlagInv(Move(s, t, pc, owner, inuse))
  {
    var s' := Move(s, t, pc, owner, inuse);
    if s'.inuse {
      if pc.InSection() {
        assert t in s'.pc && s'.pc[t].InSection();
      } else {
        var u :| u in s.pc && s.pc[u].InSection();
        assert u in s'.pc && s'.pc[u].InSection();
      }
    }
  }

  lemma MoveKeeps(s: State, t: nat, pc: Pc, owner: Option<nat>, inuse: bool)
    requires t in s.pc && MutexInv(s) && FlagInv(s)
    requires MutexLegal(s, t, pc, owner) && FlagLegal(s, t, pc, inuse)
    ensures MutexInv(Move(s, t, pc, owner, inuse)) && FlagInv(Move(s, t, pc, owner, inuse))
  {
    MoveKeepsMutex(s, t, pc, owner, inuse);
    MoveKeepsFlag(s, t, pc, owner, inuse);
  }

  lemma LockKeeps(s: State, s': State, t: nat)
    requires MutexInv(s) && FlagInv(s) && LockStep(s, s', t)
    ensures MutexInv(s') && FlagInv(s')
  {
    LockIsMove(s, s', t);
    LockMutexLegal(s, s', t);
    LockFlagLegal(s, s', t);
    MoveKeeps(s, t, s'.pc[t], s'.owner, s'.inuse);
  }

  lemma LockIsMove(s: State, s': State, t: nat)
    requires LockStep(s, s', t)
    ensures t in s'.pc && s' == Move(s, t, s'.pc[t], s'.owner, s'.inuse)
  {
  }

  lemma LockMutexLegal(s: State, s': State, t: nat)
    requires MutexInv(s) && LockStep(s, s', t) && t in s'.pc
    ensures MutexLegal(s, t, s'.pc[t], s'.owner)
  {
  }

  lemma LockFlagLegal(s: State, s': State, t: nat)
    requires FlagInv(s) && LockStep(s, s', t) && t in s'.pc
    ensures FlagLegal(s, t, s'.pc[t], s'.inuse)
  {
  }

  lemma SignalKeeps(s: State, s': State, t: nat, next: Pc)
    requires MutexInv(s) && FlagInv(s) && t in s.pc && Signal(s, s', t, next)
    requires MutexLegal(s, t, next, s.owner) && FlagLegal(s, t, next, s.inuse)
    ensures MutexInv(s') && FlagInv(s')
  {
    if w :| w in s.pc && w != t && s.pc[w].Waiting?
            && s' == Move(Move(s, w, Woken(s.pc[w].p), s.owner, s.inuse), t, next, s.owner, s.inuse) {
      MoveKeeps(s, w, Woken(s.pc[w].p), s.owner, s.inuse);
      MoveKeeps(Move(s, w, Woken(s.pc[w].p), s.owner, s.inuse), t, next, s.owner, s.inuse);
    } else {
      MoveKeeps(s, t, next, s.owner, s.inuse);
    }
  }

  lemma UnlockKeeps(s: State, s': State, t: nat)
    requires MutexInv(s) && FlagInv(s) && UnlockStep(s, s', t)
    ensures MutexInv(s') && FlagInv(s')
  {
    if s.pc[t].Signalling? {
      SignalKeeps(s, s', t, if s.pc[t].locked then Releasing else Outside);
    } else {
      MoveKeeps(s, t, s'.pc[t], s'.owner, s'.inuse);
    }
  }

  lemma {:induction false} RunKeeps(run: seq<State>, i: nat)
    requires Run(run) && i < |run|
    ensures MutexInv(run[i]) && FlagInv(run[i])
  {
    if i > 0 {
      RunKeeps(run, i - 1);
      var s, s' := run[i - 1], run[i];
      LastStep(Step, run, i);
      var t :| LockStep(s, s', t) || UnlockStep(s, s', t);
      if LockStep(s, s', t) { LockKeeps(s, s', t); } else { UnlockKeeps(s, s', t); }
    }
  }

  /** Mutual exclusion over whole runs, with any number of threads and any timeouts: two threads that hold the
      lock are the same thread, rpc_inuse is set exactly while some thread holds it, and no thread is outside
      both calls and still owns the mutex. */
  lemma MutualExclusion(run: seq<State>, i: nat, t: nat, u: nat)
    requires Run(run) && i < |run| && t in run[i].pc && u in run[i].pc
    ensures var s := run[i];
            && (s.pc[t].InSection() && s.pc[u].InSection() ==> t == u)
            && (s.inuse <==> exists h :: h in s.pc && s.pc[h].InSection())
            && (s.pc[t].Outside? || s.pc[t].Holder? ==> s.owner != Some(t))
  {
    RunKeeps(run, i);
  }

  /** A call with timeout 0 never gets to where it would wait. */
  ghost predicate NoTryWaits(s: State) {
    forall t :: t in s.pc ==> s.pc[t] != GoingToWait(Try) && s.pc[t] != Waiting(Try) && s.pc[t] != Woken(Try)
  }

  lemma StepKeepsTry(s: State, s': State, t: nat)
    requires NoTryWaits(s) && (LockStep(s, s', t) || UnlockStep(s, s', t))
    ensures NoTryWaits(s')
  {
    if LockStep(s, s', t) { LockIsMove(s, s', t); }
  }

  /** In no run does a lock call with timeout 0 wait for the flag or get ready to. */
  lemma {:induction false} TryNeverWaits(run: seq<State>, i: nat)
    requires Run(run) && i < |run|
    ensures forall t :: t in run[i].pc ==>
              run[i].pc[t] != GoingToWait(Try) && run[i].pc[t] != Waiting(Try) && run[i].pc[t] != Woken(Try)
  {
    if i > 0 {
      TryNeverWaits(run, i - 1);
      LastStep(Step, run, i);
      var t :| LockStep(run[i - 1], run[i], t) || UnlockStep(run[i - 1], run[i], t);
      StepKeepsTry(run[i - 1], run[i], t);
    }
  }

  /** Thread `t` is the owner of the mutex in a state in which the flag is as given. */
  predicate Sees(s: State, t: nat, inuse: bool) {
    s.owner == Some(t) && s.inuse == inuse
  }

  ghost predicate HasSeen(run: seq<State>, i: nat, j: nat, t: nat, inuse: bool)
    requires j <= |run|
  {
    exists k :: i <= k < j && Sees(run[k], t, inuse)
  }

  lemma HasSeenStill(run: seq<State>, i: nat, j: nat, t: nat, inuse: bool)
    requires j < |run| && HasSeen(run, i, j, t, inuse)
    ensures HasSeen(run, i, j + 1, t, inuse)
  {
  }

  /** A step of another thread does not move a thread that is not waiting. */
  lemma OthersStay(s: State, s': State, t: nat, u: nat)
    requires t in s.pc && t != u && !s.pc[t].Waiting? && (LockStep(s, s', u) || UnlockStep(s, s', u))
    ensures t in s'.pc && s'.pc[t] == s.pc[t]
  {
  }

  /** What a thread that has the mutex in a call with timeout 0 does next. */
  ghost predicate TryMoved(s: State, t: nat, pc: Pc)
    requires t in s.pc
  {
    match s.pc[t]
    case Checking(_) => (pc == Free && Sees(s, t, false)) || (pc == GiveUp && Sees(s, t, true))
    case Free => pc == Marked
    case Marked => pc == Holder
    case GiveUp => pc == Outside
    case _ => false
  }

  predicate InTry(pc: Pc) {
    pc == Checking(Try) || pc == Free || pc == Marked || pc == GiveUp
  }

  lemma TryMovesItself(s: State, s': State, t: nat)
    requires MutexInv(s) && t in s.pc && InTry(s.pc[t]) && (LockStep(s, s', t) || UnlockStep(s, s', t))
    ensures t in s'.pc && TryMoved(s, t, s'.pc[t])
  {
  }

  lemma TryMoves(s: State, s': State, t: nat)
    requires MutexInv(s) && Step(s, s') && t in s.pc && InTry(s.pc[t])
    ensures t in s'.pc && (s'.pc[t] == s.pc[t] || TryMoved(s, t, s'.pc[t]))
  {
    var u :| LockStep(s, s', u) || UnlockStep(s, s', u);
    if u == t { TryMovesItself(s, s', t); } else { OthersStay(s, s', t, u); }
  }

  /** In the states from `i` to `j` thread `t` has not returned from its lock call. */
  ghost predicate Inside(run: seq<State>, i: nat, j: nat, t: nat)
    requires j <= |run|
  {
    forall k :: i <= k < j ==> t in run[k].pc && run[k].pc[t] != Outside && run[k].pc[t] != Holder
  }

  /** Where a call with timeout 0 is, with what it has seen. */
  ghost predicate TryAt(run: seq<State>, i: nat, j: nat, t: nat)
    requires j < |run|
  {
    && t in run[j].pc
    && match run[j].pc[t]
       case Checking(p) => p == Try
       case Free => HasSeen(run, i, j, t, false)
       case Marked => HasSeen(run, i, j, t, false)
       case Holder => HasSeen(run, i, j, t, false)
       case GiveUp => HasSeen(run, i, j, t, true)
       case Outside => HasSeen(run, i, j, t, true)
       case _ => false
  }

  lemma TryAtNext(run: seq<State>, i: nat, j: nat, t: nat)
    requires i < j < |run| && TryAt(run, i, j - 1, t) && t in run[j].pc
    requires run[j].pc[t] == run[j - 1].pc[t] || (InTry(run[j - 1].pc[t]) && TryMoved(run[j - 1], t, run[j].pc[t]))
    ensures TryAt(run, i, j, t)
  {
    if run[j - 1].pc[t] != Checking(Try) {
      HasSeenStill(run, i, j - 1, t, run[j - 1].pc[t] in {GiveUp, Outside});
    } else if run[j].pc[t] != Checking(Try) {
      assert Sees(run[j - 1], t, run[j].pc[t] == GiveUp);
    }
  }

  lemma {:induction false} TryStays(run: seq<State>, i: nat, j: nat, t: nat)
    requires Run(run) && i <= j < |run| && t in run[i].pc && run[i].pc[t] == Checking(Try) && Inside(run, i, j, t)
    ensures TryAt(run, i, j, t)
    decreases j
  {
    if i < j {
      TryStays(run, i, j - 1, t);
      assert InTry(run[j - 1].pc[t]);
      assert MutexInv(run[j - 1]) by { RunKeeps(run, j - 1); }
      LastStep(Step, run, j);
      TryMoves(run[j - 1], run[j], t);
      TryAtNext(run, i, j, t);
    }
  }

  /** A lock call with timeout 0 that has got the mutex keeps it until it returns, so it never waits, and returns
      without it: with the lock only if it has seen the flag clear, and without the lock only if it has seen it set. */
  lemma TryReturns(run: seq<State>, i: nat, j: nat, t: nat)
    requires Run(run) && i < j < |run| && t in run[i].pc && run[i].pc[t] == Checking(Try) && Inside(run, i, j, t)
    ensures t in run[j].pc
    ensures var pc := run[j].pc[t];
            && (pc != Outside && pc != Holder ==> run[j].owner == Some(t))
            && (pc == Outside || pc == Holder ==> run[j].owner != Some(t))
            && (pc == Holder ==> exists k :: i <= k < j && Sees(run[k], t, false))
            && (pc == Outside ==> exists k :: i <= k < j && Sees(run[k], t, true))
  {
    TryStays(run, i, j, t);
    RunKeeps(run, j);
  }

  /** Wherever a lock call with timeout 0 is, it can go on, whatever the other threads do. */
  lemma TryCanMove(run: seq<State>, i: nat, t: nat)
    requires Run(run) && i < |run| && t in run[i].pc
    requires run[i].pc[t] in {LockEntry(Try), Checking(Try), GiveUp, Free, Marked}
    ensures exists s' :: Step(run[i], s') && t in s'.pc && s'.pc[t] != run[i].pc[t]
  {
    var s := run[i];
    var s' := match s.pc[t]
      case LockEntry(_) => Move(s, t, Outside, s.owner, s.inuse)
      case Checking(_) => Move(s, t, if s.inuse then GiveUp else Free, s.owner, s.inuse)
      case Free => Move(s, t, Marked, s.owner, true)
      case Marked => Move(s, t, Holder, None, s.inuse)
      case _ => Move(s, t, Outside, None, s.inuse);
    assert LockStep(s, s', t);
  }

  /** A wait ends because the thread is woken, or, only in a call with a timeout, because that has passed. */
  lemma WaitEnds(run: seq<State>, i: nat, t: nat)
    requires Run(run) && i + 1 < |run| && t in run[i].pc && run[i].pc[t].Waiting?
    ensures t in run[i + 1].pc
    ensures var pc, pc' := run[i].pc[t], run[i + 1].pc[t];
            pc' == pc || pc' == Woken(pc.p) || (pc.p == Timed && pc' == TimedOut)
  {
    var s, s' := run[i], run[i + 1];
    LastStep(Step, run, i + 1);
    var u :| LockStep(s, s', u) || UnlockStep(s, s', u);
    if LockStep(s, s', u) { LockIsMove(s, s', u); }
  }

  lemma TimedOutMoves(s: State, s': State, t: nat)
    requires Step(s, s') && t in s.pc && (s.pc[t] == TimedOut || s.pc[t] == GiveUp)
    ensures t in s'.pc && s'.pc[t] in {TimedOut, GiveUp, Outside}
  {
    var u :| LockStep(s, s', u) || UnlockStep(s, s', u);
    if u != t { OthersStay(s, s', t, u); }
  }

  /** A call whose timeout passes while it waits does not get the lock any more. */
  lemma {:induction false} TimedOutReturns(run: seq<State>, i: nat, j: nat, t: nat)
    requires Run(run) && i <= j < |run| && t in run[i].pc && run[i].pc[t] == TimedOut && Inside(run, i, j, t)
    ensures t in run[j].pc && run[j].pc[t] in {TimedOut, GiveUp, Outside}
    decreases j
  {
    if i < j {
      TimedOutReturns(run, i, j - 1, t);
      assert run[j - 1].pc[t] != Outside;
      LastStep(Step, run, j);
      TimedOutMoves(run[j - 1], run[j], t);
    }
  }

  /** A thread that will look at the flag again, or that is about to wake one. */
  predicate Serves(pc: Pc) {
    pc.Woken? || pc.Checking? || pc.Free? || pc.Signalling?
  }

  ghost predicate SomeWaits(s: State) {
    exists w :: w in s.pc && s.pc[w].Waiting?
  }

  /** A lost wakeup: the lock is free, threads wait for it, and nobody is on the way to it or to waking one. */
  ghost predicate Stuck(s: State) {
    !s.inuse && SomeWaits(s) && forall t :: t in s.pc ==> !Serves(s.pc[t])
  }

  /** Thread `t` begins to wait although the flag has become clear since it looked, and nobody else serves. */
  ghost predicate Oversleeps(s: State, s': State, t: nat) {
    && LockStep(s, s', t) && s.pc[t].GoingToWait? && s'.pc[t].Waiting?
    && !s.inuse && forall u :: u in s.pc && u != t ==> !Serves(s.pc[u])
  }

  /** A step of the lock call loses a wakeup if and only if its thread oversleeps. */
  lemma LockStuckIff(s: State, s': State, t: nat)
    requires MutexInv(s) && FlagInv(s) && LockStep(s, s', t) && !Stuck(s)
    ensures Stuck(s') <==> Oversleeps(s, s', t)
  {
    if Oversleeps(s, s', t) {
      OversleepingIsStuck(s, s', t);
    } else if Stuck(s') {
      assert !Serves(s'.pc[t]);
      MoveStuck(s, t, s'.pc[t], s'.owner, s'.inuse);
    }
  }

  lemma OversleepingIsStuck(s: State, s': State, t: nat)
    requires Oversleeps(s, s', t)
    ensures Stuck(s')
  {
    assert t in s'.pc && s'.pc[t].Waiting?;
  }

  /** A step that neither begins to wait nor stops serving does not lose a wakeup. */
  lemma MoveStuck(s: State, t: nat, pc: Pc, owner: Option<nat>, inuse: bool)
    requires t in s.pc && Stuck(Move(s, t, pc, owner, inuse))
    ensures !s.inuse && !pc.Waiting? && !Serves(s.pc[t]) ==> Stuck(s)
    ensures !s.inuse && pc.Waiting? ==> forall u :: u in s.pc && u != t ==> !Serves(s.pc[u])
  {
    var s' := Move(s, t, pc, owner, inuse);
    forall u | u in s.pc && u != t ensures !Serves(s.pc[u]) {
      assert u in s'.pc;
    }
    var w :| w in s'.pc && s'.pc[w].Waiting?;
    assert w != t ==> w in s.pc && s.pc[w].Waiting?;
  }

  /** No step of the unlock call loses a wakeup, not even one that goes on without the mutex. */
  lemma UnlockNeverStuck(s: State, s': State, t: nat)
    requires MutexInv(s) && FlagInv(s) && UnlockStep(s, s', t) && !Stuck(s)
    ensures !Stuck(s')
  {
    if s.pc[t].Signalling? {
      var next := if s.pc[t].locked then Releasing else Outside;
      if w :| w in s.pc && w != t && s.pc[w].Waiting?
              && s' == Move(Move(s, w, Woken(s.pc[w].p), s.owner, s.inuse), t, next, s.owner, s.inuse) {
        assert w in s'.pc && Serves(s'.pc[w]);
      } else {
        assert forall u :: u in s'.pc ==> !s'.pc[u].Waiting?;
      }
    } else if Stuck(s') {
      assert !Serves(s'.pc[t]);
      MoveStuck(s, t, s'.pc[t], s'.owner, s'.inuse);
    }
  }

  ghost predicate SomeOversleeps(s: State, s': State) {
    exists t :: Oversleeps(s, s', t)
  }

  /** Step `i` of the run is one in which a thread oversleeps. */
  ghost predicate OversleepsAt(run: seq<State>, i: nat) {
    i + 1 < |run| && SomeOversleeps(run[i], run[i + 1])
  }

  lemma {:induction false} StuckHasCause(run: seq<State>, n: nat)
    requires Run(run) && n < |run| && Stuck(run[n])
    ensures exists i :: 0 <= i < n && OversleepsAt(run, i)
  {
    if n > 0 {
      if Stuck(run[n - 1]) {
        StuckHasCause(run, n - 1);
      } else {
        RunKeeps(run, n - 1);
        var s, s' := run[n - 1], run[n];
        LastStep(Step, run, n);
        var t :| LockStep(s, s', t) || UnlockStep(s, s', t);
        if LockStep(s, s', t) { LockStuckIff(s, s', t); } else { UnlockNeverStuck(s, s', t); }
        assert OversleepsAt(run, n - 1);
      }
    }
  }

  /** Lost wakeups, exactly: a run gets into a state with a lost wakeup if and only if in one of its steps a thread
      begins to wait after the flag it saw set has been cleared, while no other thread serves. */
  lemma LostWakeupIff(run: seq<State>)
    requires Run(run)
    ensures (exists n :: 0 <= n < |run| && Stuck(run[n])) <==> (exists i :: 0 <= i < |run| && OversleepsAt(run, i))
  {
    if n :| 0 <= n < |run| && Stuck(run[n]) {
      StuckHasCause(run, n);
    }
    if i :| 0 <= i < |run| && OversleepsAt(run, i) {
      var t :| Oversleeps(run[i], run[i + 1], t);
      OversleepingIsStuck(run[i], run[i + 1], t);
    }
  }

  /** No unlock call is going on without the mutex. */
  ghost predicate NoUnlockTimeout(s: State) {
    forall t :: t in s.pc ==> s.pc[t] != Clearing(false)
  }

  ghost predicate NeverTimesOut(run: seq<State>) {
    forall j :: 0 <= j < |run| ==> NoUnlockTimeout(run[j])
  }

  /** A thread that is going to wait still sees the flag it saw, because nobody clears it without the mutex. */
  ghost predicate WaitInv(s: State) {
    && (forall t :: t in s.pc ==> s.pc[t] != Signalling(false))
    && (forall t :: t in s.pc && s.pc[t].GoingToWait? ==> s.inuse)
  }

  lemma StepKeepsWait(s: State, s': State, t: nat)
    requires MutexInv(s) && WaitInv(s) && NoUnlockTimeout(s) && (LockStep(s, s', t) || UnlockStep(s, s', t))
    ensures WaitInv(s')
  {
  }

  lemma {:induction false} RunKeepsWait(run: seq<State>, i: nat)
    requires Run(run) && i < |run|
    requires NeverTimesOut(run)
    ensures WaitInv(run[i])
  {
    if i > 0 {
      RunKeepsWait(run, i - 1);
      var s, s' := run[i - 1], run[i];
      assert MutexInv(s) by { RunKeeps(run, i - 1); }
      assert NoUnlockTimeout(s);
      LastStep(Step, run, i);
      var t :| LockStep(s, s', t) || UnlockStep(s, s', t);
      StepKeepsWait(s, s', t);
    }
  }

  /** Where no unlock call goes on without the mutex, a thread never goes to wait on a clear flag, so while threads
      wait and the lock is free some thread is on its way to it. */
  lemma NoLostWakeup(run: seq<State>, i: nat)
    requires Run(run) && i < |run|
    requires NeverTimesOut(run)
    ensures WaitInv(run[i]) && !Stuck(run[i])
  {
    RunKeepsWait(run, i);
    if Stuck(run[i]) {
      StuckHasCause(run, i);
      var k :| 0 <= k < i && OversleepsAt(run, k);
      RunKeepsWait(run, k);
    }
  }

  /** A state of two threads. */
  function Two(owner: Option<nat>, inuse: bool, pc0: Pc, pc1: Pc): State {
    State(owner, inuse, map[0 := pc0, 1 := pc1])
  }

  /** The state in which neither of two threads is in a call. */
  const START := Two(None, false, Outside, Outside)

  lemma ByLock(s0: State, s: State, s': State, t: nat)
    requires Leads(Step, s0, s) && LockStep(s, s', t)
    ensures Leads(Step, s0, s')
  {
    LeadsNext(Step, s0, s, s');
  }

  lemma ByUnlock(s0: State, s: State, s': State, t: nat)
    requires Leads(Step, s0, s) && UnlockStep(s, s', t)
    ensures Leads(Step, s0, s')
  {
    LeadsNext(Step, s0, s, s');
  }

  /** The lock can be taken: a call of any kind that finds the mutex and the flag free can return with the lock,
      whatever the other threads are doing, and they are where they were. */
  lemma LockSucceeds(s: State, t: nat, p: Patience)
    requires t in s.pc && s.pc[t] == Outside && s.owner == None && !s.inuse
    ensures Leads(Step, s, Move(s, t, Holder, None, true))
  {
    var s1, s2 := Move(s, t, LockEntry(p), None, false), Move(s, t, Checking(p), Some(t), false);
    LeadsSelf(Step, s);
    ByLock(s, s, s1, t);
    assert s2 == Move(s1, t, Checking(p), Some(t), false);
    ByLock(s, s1, s2, t);
    CheckedSucceeds(s, s, t, p);
  }

  /** A thread that was woken and finds the mutex and the flag free can return with the lock. */
  lemma WokenSucceeds(s: State, t: nat)
    requires t in s.pc && s.pc[t].Woken? && s.owner == None && !s.inuse
    ensures Leads(Step, s, Move(s, t, Holder, None, true))
  {
    LeadsSelf(Step, s);
    ByLock(s, s, Move(s, t, Checking(s.pc[t].p), Some(t), false), t);
    CheckedSucceeds(s, s, t, s.pc[t].p);
  }

  /** A call with a timeout need not wait for ever: while the mutex is free it can return without the lock. */
  lemma TimedCanReturn(s: State, t: nat)
    requires t in s.pc && s.pc[t] == Waiting(Timed) && s.owner == None
    ensures Leads(Step, s, Move(s, t, Outside, None, s.inuse))
  {
    var s1, s2 := Move(s, t, TimedOut, None, s.inuse), Move(s, t, GiveUp, Some(t), s.inuse);
    LeadsSelf(Step, s);
    ByLock(s, s, s1, t);
    assert s2 == Move(s1, t, GiveUp, Some(t), s.inuse);
    ByLock(s, s1, s2, t);
    var s3 := Move(s, t, Outside, None, s.inuse);
    assert s3 == Move(s2, t, Outside, None, s.inuse);
    ByLock(s, s2, s3, t);
  }

  lemma CheckedSucceeds(s0: State, s: State, t: nat, p: Patience)
    requires t in s.pc && Leads(Step, s0, Move(s, t, Checking(p), Some(t), false))
    ensures Leads(Step, s0, Move(s, t, Holder, None, true))
  {
    var s1, s2 := Move(s, t, Checking(p), Some(t), false), Move(s, t, Free, Some(t), false);
    assert s2 == Move(s1, t, Free, Some(t), false);
    ByLock(s0, s1, s2, t);
    var s3, s4 := Move(s, t, Marked, Some(t), true), Move(s, t, Holder, None, true);
    assert s3 == Move(s2, t, Marked, Some(t), true);
    ByLock(s0, s2, s3, t);
    assert s4 == Move(s3, t, Holder, None, true);
    ByLock(s0, s3, s4, t);
  }

  /** From `s` thread `t` can get out of its call with the flag clear and the mutex free, having woken `w`. */
  ghost predicate LeadsToWoken(s: State, t: nat, w: nat) {
    && w in s.pc && s.pc[w].Waiting?
    && Leads(Step, s, Move(Move(s, w, Woken(s.pc[w].p), None, false), t, Outside, None, false))
  }

  /** The lock can be given back: a call of any kind that finds the mutex free can return with the flag clear and the
      mutex free, and a thread that was waiting has been woken. */
  lemma UnlockSucceeds(s: State, t: nat, p: Patience)
    requires t in s.pc && s.pc[t] == Holder && s.owner == None
    ensures SomeWaits(s) ==> exists w :: LeadsToWoken(s, t, w)
    ensures !SomeWaits(s) ==> Leads(Step, s, Move(s, t, Outside, None, false))
  {
    UnlockClears(s, t, p);
    var s1 := Move(s, t, Signalling(true), Some(t), false);
    if SomeWaits(s) {
      var w :| w in s.pc && s.pc[w].Waiting?;
      var woken := Move(s, w, Woken(s.pc[w].p), None, false);
      var s2 := Move(woken, t, Releasing, Some(t), false);
      assert s2 == Move(Move(s1, w, Woken(s1.pc[w].p), s1.owner, s1.inuse), t, Releasing, s1.owner, s1.inuse);
      ByUnlock(s, s1, s2, t);
      assert Move(woken, t, Outside, None, false) == Move(s2, t, Outside, None, false);
      ByUnlock(s, s2, Move(woken, t, Outside, None, false), t);
      assert LeadsToWoken(s, t, w);
    } else {
      var s2 := Move(s, t, Releasing, Some(t), false);
      assert s2 == Move(s1, t, Releasing, s1.owner, s1.inuse);
      ByUnlock(s, s1, s2, t);
      assert Move(s, t, Outside, None, false) == Move(s2, t, Outside, None, false);
      ByUnlock(s, s2, Move(s, t, Outside, None, false), t);
    }
  }

  lemma UnlockClears(s: State, t: nat, p: Patience)
    requires t in s.pc && s.pc[t] == Holder && s.owner == None
    ensures Leads(Step, s, Move(s, t, Signalling(true), Some(t), false))
  {
    var s1, s2 := Move(s, t, UnlockEntry(p), None, s.inuse), Move(s, t, Clearing(true), Some(t), s.inuse);
    LeadsSelf(Step, s);
    ByUnlock(s, s, s1, t);
    assert s2 == Move(s1, t, Clearing(true), Some(t), s.inuse);
    ByUnlock(s, s1, s2, t);
    var s3 := Move(s, t, Signalling(true), Some(t), false);
    assert s3 == Move(s2, t, Signalling(true), Some(t), false);
    ByUnlock(s, s2, s3, t);
  }

  /** Thread 0 gets the mutex. */
  lemma FirstThreadEnters(p: Patience)
    ensures Leads(Step, START, Two(Some(0), false, Checking(p), Outside))
  {
    LeadsSelf(Step, START);
    var s1, s2 := Two(None, false, LockEntry(p), Outside), Two(Some(0), false, Checking(p), Outside);
    assert s1 == Move(START, 0, LockEntry(p), None, false);
    ByLock(START, START, s1, 0);
    assert s2 == Move(s1, 0, Checking(p), Some(0), false);
    ByLock(START, s1, s2, 0);
  }

  /** Thread 0 finds the flag clear. */
  lemma FirstThreadChecks(p: Patience)
    ensures Leads(Step, START, Two(Some(0), false, Free, Outside))
  {
    FirstThreadEnters(p);
    var s1, s2 := Two(Some(0), false, Checking(p), Outside), Two(Some(0), false, Free, Outside);
    assert s2 == Move(s1, 0, Free, Some(0), false);
    ByLock(START, s1, s2, 0);
  }

  /** Thread 0 takes the lock. */
  lemma FirstThreadLocks(p: Patience)
    ensures Leads(Step, START, Two(None, true, Holder, Outside))
  {
    FirstThreadChecks(p);
    var s1, s2 := Two(Some(0), false, Free, Outside), Two(Some(0), true, Marked, Outside);
    assert s2 == Move(s1, 0, Marked, Some(0), true);
    ByLock(START, s1, s2, 0);
    var s3 := Two(None, true, Holder, Outside);
    assert s3 == Move(s2, 0, Holder, None, true);
    ByLock(START, s2, s3, 0);
  }

  /** Thread 1 gets the mutex. */
  lemma SecondThreadEnters(p: Patience)
    ensures Leads(Step, START, Two(Some(1), true, Holder, Checking(p)))
  {
    FirstThreadLocks(p);
    var s1, s2 := Two(None, true, Holder, Outside), Two(None, true, Holder, LockEntry(p));
    assert s2 == Move(s1, 1, LockEntry(p), None, true);
    ByLock(START, s1, s2, 1);
    var s3 := Two(Some(1), true, Holder, Checking(p));
    assert s3 == Move(s2, 1, Checking(p), Some(1), true);
    ByLock(START, s2, s3, 1);
  }

  /** Thread 1 sees the flag set and is about to wait. */
  lemma SecondThreadChecks(p: Patience)
    requires p != Try
    ensures Leads(Step, START, Two(Some(1), true, Holder, GoingToWait(p)))
  {
    SecondThreadEnters(p);
    var s1, s2 := Two(Some(1), true, Holder, Checking(p)), Two(Some(1), true, Holder, GoingToWait(p));
    assert s2 == Move(s1, 1, GoingToWait(p), Some(1), true);
    ByLock(START, s1, s2, 1);
  }

  /** Thread 0 calls unlock. */
  lemma FirstThreadUnlocks(p: Patience, q: Patience)
    requires p != Try
    ensures Leads(Step, START, Two(Some(1), true, UnlockEntry(q), GoingToWait(p)))
  {
    SecondThreadChecks(p);
    var s1, s2 := Two(Some(1), true, Holder, GoingToWait(p)), Two(Some(1), true, UnlockEntry(q), GoingToWait(p));
    assert s2 == Move(s1, 0, UnlockEntry(q), Some(1), true);
    ByUnlock(START, s1, s2, 0);
  }

  /** Thread 0 calls unlock while thread 1 owns the mutex and is going to wait. */
  function Unlocking(p: Patience, q: Patience): State {
    Two(Some(1), true, UnlockEntry(q), GoingToWait(p))
  }

  /** The call times out and clears the flag without the mutex. */
  lemma FirstThreadTimesOut(p: Patience, q: Patience)
    requires p != Try && q != Forever
    ensures Leads(Step, Unlocking(p, q), Two(Some(1), false, Signalling(false), GoingToWait(p)))
  {
    var s0, s1 := Unlocking(p, q), Two(Some(1), true, Clearing(false), GoingToWait(p));
    LeadsSelf(Step, s0);
    assert s1 == Move(s0, 0, Clearing(false), Some(1), true);
    ByUnlock(s0, s0, s1, 0);
    var s2 := Two(Some(1), false, Signalling(false), GoingToWait(p));
    assert s2 == Move(s1, 0, Signalling(false), Some(1), false);
    ByUnlock(s0, s1, s2, 0);
  }

  /** The signal finds nobody waiting; then thread 1 waits. */
  lemma SecondThreadWaits(p: Patience, q: Patience)
    requires p != Try && q != Forever
    ensures Leads(Step, Unlocking(p, q), Two(None, false, Outside, Waiting(p)))
  {
    FirstThreadTimesOut(p, q);
    var s1 := Two(Some(1), false, Signalling(false), GoingToWait(p));
    var s2 := Two(Some(1), false, Outside, GoingToWait(p));
    assert s2 == Move(s1, 0, Outside, Some(1), false);
    ByUnlock(Unlocking(p, q), s1, s2, 0);
    var s3 := Two(None, false, Outside, Waiting(p));
    assert s3 == Move(s2, 1, Waiting(p), None, false);
    ByLock(Unlocking(p, q), s2, s3, 1);
  }

  /** The condition is needed: for every lock call that may wait and every unlock call that may time out, two threads
      can get to where the second is in the first call and the first in the second, and from there to where the lock is
      free, nobody owns the mutex, thread 1 waits and thread 0 is in no call. */
  lemma LostWakeup(p: Patience, q: Patience)
    requires p != Try && q != Forever
    ensures var s := Two(None, false, Outside, Waiting(p));
            && Init(START) && Leads(Step, START, Unlocking(p, q))
            && Leads(Step, Unlocking(p, q), s) && Stuck(s)
  {
    FirstThreadUnlocks(p, q);
    SecondThreadWaits(p, q);
    assert Two(None, false, Outside, Waiting(p)).pc[1].Waiting?;
  }
}
