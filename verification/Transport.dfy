/** Reading and writing exact byte counts on a transport (src/io.c:89-235 and src/io.c:652-756). */
module Transport {
  import opened Clock
  import opened Framing

  datatype Status = Starting | Running | Closing | Invalid

  datatype TermReason = NotTerminated | Dropped | Other

  /** NC_TRANSPORT_IMPL. */
  datatype Kind = NoTransport | Fd | Unix | Libssh | OpenSsl

  /** What one read attempt of the transport can report. */
  datatype ReadOutcome = Data(count: nat) | NothingYet | Interrupted | EndOfFile | ReadFailed

  /** A read attempt and the clock when its turn ended. */
  datatype Turn = Turn(outcome: ReadOutcome, at: nat)

  /** When data last came, or when the call started. */
  function Since(start: nat, turns: seq<Turn>): nat {
    if turns == [] then start
    else
      var last := turns[|turns| - 1];
      if last.outcome.Data? then last.at else Since(start, turns[..|turns| - 1])
  }

  /** Neither the time without data nor the whole time has run out. */
  predicate InTime(since: nat, now: nat, inactTimeout: nat, actDeadline: Timespec) {
    Left(Add(Reading(since), inactTimeout), Reading(now)) >= 1 && Left(actDeadline, Reading(now)) >= 1
  }

  /** The `j`-th turn gives no reason to give up: data came, or nothing did and there is still time. */
  predicate GoesOn(start: nat, turns: seq<Turn>, j: nat, inactTimeout: nat, actDeadline: Timespec)
    requires j < |turns|
  {
    match turns[j].outcome
    case Data(_) => true
    case EndOfFile => false
    case ReadFailed => false
    case _ => InTime(Since(start, turns[..j]), turns[j].at, inactTimeout, actDeadline)
  }

  predicate AllGoOn(start: nat, turns: seq<Turn>, inactTimeout: nat, actDeadline: Timespec) {
    forall j :: 0 <= j < |turns| ==> GoesOn(start, turns, j, inactTimeout, actDeadline)
  }

  /** The last turn, and no earlier one, gives a reason to give up. */
  predicate GivesUp(start: nat, turns: seq<Turn>, inactTimeout: nat, actDeadline: Timespec) {
    && turns != []
    && AllGoOn(start, turns[..|turns| - 1], inactTimeout, actDeadline)
    && !GoesOn(start, turns, |turns| - 1, inactTimeout, actDeadline)
  }

  lemma NextTurn(start: nat, turns: seq<Turn>, t: Turn, inactTimeout: nat, actDeadline: Timespec)
    requires AllGoOn(start, turns, inactTimeout, actDeadline)
    ensures var turns' := turns + [t];
            && Since(start, turns') == (if t.outcome.Data? then t.at else Since(start, turns))
            && if GoesOn(start, turns', |turns|, inactTimeout, actDeadline)
               then AllGoOn(start, turns', inactTimeout, actDeadline)
               else GivesUp(start, turns', inactTimeout, actDeadline)
  {
    var turns' := turns + [t];
    assert turns'[..|turns|] == turns;
    forall j | 0 <= j < |turns| ensures GoesOn(start, turns', j, inactTimeout, actDeadline) {
      assert turns'[..j] == turns[..j] && GoesOn(start, turns, j, inactTimeout, actDeadline);
    }
  }

  /** What one write attempt can report. */
  datatype WriteOutcome = Accepted(count: nat) | NotReady | ChannelClosed | WriteFailed

  predicate WriteGoesOn(o: WriteOutcome) {
    o.Accepted? || o.NotReady?
  }

  predicate AllGoThrough(outcomes: seq<WriteOutcome>) {
    forall i :: 0 <= i < |outcomes| ==> WriteGoesOn(outcomes[i])
  }

  /** The last attempt, and no earlier one, found the channel closed or failed. */
  predicate WriteGivesUp(outcomes: seq<WriteOutcome>) {
    && outcomes != [] && AllGoThrough(outcomes[..|outcomes| - 1])
    && !WriteGoesOn(outcomes[|outcomes| - 1])
  }

  /** No clock reading is more than this many nanoseconds after the one before. */
  const MAX_TICK := INT32_LIMIT * NSEC_PER_MSEC

  class Session {
    var status: Status
    var termReason: TermReason
    var kind: Kind
    var version: Version
    /** Bytes the peer has sent or will send, in order. */
    var input: string
    /** Bytes the transport has accepted. */
    var wire: string
    /** The monotonic clock in nanoseconds. */
    var now: nat
    /** opts.client.msgid, a uint64_t: the message-id of the last RPC sent. */
    var msgid: nat
    /** The calling thread owns the IO lock. */
    var ioHeld: bool
    /** How often the IO lock was taken and given back. */
    ghost var taken: nat
    ghost var given: nat
    /** How many calls of nc_write() have failed. */
    ghost var writeErrors: nat

    predicate Alive()
      reads this`status
    {
      status == Running || status == Starting
    }

    /** One call of read(), ssh_channel_read() or SSL_read(): any positive number of the next bytes
        up to `max` is stored at `at`, or nothing is and the report is another. */
    method AttemptRead(buf: array<char>, at: nat, max: nat) returns (o: ReadOutcome)
      requires 0 < max && at + max <= buf.Length
      modifies this`input, buf
      ensures o.Data? ==>
                && 0 < o.count <= max && o.count <= |old(input)|
                && (forall i :: at <= i < at + o.count ==> buf[i] == old(input)[i - at])
                && input == old(input)[o.count..]
      ensures !o.Data? ==> input == old(input)
      ensures forall i :: 0 <= i < at || at + max <= i < buf.Length ==> buf[i] == old(buf[i])
    {
      o := *;
      if o.Data? {
        if 0 < o.count <= max && o.count <= |input| {
          StoreBytes(buf, at, input[..o.count]);
          input := input[o.count..];
        } else {
          o := NothingYet;
        }
      }
    }

    /** One call of write(), ssh_channel_write() or SSL_write() with `max` bytes offered. A transport
        that is not ready does not stay so for more than `stalls` turns. */
    method AttemptWrite(max: nat, stalls: nat) returns (o: WriteOutcome)
      ensures o.Accepted? ==> o.count <= max && (0 < max ==> 0 < o.count)
      ensures o.NotReady? ==> 0 < stalls
    {
      o := *;
      if o.Accepted? && (o.count > max || (o.count <= 0 && 0 < max)) {
        o := Accepted(max);
      } else if o.NotReady? && stalls == 0 {
        o := Accepted(max);
      }
    }

    /** nc_session_is_connected(). */
    method IsConnected() returns (connected: bool)
      ensures connected ==> kind != NoTransport
    {
      connected := *;
      connected := connected && kind != NoTransport;
    }

    /** Time passes. */
    method Tick()
      modifies this`now
      ensures old(now) < now <= old(now) + MAX_TICK
    {
      var t: nat := *;
      now := now + if 0 < t <= MAX_TICK then t else 1;
    }

    /** nc_session_io_lock(): 1 with the lock, 0 after a timeout, -1 on an error. The mutex is not
        recursive, so its owner must not ask for it again. */
    method IoLock() returns (r: int)
      requires !ioHeld
      modifies this`ioHeld, this`taken
      ensures r == 1 || r == 0 || r == -1
      ensures ioHeld == (r == 1) && taken == old(taken) + (if r == 1 then 1 else 0)
    {
      r := *;
      if r == 1 {
        ioHeld, taken := true, taken + 1;
      } else if r != 0 {
        r := -1;
      }
    }

    /** nc_session_io_unlock(), by the owner alone. */
    method IoUnlock()
      requires ioHeld
      modifies this`ioHeld, this`given
      ensures !ioHeld && given == old(given) + 1
    {
      ioHeld, given := false, given + 1;
    }

    method Invalidate(reason: TermReason)
      modifies this`status, this`termReason
      ensures status == Invalid && termReason == reason
    {
      status := Invalid;
      termReason := reason;
    }

    /** A turn in which nothing was read: time passes, and either a deadline has come or the
        inactivity deadline is still ahead. */
    method IdleTurn(inactDeadline: Timespec, actDeadline: Timespec) returns (expired: bool)
      requires now <= inactDeadline.Nanos() < now + UINT32_LIMIT * NSEC_PER_MSEC
      modifies this`now
      ensures old(now) < now
      ensures expired <==> Left(inactDeadline, Reading(now)) < 1 || Left(actDeadline, Reading(now)) < 1
      ensures !expired ==> now <= inactDeadline.Nanos() < now + UINT32_LIMIT * NSEC_PER_MSEC
    {
      Tick();
      var cur := Reading(now);
      expired := Left(inactDeadline, cur) < 1 || Left(actDeadline, cur) < 1;
      if !expired {
        NotExpiredIsAhead(inactDeadline, cur);
      }
    }

    /** One turn of the loop of nc_read(): an attempt, and after one without data a look at the deadlines. */
    method ReadTurn(buf: array<char>, at: nat, max: nat, inactDeadline: Timespec, actDeadline: Timespec)
      returns (o: ReadOutcome, goesOn: bool)
      requires 0 < max && at + max <= buf.Length
      requires now <= inactDeadline.Nanos() < now + UINT32_LIMIT * NSEC_PER_MSEC
      modifies this`input, this`now, buf
      ensures o.Data? ==>
                && 0 < o.count <= max && o.count <= |old(input)|
                && (forall i :: at <= i < at + o.count ==> buf[i] == old(input)[i - at])
                && input == old(input)[o.count..] && now == old(now)
      ensures !o.Data? ==> input == old(input)
      ensures forall i :: 0 <= i < at || at + max <= i < buf.Length ==> buf[i] == old(buf[i])
      ensures goesOn <==>
                match o
                case Data(_) => true
                case EndOfFile => false
                case ReadFailed => false
                case _ => Left(inactDeadline, Reading(now)) >= 1 && Left(actDeadline, Reading(now)) >= 1
      ensures !o.Data? && goesOn ==>
                old(now) < now <= inactDeadline.Nanos() < now + UINT32_LIMIT * NSEC_PER_MSEC
    {
      o := AttemptRead(buf, at, max);
      match o {
        case EndOfFile => goesOn := false;
        case ReadFailed => goesOn := false;
        case Data(_) => goesOn := true;
        case _ =>
          var expired := IdleTurn(inactDeadline, actDeadline);
          goesOn := !expired;
      }
    }

    /** nc_read(): all `count` bytes in stream order, or -1 and a session that is no longer usable. It gives up at the
        end of the file, at a failure and when a deadline has passed, and then only. */
    method Read(buf: array<char>, off: nat, count: nat, inactTimeout: nat, actDeadline: Timespec)
      returns (r: int, ghost turns: seq<Turn>)
      requires off + count < buf.Length
      requires inactTimeout < UINT32_LIMIT
      modifies this`input, this`now, this`status, this`termReason, buf
      ensures r == -1 || r == count || (r == 0 && kind == NoTransport)
      ensures if r == -1 then !Alive() else status == old(status) && termReason == old(termReason)
      ensures status == old(status) || status == Invalid
      ensures old(Alive()) ==>
                if r == -1 then GivesUp(old(now), turns, inactTimeout, actDeadline)
                else AllGoOn(old(now), turns, inactTimeout, actDeadline)
      ensures old(Alive()) && r == -1 ==>
                termReason == if turns[|turns| - 1].outcome.EndOfFile? then Dropped else Other
      ensures !old(Alive()) ==> r == -1 && input == old(input) && status == old(status)
      ensures count == 0 || kind == NoTransport ==> input == old(input)
      ensures 0 < count && r == count ==>
                && count <= |old(input)|
                && buf[off..off + count] == old(input)[..count] && input == old(input)[count..]
                && buf[off + count] == '\0'
      ensures exists k: nat :: k <= |old(input)| && input == old(input)[k..] && (r == -1 && 0 < count ==> k < count)
      ensures forall i :: 0 <= i < off || off + count < i < buf.Length ==> buf[i] == old(buf[i])
    {
      assert input[0..] == input;
      if !Alive() {
        return -1, [];
      }
      if count == 0 {
        return 0, [];
      }
      if kind == NoTransport {
        return 0, [];
      }
      ghost var k;
      r, turns, k := ReadAll(buf, off, count, inactTimeout, actDeadline);
      if r == count {
        buf[off + count] := '\0';
      }
    }

    /** The loop of nc_read(). `k` bytes have been read. */
    method ReadAll(buf: array<char>, off: nat, count: nat, inactTimeout: nat, actDeadline: Timespec)
      returns (r: int, ghost turns: seq<Turn>, ghost k: nat)
      requires 0 < count && off + count < buf.Length && Alive()
      requires inactTimeout < UINT32_LIMIT
      modifies this`input, this`now, this`status, this`termReason, buf
      ensures if r == -1 then status == Invalid && k < count && GivesUp(old(now), turns, inactTimeout, actDeadline)
              else r == k == count && status == old(status) && termReason == old(termReason)
                   && AllGoOn(old(now), turns, inactTimeout, actDeadline)
      ensures r == -1 ==> termReason == if turns[|turns| - 1].outcome.EndOfFile? then Dropped else Other
      ensures k <= |old(input)| && buf[off..off + k] == old(input)[..k] && input == old(input)[k..]
      ensures forall i :: 0 <= i < off || off + count <= i < buf.Length ==> buf[i] == old(buf[i])
    {
      ghost var s, start := input, now;
      assert s[0..] == s;
      var readd := 0;
      turns := [];
      var inactDeadline := Add(Reading(now), inactTimeout);
      while readd < count
        invariant readd <= count && readd <= |s|
        invariant status == old(status) && termReason == old(termReason)
        invariant (forall i :: off <= i < off + readd ==> buf[i] == s[i - off]) && input == s[readd..]
        invariant forall i :: 0 <= i < off || off + count <= i < buf.Length ==> buf[i] == old(buf[i])
        invariant now <= inactDeadline.Nanos() < now + UINT32_LIMIT * NSEC_PER_MSEC
        invariant inactDeadline == Add(Reading(Since(start, turns)), inactTimeout)
        invariant AllGoOn(start, turns, inactTimeout, actDeadline)
        decreases count - readd, inactDeadline.Nanos() - now
      {
        var o, goesOn := ReadTurn(buf, off + readd, count - readd, inactDeadline, actDeadline);
        NextTurn(start, turns, Turn(o, now), inactTimeout, actDeadline);
        turns := turns + [Turn(o, now)];
        if !goesOn {
          Invalidate(if o.EndOfFile? then Dropped else Other);
          return -1, turns, readd;
        }
        if o.Data? {
          assert s[readd..][o.count..] == s[readd + o.count..];
          readd := readd + o.count;
          inactDeadline := Add(Reading(now), inactTimeout);
        }
      }
      return readd, turns, readd;
    }

    /** nc_write(): all of `buf` behind what was written before, or -1 with only a prefix of it. It gives up when the
        session is not usable or not connected, the channel is closed or an attempt fails, and then only. */
    method Write(buf: string) returns (r: int, ghost connected: bool, ghost outcomes: seq<WriteOutcome>)
      modifies this`wire, this`status, this`termReason, this`writeErrors
      ensures r == -1 || r == |buf|
      ensures r == -1 <==> !old(Alive()) || !connected || WriteGivesUp(outcomes)
      ensures r != -1 ==> AllGoThrough(outcomes)
      ensures writeErrors == old(writeErrors) + if r == -1 then 1 else 0
      ensures r == |buf| ==> wire == old(wire) + buf && status == old(status) && termReason == old(termReason)
      ensures r == -1 ==> old(wire) <= wire <= old(wire) + buf
      ensures r == -1 && old(Alive()) ==>
                if !connected || outcomes[|outcomes| - 1].ChannelClosed? then status == Invalid && termReason == Dropped
                else status == old(status) && termReason == old(termReason)
      ensures !old(Alive()) ==> r == -1 && wire == old(wire) && status == old(status)
      ensures kind == NoTransport ==> r == -1
    {
      connected, outcomes := false, [];
      if !Alive() {
        writeErrors := writeErrors + 1;
        return -1, false, [];
      }
      var isConnected := IsConnected();
      connected := isConnected;
      if !isConnected {
        Invalidate(Dropped);
        writeErrors := writeErrors + 1;
        return -1, false, [];
      }

      var written, stalls: nat, first := 0, *, true;
      while first || written < |buf|
        invariant written <= |buf|
        invariant wire == old(wire) + buf[..written]
        invariant status == old(status) && termReason == old(termReason) && writeErrors == old(writeErrors)
        invariant AllGoThrough(outcomes)
        decreases first, |buf| - written, stalls
      {
        first := false;
        var o := AttemptWrite(|buf| - written, stalls);
        assert (outcomes + [o])[..|outcomes|] == outcomes;
        outcomes := outcomes + [o];
        match o {
          case ChannelClosed =>
            Invalidate(Dropped);
            writeErrors := writeErrors + 1;
            return -1, connected, outcomes;
          case WriteFailed =>
            writeErrors := writeErrors + 1;
            return -1, connected, outcomes;
          case NotReady =>
            stalls := stalls - 1;
          case Accepted(c) =>
            wire := wire + buf[written..written + c];
            assert buf[..written] + buf[written..written + c] == buf[..written + c];
            written := written + c;
        }
      }
      assert buf[..written] == buf;
      return written, connected, outcomes;
    }

    /** The transport stores what it read at the place it was given. */
    static method StoreBytes(buf: array<char>, at: nat, bytes: string)
      requires at + |bytes| <= buf.Length
      modifies buf
      ensures forall i :: at <= i < at + |bytes| ==> buf[i] == bytes[i - at]
      ensures forall i :: 0 <= i < buf.Length && !(at <= i < at + |bytes|) ==> buf[i] == old(buf[i])
    {
      for k := 0 to |bytes|
        invariant forall i :: at <= i < at + k ==> buf[i] == bytes[i - at]
        invariant forall i :: 0 <= i < buf.Length && !(at <= i < at + k) ==> buf[i] == old(buf[i])
      {
        buf[at + k] := bytes[k];
      }
    }
  }
}
