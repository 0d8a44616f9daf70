/** Reading messages off a session (src/io.c:237-463 and src/io.c:566-596). */
module Reader {
  import opened Bytes
  import opened Clock
  import opened Decimal
  import opened Framing
  import opened Matcher
  import opened Transport

  const BUFFERSIZE := 512

  /** nc_realloc() of a character buffer. */
  method Resize(old_: array<char>, count: nat, length: nat) returns (buf: array<char>)
    requires count <= old_.Length && count <= length
    ensures fresh(buf) && buf.Length == length && buf[..count] == old_[..count]
  {
    buf := new char[length];
    for i := 0 to count
      invariant buf[..i] == old_[..i]
    {
      buf[i] := old_[i];
    }
  }

  /** The matching loop of nc_read_until() (src/io.c:317-325) on the buffer contents `s`, of which the bytes
      from `pos` on are new. */
  method MatchBlock(tag: string, s: string, pos: nat, matched: nat) returns (m: nat)
    requires matched < |tag| && |s| == pos + |tag| - matched
    ensures m == Advance(tag, s, pos, matched)
  {
    var count := |s|;
    m := matched;
    var i := count - pos;
    while i > 0
      invariant 0 <= i <= count - pos
      invariant i == count - pos ==> m == matched
      invariant i < count - pos ==> m == 0 && Advance(tag, s, pos, matched) == Overlap(tag, s, count, i)
    {
      assert i == count - pos ==> tag[m..m + i] == tag[m..] && count - i == pos;
      assert m == 0 ==> (s[count - i..count] == tag[m..m + i] <==> Ends(tag, s, count, i));
      if s[count - i..count] == tag[m..m + i] {
        m := m + i;
        return;
      }
      m := 0;
      i := i - 1;
    }
  }

  /** The reading part of a turn of nc_read_until() (src/io.c:297-315): the buffer grows if needed and
      the next `need` bytes are stored behind the `count` bytes it holds. */
  method ReadBlock(session: Session, buf: array<char>, count: nat, need: nat, inactTimeout: nat, actDeadline: Timespec)
    returns (ok: bool, chunk: array<char>)
    requires count < buf.Length && 0 < need <= BUFFERSIZE && inactTimeout < UINT32_LIMIT
    modifies session`input, session`now, session`status, session`termReason, buf
    ensures chunk == buf || fresh(chunk)
    ensures ok ==>
              && need <= |old(session.input)|
              && count + need < chunk.Length
              && chunk[..count + need] == old(buf[..count]) + old(session.input)[..need]
              && session.input == old(session.input)[need..]
              && session.status == old(session.status)
    ensures !ok ==> !session.Alive() || session.kind == NoTransport
    ensures session.status == old(session.status) || session.status == Invalid
  {
    chunk := buf;
    var size := buf.Length - 1;
    if count + need >= size {
      chunk := Resize(buf, count, size + BUFFERSIZE + 1);
    }
    ghost var before := chunk[..count];
    var got, _ := session.Read(chunk, count, need, inactTimeout, actDeadline);
    ok := got == need;
    assert ok ==> chunk[..count + need] == before + chunk[count..count + need];
  }

  lemma ScanStep(tag: string, s: string, pos: nat, m: nat)
    requires m < |tag| && pos + |tag| - m <= |s|
    ensures Advance(tag, s, pos, m) <= |tag|
    ensures Scan(tag, s, pos, m) ==
            if Advance(tag, s, pos, m) == |tag| then Some(pos + |tag| - m)
            else Scan(tag, s, pos + |tag| - m, Advance(tag, s, pos, m))
  {
  }

  /** What the buffer of nc_read_until() holds and what is left on the stream `s`. */
  ghost predicate Buffered(session: Session, chunk: array<char>, s: string, count: nat)
    reads session, chunk
  {
    && count < chunk.Length && count <= |s|
    && chunk[..count] == s[..count] && session.input == s[count..]
  }

  /** The search goes on at `count` with `matched` bytes of the tag. */
  ghost predicate OnTheWay(tag: string, s: string, count: nat, matched: nat) {
    matched < |tag| && count <= |s| && Until(tag, s) == Scan(tag, s, count, matched)
  }

  /** The search ends at `r`, right behind the tag. */
  ghost predicate Found(tag: string, s: string, r: nat) {
    tag != "" && r <= |s| && Until(tag, s) == Some(r) && EndsWith(s[..r], tag)
  }

  lemma SearchStep(tag: string, s: string, count: nat, matched: nat, matched': nat)
    requires OnTheWay(tag, s, count, matched) && count + |tag| - matched <= |s|
    requires matched' == Advance(tag, s[..count + |tag| - matched], count, matched)
    ensures var count' := count + |tag| - matched;
            if matched' == |tag| then Found(tag, s, count') else OnTheWay(tag, s, count', matched')
  {
    AdvanceLocal(tag, s[..count + |tag| - matched], s, count, matched);
    ScanStep(tag, s, count, matched);
    if matched' == |tag| {
      UntilEndsWithTag(tag, s);
    }
  }

  /** A turn of nc_read_until(): a block is read and matched. */
  method Turn(session: Session, tag: string, ghost s: string, buf: array<char>, count: nat, matched: nat,
              inactTimeout: nat, actDeadline: Timespec)
    returns (ok: bool, chunk: array<char>, count': nat, matched': nat)
    requires matched < |tag| <= BUFFERSIZE && inactTimeout < UINT32_LIMIT
    requires Buffered(session, buf, s, count) && OnTheWay(tag, s, count, matched)
    modifies session`input, session`now, session`status, session`termReason, buf
    ensures chunk == buf || fresh(chunk)
    ensures ok ==>
              && count < count' <= |s|
              && Buffered(session, chunk, s, count')
              && (if matched' == |tag| then Found(tag, s, count') else OnTheWay(tag, s, count', matched'))
              && session.status == old(session.status)
    ensures !ok ==> !session.Alive() || session.kind == NoTransport
    ensures session.status == old(session.status) || session.status == Invalid
  {
    var need := |tag| - matched;
    count', matched' := count + need, matched;
    ok, chunk := ReadBlock(session, buf, count, need, inactTimeout, actDeadline);
    if ok {
      assert chunk[..count + need] == s[..count + need] && s[count..][need..] == s[count + need..];
      matched' := MatchBlock(tag, chunk[..count + need], count, matched);
      SearchStep(tag, s, count, matched, matched');
    }
  }

  /** nc_read_until(): the bytes up to and including the first stop of the matcher, which are
      exactly the bytes consumed. Every store lies inside the buffer. */
  method ReadUntil(session: Session, tag: string, limit: nat, inactTimeout: nat, actDeadline: Timespec)
    returns (r: int, chunk: array<char>)
    requires 0 < |tag| <= BUFFERSIZE
    requires inactTimeout < UINT32_LIMIT
    modifies session`input, session`now, session`status, session`termReason
    ensures fresh(chunk) && (r == -1 || 0 <= r < chunk.Length)
    ensures r != -1 ==>
              && Found(tag, old(session.input), r)
              && chunk[..r] == old(session.input)[..r] && chunk[r] == '\0'
              && session.input == old(session.input)[r..]
              && session.status == old(session.status)
    ensures r == -1 ==>
              || !session.Alive()
              || session.kind == NoTransport
              || (0 < limit <= |old(session.input)| && session.input == old(session.input)[limit..])
    ensures session.status == old(session.status) || session.status == Invalid
  {
    var found, count;
    found, chunk, count := Search(session, tag, limit, inactTimeout, actDeadline);
    if !found {
      return -1, chunk;
    }
    Terminate(chunk, count);
    return count, chunk;
  }

  /** The loop of nc_read_until() (src/io.c:277-331). */
  method Search(session: Session, tag: string, limit: nat, inactTimeout: nat, actDeadline: Timespec)
    returns (found: bool, chunk: array<char>, count: nat)
    requires 0 < |tag| <= BUFFERSIZE
    requires inactTimeout < UINT32_LIMIT
    modifies session`input, session`now, session`status, session`termReason
    ensures fresh(chunk)
    ensures found ==>
              && Found(tag, old(session.input), count)
              && Buffered(session, chunk, old(session.input), count)
              && session.status == old(session.status)
    ensures !found ==>
              || !session.Alive()
              || session.kind == NoTransport
              || (0 < limit <= |old(session.input)| && session.input == old(session.input)[limit..])
    ensures session.status == old(session.status) || session.status == Invalid
  {
    ghost var s := session.input;
    var matched := 0;
    count := 0;
    chunk := new char[(if limit > 0 && limit < BUFFERSIZE then limit else BUFFERSIZE) + 1];
    while true
      invariant 0 <= matched && fresh(chunk)
      invariant Buffered(session, chunk, s, count) && OnTheWay(tag, s, count, matched)
      invariant session.status == old(session.status)
      decreases |s| - count
    {
      if limit > 0 && count == limit {
        return false, chunk, count;
      }
      var ok;
      ok, chunk, count, matched := Turn(session, tag, s, chunk, count, matched, inactTimeout, actDeadline);
      if !ok {
        return false, chunk, count;
      }
      if matched == |tag| {
        return true, chunk, count;
      }
    }
  }

  method Terminate(chunk: array<char>, count: nat)
    requires count < chunk.Length
    modifies chunk
    ensures chunk[..count] == old(chunk[..count]) && chunk[count] == '\0'
  {
    chunk[count] := '\0';
  }

  /** NC_READ_INACT_TIMEOUT and NC_READ_ACT_TIMEOUT in milliseconds; the inactivity timeout is a uint32_t. */
  datatype Timeouts = Timeouts(inact: nat, act: nat)

  /** nc_read_chunk(): the next `len` bytes. */
  method ReadChunk(session: Session, len: nat, inactTimeout: nat, actDeadline: Timespec)
    returns (r: int, chunk: string)
    requires inactTimeout < UINT32_LIMIT
    modifies session`input, session`now, session`status, session`termReason
    ensures r == -1 || r == len
    ensures r == len ==>
              && len <= |old(session.input)| && chunk == old(session.input)[..len]
              && session.input == old(session.input)[len..]
              && session.status == old(session.status)
    ensures r == -1 ==> !session.Alive() || session.kind == NoTransport
    ensures session.status == old(session.status) || session.status == Invalid
  {
    if len == 0 {
      return 0, "";
    }
    var buf := new char[len + 1];
    ghost var turns;
    r, turns := session.Read(buf, 0, len, inactTimeout, actDeadline);
    if r <= 0 {
      return -1, "";
    }
    chunk := buf[..r];
  }

  lemma TurnOf(s: string, a: nat, b: nat, data: Option<string>)
    requires a <= |s| && b <= |s| - a
    requires Until("\n#", s) == Some(a) && Until("\n", s[a..]) == Some(b)
    ensures var line, used := s[a..][..b], a + b;
            var size := StrToUl(line);
            ReadTurn(s, data) ==
              if line == "#\n" then Done(if data.None? then BadFrame else Msg(data.value, used))
              else if size == 0 then Done(BadFrame)
              else if size > |s| - used then Done(Starved)
              else Chunk(s[a..][b..][..size], used + size)
  {
  }

  lemma DropDrop(s: string, a: nat, b: nat)
    requires a + b <= |s|
    ensures s[a..][b..] == s[a + b..]
  {
  }

  /** The header line of a chunk (src/io.c:388-397): `a` bytes up to "\n#" and then the line. */
  method ReadHeader(session: Session, inactTimeout: nat, actDeadline: Timespec)
    returns (ok: bool, line: string, ghost a: nat)
    requires inactTimeout < UINT32_LIMIT && session.Alive()
    modifies session`input, session`now, session`status, session`termReason
    ensures ok ==>
              && a + |line| <= |old(session.input)|
              && Until("\n#", old(session.input)) == Some(a)
              && Until("\n", old(session.input)[a..]) == Some(|line|)
              && line == old(session.input)[a..][..|line|]
              && session.input == old(session.input)[a + |line|..]
              && session.status == old(session.status)
    ensures !ok ==> !session.Alive() || session.kind == NoTransport
    ensures session.status == old(session.status) || session.status == Invalid
  {
    ghost var s := session.input;
    a, line := 0, "";
    var r, buf := ReadUntil(session, "\n#", 0, inactTimeout, actDeadline);
    if r == -1 {
      return false, "", 0;
    }
    a := r;
    r, buf := ReadUntil(session, "\n", 0, inactTimeout, actDeadline);
    if r == -1 {
      return false, "", 0;
    }
    line := buf[..r];
    DropDrop(s, a, r);
    return true, line, a;
  }

  /** One turn of the 1.1 branch of nc_read_msg_io() (src/io.c:387-437). */
  method ReadOneTurn(session: Session, data: Option<string>, inactTimeout: nat, actDeadline: Timespec)
    returns (ret: int, done: bool, data': Option<string>)
    requires inactTimeout < UINT32_LIMIT && session.Alive()
    modifies session`input, session`now, session`status, session`termReason
    ensures ret == 1 || ret == -1 || ret == -2
    ensures ret != -1 ==> session.status == old(session.status)
    ensures ret == -1 ==> !session.Alive() || session.kind == NoTransport
    ensures ret == -2 ==> ReadTurn(old(session.input), data) == Done(BadFrame)
    ensures ret == 1 && done ==>
              && data'.Some?
              && |session.input| <= |old(session.input)|
              && ReadTurn(old(session.input), data)
                 == Done(Msg(data'.value, |old(session.input)| - |session.input|))
              && session.input == old(session.input)[|old(session.input)| - |session.input|..]
    ensures ret == 1 && !done ==>
              var t := ReadTurn(old(session.input), data);
              t.Chunk? && session.input == old(session.input)[t.used..] && data' == Some(Appended(data, t.text))
    ensures session.status == old(session.status) || session.status == Invalid
  {
    ghost var s := session.input;
    var ok, line, a := ReadHeader(session, inactTimeout, actDeadline);
    if !ok {
      return -1, true, None;
    }
    TurnOf(s, a, |line|, data);
    if line == "#\n" {
      if data.None? {
        return -2, true, None;
      }
      return 1, true, data;
    }
    var size := StrToUl(line);
    if size == 0 {
      return -2, true, None;
    }
    var got, chunk := ReadChunk(session, size, inactTimeout, actDeadline);
    if got == -1 {
      return -1, true, None;
    }
    DropDrop(s, a, |line|);
    DropDrop(s, a + |line|, size);
    return 1, false, Some(Appended(data, chunk));
  }

  /** The stream left over when `consumed` bytes of `s` are gone. */
  ghost predicate Consumed(s: string, left: string, consumed: nat) {
    consumed <= |s| && left == s[consumed..]
  }

  /** After `used` bytes of `s` the stream `cur` is left and the chunks so far are `data`. */
  ghost predicate Midway(s: string, cur: string, data: Option<string>, used: nat) {
    Consumed(s, cur, used) && ReadChunks(s, None) == ReadChunks(cur, data).Shift(used)
  }

  lemma MidwayTurn(s: string, cur: string, data: Option<string>, used: nat)
    requires Midway(s, cur, data, used)
    ensures var t := ReadTurn(cur, data);
            && (t.Done? ==> ReadChunks(s, None) == t.result.Shift(used))
            && (t.Chunk? ==> Midway(s, cur[t.used..], Some(Appended(data, t.text)), used + t.used))
  {
  }

  lemma MidwayBad(s: string, cur: string, data: Option<string>, used: nat)
    requires Midway(s, cur, data, used) && ReadTurn(cur, data) == Done(BadFrame)
    ensures ReadChunks(s, None) == BadFrame
  {
  }

  lemma MidwayNext(s: string, cur: string, data: Option<string>, used: nat, next: string, data': Option<string>)
    returns (used': nat)
    requires Midway(s, cur, data, used)
    requires var t := ReadTurn(cur, data);
             t.Chunk? && next == cur[t.used..] && data' == Some(Appended(data, t.text))
    ensures Midway(s, next, data', used') && |next| < |cur|
  {
    MidwayTurn(s, cur, data, used);
    used' := used + ReadTurn(cur, data).used;
  }

  lemma MidwayDone(s: string, cur: string, data: Option<string>, used: nat, left: string, text: string)
    requires Midway(s, cur, data, used)
    requires |left| <= |cur| && left == cur[|cur| - |left|..]
    requires ReadTurn(cur, data) == Done(Msg(text, |cur| - |left|))
    ensures var r := ReadChunks(s, None);
            r.Msg? && r.data == text && Consumed(s, left, r.consumed)
  {
  }

  lemma MidwayStart(s: string)
    ensures Midway(s, s, None, 0)
  {
  }

  /** A turn seen from the start of the message `s`, of which `used` bytes are gone. */
  method ReadOneMore(session: Session, ghost s: string, ghost used: nat, data: Option<string>,
                     inactTimeout: nat, actDeadline: Timespec)
    returns (ret: int, done: bool, data': Option<string>, ghost used': nat)
    requires inactTimeout < UINT32_LIMIT && session.Alive() && Midway(s, session.input, data, used)
    modifies session`input, session`now, session`status, session`termReason
    ensures ret == 1 || ret == -1 || ret == -2
    ensures ret != -1 ==> session.status == old(session.status)
    ensures ret == -1 ==> !session.Alive() || session.kind == NoTransport
    ensures ret == -2 ==> ReadChunks(s, None) == BadFrame
    ensures ret == 1 && done ==>
              var r := ReadChunks(s, None);
              data'.Some? && r.Msg? && r.data == data'.value && Consumed(s, session.input, r.consumed)
    ensures ret == 1 && !done ==> Midway(s, session.input, data', used') && |session.input| < |old(session.input)|
    ensures session.status == old(session.status) || session.status == Invalid
  {
    ghost var cur := session.input;
    ret, done, data' := ReadOneTurn(session, data, inactTimeout, actDeadline);
    used' := used;
    if ret == -2 {
      MidwayBad(s, cur, data, used);
    } else if ret == 1 && done {
      MidwayDone(s, cur, data, used, session.input, data'.value);
    } else if ret == 1 {
      used' := MidwayNext(s, cur, data, used, session.input, data');
    }
  }

  /** The 1.1 branch of nc_read_msg_io() (src/io.c:386-439). */
  method ReadChunkedMsg(session: Session, inactTimeout: nat, actDeadline: Timespec)
    returns (ret: int, data: Option<string>)
    requires inactTimeout < UINT32_LIMIT && session.Alive()
    modifies session`input, session`now, session`status, session`termReason
    ensures ret == 1 || ret == -1 || ret == -2
    ensures ret == 1 ==>
              && data.Some?
              && session.status == old(session.status)
              && (var r := ReadChunks(old(session.input), None);
                  && r.Msg? && r.data == data.value
                  && Consumed(old(session.input), session.input, r.consumed))
    ensures ret == -2 ==> ReadChunks(old(session.input), None) == BadFrame && session.status == old(session.status)
    ensures ret == -1 ==> !session.Alive() || session.kind == NoTransport
    ensures session.status == old(session.status) || session.status == Invalid
  {
    ghost var s := session.input;
    ghost var used: nat := 0;
    data := None;
    MidwayStart(s);
    while true
      invariant Midway(s, session.input, data, used)
      invariant session.status == old(session.status)
      decreases |session.input|
    {
      var r, done, data', used' := ReadOneMore(session, s, used, data, inactTimeout, actDeadline);
      if r != 1 {
        return r, None;
      }
      data, used := data', used';
      if done {
        return 1, data;
      }
    }
  }

  /** nc_read_msg_io(): with the IO lock taken here or passed down, one message read by the framing of
      the session's version. Whatever the outcome, the lock is given back exactly once. */
  method ReadMsgIo(session: Session, timeouts: Timeouts, passingIoLock: bool)
    returns (ret: int, msg: Option<string>)
    requires timeouts.inact < UINT32_LIMIT
    requires session.ioHeld == passingIoLock
    modifies session`input, session`now, session`status, session`termReason,
             session`ioHeld, session`taken, session`given
    ensures ret == 1 || ret == 0 || ret == -1 || ret == -2
    ensures ret == 1 ==>
              && msg.Some?
              && session.status == old(session.status)
              && (var r := ReadMsg(session.version, old(session.input));
                  && r.Msg? && r.data == msg.value
                  && Consumed(old(session.input), session.input, r.consumed))
    ensures ret == -2 ==>
              && ReadMsg(session.version, old(session.input)) == BadFrame
              && session.status == old(session.status)
    ensures ret == 0 ==> session.input == old(session.input) && session.status == old(session.status)
    ensures ret == -1 ==>
              || !session.Alive()
              || session.kind == NoTransport
              || (!passingIoLock && session.input == old(session.input) && session.taken == old(session.taken))
    ensures ret == 0 ==> !passingIoLock && session.taken == old(session.taken)
    ensures !old(session.Alive()) ==>
              ret == -1 && session.input == old(session.input) && session.status == old(session.status)
    ensures ret != 1 ==> msg.None?
    ensures !session.ioHeld
    ensures session.given - old(session.given)
         == session.taken - old(session.taken) + (if passingIoLock then 1 else 0)
    ensures old(session.taken) <= session.taken <= old(session.taken) + (if passingIoLock then 0 else 1)
  {
    msg := None;
    if !session.Alive() {
      if passingIoLock {
        session.IoUnlock();
      }
      return -1, None;
    }
    var actDeadline := Add(Reading(session.now), timeouts.act);
    if !passingIoLock {
      ret := session.IoLock();
      if ret < 1 {
        return ret, None;
      }
    }
    match session.version {
      case V10 =>
        var r, data := ReadUntil(session, END_TAG, 0, timeouts.inact, actDeadline);
        if r == -1 {
          ret := -1;
        } else {
          ret, msg := 1, Some(data[..r - |END_TAG|]);
          assert data[..r - |END_TAG|] == data[..r][..r - |END_TAG|];
        }
      case V11 =>
        ret, msg := ReadChunkedMsg(session, timeouts.inact, actDeadline);
        if ret != 1 {
          msg := None;
        }
    }
    session.IoUnlock();
  }

  /** nc_read_poll(): 1 when there is something to read, 0 when not, -1 with an invalid session. */
  method ReadPoll(session: Session) returns (ret: int)
    modifies session`status, session`termReason
    ensures ret == 1 || ret == 0 || ret == -1
    ensures ret == -1 ==> !session.Alive() || session.kind == NoTransport
    ensures ret != -1 ==> session.status == old(session.status)
  {
    if !session.Alive() || session.kind == NoTransport {
      return -1;
    }
    ret := *;
    if ret < 0 {
      session.Invalidate(Other);
      ret := -1;
    } else if ret > 1 {
      ret := 1;
    }
  }

  /** nc_read_msg_poll_io(): the lock taken here is given back here or by the callee, never twice. */
  method ReadMsgPollIo(session: Session, timeouts: Timeouts) returns (ret: int, msg: Option<string>)
    requires timeouts.inact < UINT32_LIMIT
    requires !session.ioHeld
    modifies session`input, session`now, session`status, session`termReason,
             session`ioHeld, session`taken, session`given
    ensures ret == 1 || ret == 0 || ret == -1 || ret == -2
    ensures ret == 1 ==>
              && msg.Some?
              && (var r := ReadMsg(session.version, old(session.input));
                  && r.Msg? && r.data == msg.value
                  && Consumed(old(session.input), session.input, r.consumed))
    ensures ret == -2 ==> ReadMsg(session.version, old(session.input)) == BadFrame
    ensures ret == 0 ==> session.input == old(session.input) && session.status == old(session.status)
    ensures ret == -1 ==>
              || !session.Alive()
              || session.kind == NoTransport
              || (session.input == old(session.input) && session.taken == old(session.taken))
    ensures !old(session.Alive()) ==>
              ret == -1 && session.input == old(session.input) && session.status == old(session.status)
    ensures ret != 1 ==> msg.None?
    ensures !session.ioHeld
    ensures 0 <= session.given - old(session.given) == session.taken - old(session.taken) <= 1
  {
    if !session.Alive() {
      return -1, None;
    }
    ret := session.IoLock();
    if ret < 1 {
      return ret, None;
    }
    ret := ReadPoll(session);
    if ret < 1 {
      session.IoUnlock();
      return ret, None;
    }
    ret, msg := ReadMsgIo(session, timeouts, true);
  }
}
