/** Deadlines (src/session.c:59-165): a deadline is a clock reading plus milliseconds, and what is
    left of it is a 32-bit number of milliseconds. */
module Clock {
  const NSEC_PER_SEC := 1_000_000_000
  const NSEC_PER_MSEC := 1_000_000
  const INT32_LIMIT := 0x8000_0000
  const UINT32_LIMIT := 0x1_0000_0000

  datatype Timespec = Timespec(sec: int, nsec: int) {
    predicate Normal() {
      0 <= nsec < NSEC_PER_SEC
    }

    function Nanos(): int {
      sec * NSEC_PER_SEC + nsec
    }
  }

  /** A clock reading as clock_gettime() gives it. */
  function Reading(nanos: nat): (ts: Timespec)
    ensures ts.Normal() && ts.Nanos() == nanos
  {
    Timespec(nanos / NSEC_PER_SEC, nanos % NSEC_PER_SEC)
  }

  /** nc_gettimespec_mono_add() and nc_gettimespec_real_add(), given the clock reading. The result
      is a normalised time exactly `msec` milliseconds later. */
  function Add(cur: Timespec, msec: nat): (ts: Timespec)
    requires cur.Normal()
    ensures ts.Normal() && ts.Nanos() == cur.Nanos() + msec * NSEC_PER_MSEC
  {
    if msec == 0 then cur else
    var sec := cur.sec + msec / 1000;
    var nsec := cur.nsec + (msec % 1000) * NSEC_PER_MSEC;
    if nsec >= NSEC_PER_SEC then Timespec(sec + 1, nsec - NSEC_PER_SEC)
    else if nsec < 0 then Timespec(sec - 1, nsec + NSEC_PER_SEC)
    else Timespec(sec, nsec)
  }

  /** Whole milliseconds, truncated toward zero as C division does. */
  function TruncMsec(nanos: int): int {
    if nanos >= 0 then nanos / NSEC_PER_MSEC else -((-nanos) / NSEC_PER_MSEC)
  }

  /** The truncated number has the sign of the time and is the largest in size that does not exceed it. */
  lemma TruncIs(nanos: int)
    ensures nanos >= 0 ==> 0 <= TruncMsec(nanos) * NSEC_PER_MSEC <= nanos < (TruncMsec(nanos) + 1) * NSEC_PER_MSEC
    ensures nanos < 0 ==> (TruncMsec(nanos) - 1) * NSEC_PER_MSEC < nanos <= TruncMsec(nanos) * NSEC_PER_MSEC <= 0
  {
  }

  /** Conversion to int32_t. */
  function ToInt32(x: int): (r: int)
    ensures -INT32_LIMIT <= r < INT32_LIMIT
    ensures -INT32_LIMIT <= x < INT32_LIMIT ==> r == x
  {
    (x + INT32_LIMIT) % UINT32_LIMIT - INT32_LIMIT
  }

  /** nc_difftimespec_mono_cur() and nc_difftimespec_real_cur(), given the clock reading. */
  function Left(ts: Timespec, cur: Timespec): int {
    ToInt32(TruncMsec((ts.sec - cur.sec) * NSEC_PER_SEC + (ts.nsec - cur.nsec)))
  }

  /** What is left of `ts` at `cur` in nanoseconds stays below 2^31 milliseconds either way. */
  predicate InRange(ts: Timespec, cur: Timespec) {
    var left := ts.Nanos() - cur.Nanos();
    -INT32_LIMIT * NSEC_PER_MSEC < left < INT32_LIMIT * NSEC_PER_MSEC
  }

  lemma LeftInRange(ts: Timespec, cur: Timespec)
    requires InRange(ts, cur)
    ensures Left(ts, cur) == TruncMsec(ts.Nanos() - cur.Nanos())
  {
  }

  /** The test "diff < 1" used by every waiting loop holds exactly when less than one full
      millisecond is left. */
  lemma ExpiredIff(ts: Timespec, cur: Timespec)
    requires InRange(ts, cur)
    ensures Left(ts, cur) < 1 <==> ts.Nanos() - cur.Nanos() < NSEC_PER_MSEC
  {
  }

  /** The remaining time never grows while the clock moves on. */
  lemma LeftShrinks(ts: Timespec, cur: Timespec, later: Timespec)
    requires cur.Nanos() <= later.Nanos()
    requires InRange(ts, cur) && InRange(ts, later)
    ensures Left(ts, later) <= Left(ts, cur)
  {
  }

  /** Read back at once, a deadline below 2^31 milliseconds gives the milliseconds it was set for. */
  lemma LeftOfFresh(cur: Timespec, msec: nat)
    requires cur.Normal() && msec < INT32_LIMIT
    ensures Left(Add(cur, msec), cur) == msec
  {
  }

  /** A remainder is known by a quotient. */
  lemma Remainder(x: int, q: int, r: int)
    requires x == q * UINT32_LIMIT + r && 0 <= r < UINT32_LIMIT
    ensures x % UINT32_LIMIT == r
  {
  }

  lemma CutPositive(n: int)
    requires 0 <= n
    ensures var r := n % UINT32_LIMIT;
            ToInt32(n) == if r < INT32_LIMIT then r else r - UINT32_LIMIT
  {
    var q, r := n / UINT32_LIMIT, n % UINT32_LIMIT;
    if r < INT32_LIMIT {
      Remainder(n + INT32_LIMIT, q, r + INT32_LIMIT);
    } else {
      Remainder(n + INT32_LIMIT, q + 1, r - INT32_LIMIT);
    }
  }

  lemma CutNegative(n: int)
    requires 0 <= n
    ensures var r := n % UINT32_LIMIT;
            ToInt32(-n) == if r <= INT32_LIMIT then -r else UINT32_LIMIT - r
  {
    var q, r := n / UINT32_LIMIT, n % UINT32_LIMIT;
    if r <= INT32_LIMIT {
      Remainder(-n + INT32_LIMIT, -q, INT32_LIMIT - r);
    } else {
      Remainder(-n + INT32_LIMIT, -q - 1, UINT32_LIMIT + INT32_LIMIT - r);
    }
  }

  /** For all times, near or far: the test "diff < 1" tells whether less than one full millisecond is left if and
      only if the number of milliseconds, which is cut to 32 bits, keeps its side of zero. */
  lemma TestIsRightIff(ts: Timespec, cur: Timespec)
    ensures var msec := TruncMsec(ts.Nanos() - cur.Nanos());
            (Left(ts, cur) < 1 <==> ts.Nanos() - cur.Nanos() < NSEC_PER_MSEC) <==>
            if msec < 1 then (-msec) % UINT32_LIMIT <= INT32_LIMIT else 0 < msec % UINT32_LIMIT < INT32_LIMIT
  {
    var nanos := ts.Nanos() - cur.Nanos();
    var msec := TruncMsec(nanos);
    assert (ts.sec - cur.sec) * NSEC_PER_SEC + (ts.nsec - cur.nsec) == nanos;
    assert msec < 1 <==> nanos < NSEC_PER_MSEC;
    if msec < 1 {
      CutNegative(-msec);
    } else {
      CutPositive(msec);
    }
  }

  /** Outside the 32-bit range the test can be wrong: a deadline missed by 2^31 + 1 milliseconds looks like one that
      is far ahead. */
  lemma LateDeadlineLooksFresh(ts: Timespec)
    requires ts.Normal()
    ensures var cur := Add(ts, INT32_LIMIT + 1);
            cur.Normal() && Left(ts, cur) == INT32_LIMIT - 1
  {
    var cur := Add(ts, INT32_LIMIT + 1);
    assert (ts.sec - cur.sec) * NSEC_PER_SEC + (ts.nsec - cur.nsec) == ts.Nanos() - cur.Nanos();
  }

  /** A deadline set for at most 2^32 milliseconds and missed by at most 2^31 is never taken for one ahead. */
  lemma NotExpiredIsAhead(ts: Timespec, cur: Timespec)
    requires -INT32_LIMIT * NSEC_PER_MSEC <= ts.Nanos() - cur.Nanos() < UINT32_LIMIT * NSEC_PER_MSEC
    requires Left(ts, cur) >= 1
    ensures NSEC_PER_MSEC <= ts.Nanos() - cur.Nanos()
  {
    TestIsRightIff(ts, cur);
  }
}
