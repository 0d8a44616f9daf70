/** Message-ids: session->opts.client.msgid is a uint64_t that counts the RPCs of a session (src/io.c:952-984). */
module MessageId {
  import opened Decimal

  const ID_COUNT := ULONG_MAX + 1

  /** The id after `id`. */
  function NextId(id: nat): (next: nat)
    ensures next <= ULONG_MAX
  {
    (id + 1) % ID_COUNT
  }

  /** The `n`-th id after `base`. */
  function NthId(base: nat, n: nat): (id: nat)
    ensures id <= ULONG_MAX
  {
    (base + n) % ID_COUNT
  }

  /** A remainder is known by a quotient. */
  lemma Remainder(x: int, q: int, r: int)
    requires x == q * ID_COUNT + r && 0 <= r < ID_COUNT
    ensures x % ID_COUNT == r
  {
  }

  lemma NextOfNth(base: nat, n: nat)
    ensures NextId(NthId(base, n)) == NthId(base, n + 1)
  {
    var q, r := (base + n) / ID_COUNT, (base + n) % ID_COUNT;
    if r + 1 < ID_COUNT {
      Remainder(base + n + 1, q, r + 1);
      Remainder(r + 1, 0, r + 1);
    } else {
      Remainder(base + n + 1, q + 1, 0);
      Remainder(r + 1, 1, 0);
    }
  }

  lemma NextDiffers(id: nat)
    ensures NextId(NextId(id)) != NextId(id)
  {
  }

  lemma SameIdIff(base: nat, m: nat, n: nat)
    requires m <= n
    ensures NthId(base, n) == NthId(base, m) <==> (n - m) % ID_COUNT == 0
  {
  }
}
