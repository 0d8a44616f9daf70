/** The capability list of a server: add_cpblt() (src/session.c:1029-1064). */
module CapabilityList {
  import opened Bytes

  /** The part of a capability before '?', which identifies it. */
  function Key(c: string): (k: string)
    ensures '?' !in k
  {
    if c == "" || c[0] == '?' then "" else [c[0]] + Key(c[1..])
  }

  /** strncmp(entry, capab, len) finds no difference and the entry ends there or goes on with '?'. */
  predicate SameCapability(entry: string, key: string) {
    StartsWith(entry, key) && (|entry| == |key| || entry[|key|] == '?')
  }

  lemma {:induction false} SameCapabilityIff(entry: string, key: string)
    requires '?' !in key
    ensures SameCapability(entry, key) <==> Key(entry) == key
  {
    if entry != "" && entry[0] != '?' {
      if key != "" {
        SameCapabilityIff(entry[1..], key[1..]);
        if entry[0] == key[0] {
          assert |key| <= |entry| ==> entry[..|key|] == [entry[0]] + entry[1..][..|key| - 1];
          assert key == [key[0]] + key[1..];
        } else {
          assert |key| <= |entry| ==> entry[..|key|][0] == entry[0];
          assert Key(entry)[0] == entry[0];
        }
      }
    } else if key != "" && entry != "" {
      assert |key| <= |entry| ==> entry[..|key|][0] == '?';
    }
  }

  ghost predicate HasKey(list: seq<string>, key: string) {
    exists i :: 0 <= i < |list| && Key(list[i]) == key
  }

  /** The list after one more capability. */
  ghost function AddOnce(list: seq<string>, c: string): seq<string> {
    if HasKey(list, Key(c)) then list else list + [c]
  }

  /** char **cpblts with its size and count. */
  class Cpblts {
    var items: array<string>
    var count: nat

    ghost predicate Valid()
      reads this, items
    {
      count <= items.Length
    }

    ghost function Contents(): seq<string>
      requires Valid()
      reads this, items
    {
      items[..count]
    }

    /** The two base capabilities a server always offers (src/session.c:1085-1092). */
    constructor (base10: string, base11: string)
      ensures Valid() && fresh(items) && Contents() == [base10, base11]
    {
      items := new string[10](_ => "");
      count := 2;
      new;
      items[0], items[1] := base10, base11;
    }

    /** add_cpblt(): nothing happens if a capability with the same part before '?' is there; otherwise the new one
        goes to the end, in a larger array if needed. */
    method Add(capab: string)
      requires Valid()
      modifies this, items
      ensures Valid() && (items == old(items) || fresh(items))
      ensures Contents() == AddOnce(old(Contents()), capab)
    {
      var key := Key(capab);
      for i := 0 to count
        invariant forall j :: 0 <= j < i ==> Key(items[j]) != key
        modifies {}
      {
        SameCapabilityIff(items[i], key);
        if SameCapability(items[i], key) {
          assert Key(Contents()[i]) == key;
          return;
        }
      }
      ghost var before := Contents();
      if count == items.Length {
        var grown := new string[items.Length + 5](_ => "");
        forall i | 0 <= i < count {
          grown[i] := items[i];
        }
        items := grown;
      }
      items[count] := capab;
      count := count + 1;
      assert Contents() == before + [capab];
    }
  }

  /** The list after a sequence of additions. */
  ghost function AddAll(list: seq<string>, cs: seq<string>): seq<string> {
    if cs == [] then list else AddOnce(AddAll(list, cs[..|cs| - 1]), cs[|cs| - 1])
  }

  /** No two capabilities of the list have the same part before '?'. */
  ghost predicate DistinctKeys(list: seq<string>) {
    forall i, j :: 0 <= i < j < |list| ==> Key(list[i]) != Key(list[j])
  }

  /** The capability at `i` is the first with its key. */
  ghost predicate FirstWithKey(cs: seq<string>, i: nat)
    requires i < |cs|
  {
    !HasKey(cs[..i], Key(cs[i]))
  }

  /** The first capability of each key, in order. */
  ghost function Firsts(cs: seq<string>): seq<string> {
    if cs == [] then []
    else
      var n := |cs| - 1;
      Firsts(cs[..n]) + if FirstWithKey(cs, n) then [cs[n]] else []
  }

  lemma {:induction false} FirstsKeys(cs: seq<string>, key: string)
    ensures HasKey(Firsts(cs), key) <==> HasKey(cs, key)
  {
    if cs != [] {
      var n := |cs| - 1;
      var head, f := cs[..n], Firsts(cs[..n]);
      FirstsKeys(head, key);
      assert cs == head + [cs[n]];
      if i :| 0 <= i < |head| && Key(head[i]) == key {
        assert Key(cs[i]) == key;
      }
      if i :| 0 <= i < |f| && Key(f[i]) == key {
        assert Key(Firsts(cs)[i]) == key;
      }
      if FirstWithKey(cs, n) {
        assert Firsts(cs)[|f|] == cs[n];
      }
    }
  }

  /** Whatever is added and in whatever order, the list holds the first capability of each key and no other, in the
      order they were added, and no two entries have the same key. */
  lemma {:induction false} AddAllIsFirsts(cs: seq<string>)
    ensures AddAll([], cs) == Firsts(cs)
    ensures DistinctKeys(Firsts(cs))
  {
    if cs != [] {
      var n := |cs| - 1;
      AddAllIsFirsts(cs[..n]);
      FirstsKeys(cs[..n], Key(cs[n]));
    }
  }

  /** Additions of capabilities with distinct keys all take effect. */
  lemma {:induction false} DistinctAllStay(cs: seq<string>)
    requires DistinctKeys(cs)
    ensures AddAll([], cs) == cs
  {
    if cs != [] {
      var n := |cs| - 1;
      DistinctLast(cs);
      DistinctAllStay(cs[..n]);
      assert cs == cs[..n] + [cs[n]];
    }
  }

  lemma DistinctLast(cs: seq<string>)
    requires cs != [] && DistinctKeys(cs)
    ensures DistinctKeys(cs[..|cs| - 1]) && !HasKey(cs[..|cs| - 1], Key(cs[|cs| - 1]))
  {
    assert forall i :: 0 <= i < |cs| - 1 ==> cs[..|cs| - 1][i] == cs[i];
  }

  lemma {:induction false} KeyOfQuery(ns: string, rest: string)
    requires '?' !in ns
    ensures Key(ns + "?" + rest) == ns
  {
    var s := ns + "?" + rest;
    if ns != "" {
      assert s[1..] == ns[1..] + "?" + rest;
      KeyOfQuery(ns[1..], rest);
    }
  }
}
