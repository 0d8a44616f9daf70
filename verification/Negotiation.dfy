/** Version negotiation in parse_cpblts() (src/session.c:1290-1351). */
module Negotiation {
  import opened Bytes

  const BASE_10 := "urn:ietf:params:netconf:base:1.0"
  const BASE_11 := "urn:ietf:params:netconf:base:1.1"

  /** A child element of <capabilities>: whether it is a <capability> of the base namespace, and its text. */
  datatype Element = Element(isCapability: bool, value: string)

  function TrimLeft(s: string): string {
    if s != "" && IsSpace(s[0]) then TrimLeft(s[1..]) else s
  }

  function TrimRight(s: string): string {
    if s != "" && IsSpace(s[|s| - 1]) then TrimRight(s[..|s| - 1]) else s
  }

  /** An entry without the white space around it. */
  function Trim(s: string): string {
    TrimRight(TrimLeft(s))
  }

  lemma {:induction false} TrimLeftSpaces(ws: string, s: string)
    requires forall i :: 0 <= i < |ws| ==> IsSpace(ws[i])
    ensures TrimLeft(ws + s) == TrimLeft(s)
  {
    if ws == "" {
      assert ws + s == s;
    } else {
      assert (ws + s)[1..] == ws[1..] + s;
      TrimLeftSpaces(ws[1..], s);
    }
  }

  lemma {:induction false} TrimRightSpaces(s: string, ws: string)
    requires forall i :: 0 <= i < |ws| ==> IsSpace(ws[i])
    ensures TrimRight(s + ws) == TrimRight(s)
  {
    if ws == "" {
      assert s + ws == s;
    } else {
      assert (s + ws)[..|s + ws| - 1] == s + ws[..|ws| - 1];
      TrimRightSpaces(s, ws[..|ws| - 1]);
    }
  }

  /** White space around an entry that itself has none at its ends makes no difference. */
  lemma TrimIgnoresSpaces(before: string, entry: string, after: string)
    requires forall i :: 0 <= i < |before| ==> IsSpace(before[i])
    requires forall i :: 0 <= i < |after| ==> IsSpace(after[i])
    requires entry != "" && !IsSpace(entry[0]) && !IsSpace(entry[|entry| - 1])
    ensures Trim(before + entry + after) == entry
  {
    assert before + entry + after == before + (entry + after);
    TrimLeftSpaces(before, entry + after);
    TrimRightSpaces(entry, after);
  }

  /** strncmp(entry, urn, |entry|) finds no difference: the entry is a prefix of the URN. */
  predicate Matches(entry: string, urn: string) {
    |entry| <= |urn| && entry == urn[..|entry|]
  }

  /** The version known after one more entry; -1 stands for none yet. */
  function Step(ver: int, entry: string): int {
    if ver < 0 && Matches(entry, BASE_10) then 0
    else if ver < 1 && Matches(entry, BASE_11) then 1
    else ver
  }

  /** The version after all entries, taken in order. */
  function VersionOf(entries: seq<string>): int {
    if entries == [] then -1
    else Step(VersionOf(entries[..|entries| - 1]), entries[|entries| - 1])
  }

  predicate Accepted(e: Element) {
    e.isCapability && Trim(e.value) != ""
  }

  /** All entries without the white space around them. */
  function TrimAll(caps: seq<string>): seq<string> {
    seq(|caps|, i requires 0 <= i < |caps| => Trim(caps[i]))
  }

  function Values(elems: seq<Element>): seq<string> {
    seq(|elems|, i requires 0 <= i < |elems| => elems[i].value)
  }

  ghost predicate AllAccepted(elems: seq<Element>) {
    forall i :: 0 <= i < |elems| ==> Accepted(elems[i])
  }

  lemma AcceptedAll(elems: seq<Element>)
    requires forall i :: 0 <= i < |elems| ==> elems[i].isCapability
    ensures AllAccepted(elems) <==> "" !in TrimAll(Values(elems))
  {
    if i :| 0 <= i < |elems| && !Accepted(elems[i]) {
      assert TrimAll(Values(elems))[i] == "";
    }
  }

  lemma {:induction false} TrimRightFrom(s: string, start: nat)
    requires start < |s| && !IsSpace(s[start])
    ensures |TrimRight(s)| > start && TrimRight(s)[start] == s[start]
    ensures TrimRight(s[start..]) == TrimRight(s)[start..]
    decreases |s|
  {
    if IsSpace(s[|s| - 1]) {
      assert s[start..][..|s| - start - 1] == s[..|s| - 1][start..];
      TrimRightFrom(s[..|s| - 1], start);
    }
  }

  /** The two scans over the white space of an entry (src/session.c:1321-1326). */
  method Bounds(value: string) returns (start: nat, end: nat, empty: bool)
    ensures empty <==> Trim(value) == ""
    ensures !empty ==> start <= end <= |value| && value[start..end] == Trim(value)
  {
    start, end := 0, |value|;
    while start < |value| && IsSpace(value[start])
      invariant start <= |value| && TrimLeft(value) == TrimLeft(value[start..])
    {
      assert value[start..][1..] == value[start + 1..];
      start := start + 1;
    }
    assert TrimLeft(value) == value[start..];
    assert value[..|value|] == value;
    while end > 0 && IsSpace(value[end - 1])
      invariant end <= |value| && TrimRight(value) == TrimRight(value[..end])
    {
      assert value[..end][..end - 1] == value[..end - 1];
      end := end - 1;
    }
    assert TrimRight(value) == value[..end];
    empty := start == |value| || end == 0;
    if start < |value| {
      TrimRightFrom(value, start);
      assert value[..end][start..] == value[start..end];
    }
  }

  /** parse_cpblts(): one refused element spoils everything; otherwise the entries are stored trimmed and
      in order, and the version is what their sequence gives. */
  method ParseCpblts(elems: seq<Element>) returns (ver: int, list: seq<string>)
    ensures !AllAccepted(elems) ==> ver == -1
    ensures AllAccepted(elems) ==> list == TrimAll(Values(elems)) && ver == VersionOf(list)
  {
    ver, list := -1, [];
    for i := 0 to |elems|
      invariant |list| == i && ver == VersionOf(list)
      invariant forall k :: 0 <= k < i ==> Accepted(elems[k]) && list[k] == Trim(elems[k].value)
    {
      if !elems[i].isCapability {
        return -1, list;
      }
      var start, end, empty := Bounds(elems[i].value);
      if empty {
        return -1, list;
      }
      var entry := elems[i].value[start..end];
      if ver < 0 && Matches(entry, BASE_10) {
        ver := 0;
      } else if ver < 1 && Matches(entry, BASE_11) {
        ver := 1;
      }
      assert (list + [entry])[..i] == list;
      list := list + [entry];
    }
  }

  /** A proper prefix of the base URNs, which differ in their last byte only. */
  predicate Abbreviated(entry: string) {
    Matches(entry, BASE_10) && Matches(entry, BASE_11)
  }

  lemma MatchCases(entry: string)
    ensures Matches(entry, BASE_10) <==> entry == BASE_10 || Abbreviated(entry)
    ensures Matches(entry, BASE_11) <==> entry == BASE_11 || Abbreviated(entry)
    ensures !Abbreviated(BASE_10) && !Abbreviated(BASE_11)
  {
    assert BASE_10[..|BASE_10|] == BASE_10 && BASE_11[..|BASE_11|] == BASE_11;
    assert BASE_10[31] != BASE_11[31];
    assert BASE_10[..31] == BASE_11[..31];
    if |entry| <= 31 {
      assert BASE_10[..|entry|] == BASE_10[..31][..|entry|];
      assert BASE_11[..|entry|] == BASE_11[..31][..|entry|];
    }
  }

  /** An abbreviation at `j` with another base entry before it. */
  ghost predicate LateAbbreviation(entries: seq<string>, i: int, j: int) {
    0 <= i < j < |entries| && Matches(entries[i], BASE_10) && Abbreviated(entries[j])
  }

  /** What the loop computes, for every list: 1 when base:1.1 is there or an abbreviation follows another
      base entry, -1 when nothing is a prefix of a base URN, and 0 in all other cases. */
  lemma {:induction false} VersionOfIs(entries: seq<string>)
    ensures VersionOf(entries) in {-1, 0, 1}
    ensures VersionOf(entries) == 1 <==>
            BASE_11 in entries || exists i, j :: LateAbbreviation(entries, i, j)
    ensures VersionOf(entries) == -1 <==>
            forall i :: 0 <= i < |entries| ==> !Matches(entries[i], BASE_10) && !Matches(entries[i], BASE_11)
  {
    if entries != [] {
      var n := |entries| - 1;
      var head, last := entries[..n], entries[n];
      VersionOfIs(head);
      MatchCases(last);
      assert entries == head + [last];
      if i, j :| LateAbbreviation(head, i, j) {
        assert LateAbbreviation(entries, i, j);
      }
      if VersionOf(head) == 0 && Abbreviated(last) {
        var i :| 0 <= i < n && (Matches(head[i], BASE_10) || Matches(head[i], BASE_11));
        MatchCases(head[i]);
        assert head[i] != BASE_11;
        assert LateAbbreviation(entries, i, n);
      }
      if i, j :| LateAbbreviation(entries, i, j) {
        if j < n { assert LateAbbreviation(head, i, j); }
      }
    }
  }

  /** The version section 8.1 of RFC 6241 asks for: the highest base capability both sides have. */
  function Intended(entries: seq<string>): int {
    if BASE_11 in entries then 1 else if BASE_10 in entries then 0 else -1
  }

  /** The loop agrees with the standard if and only if base:1.1 is there, or every abbreviation comes
      before any other base entry and base:1.0 is there too. Without abbreviations that always holds,
      and the result does not depend on the order of the list. */
  lemma VersionOfIsIntendedIff(entries: seq<string>)
    ensures VersionOf(entries) == Intended(entries) <==>
            || BASE_11 in entries
            || forall j :: 0 <= j < |entries| && Abbreviated(entries[j]) ==>
                 BASE_10 in entries && forall i :: 0 <= i < j ==> !Matches(entries[i], BASE_10)
  {
    VersionOfIs(entries);
    forall e ensures Matches(e, BASE_10) <==> e == BASE_10 || Abbreviated(e) {
      MatchCases(e);
    }
    forall e ensures Matches(e, BASE_11) <==> e == BASE_11 || Abbreviated(e) {
      MatchCases(e);
    }
    if BASE_11 !in entries {
      if i, j :| LateAbbreviation(entries, i, j) {
        assert Abbreviated(entries[j]);
      }
      if j, i :| 0 <= i < j < |entries| && Abbreviated(entries[j]) && Matches(entries[i], BASE_10) {
        assert LateAbbreviation(entries, i, j);
      }
    }
  }

  /** Whoever offers base:1.1, in any list and any order, is talked to in version 1.1. As both sides of
      this library always offer it (src/session.c:1090-1091 and src/session.c:1368-1369), they agree. */
  lemma Base11Wins(entries: seq<string>)
    requires BASE_11 in entries
    ensures VersionOf(entries) == 1
  {
    VersionOfIs(entries);
  }

  /** A beginning of a base URN. */
  const ABBREVIATION := "urn:"

  lemma AbbreviationIsAbbreviated()
    ensures Abbreviated(ABBREVIATION) && ABBREVIATION != BASE_10 && ABBREVIATION != BASE_11
  {
    assert |ABBREVIATION| == 4 && |BASE_10| == 32 && |BASE_11| == 32;
    assert BASE_10[..4] == ABBREVIATION && BASE_11[..4] == ABBREVIATION;
  }

  /** Concrete lists on which the loop differs from the standard: an abbreviation alone is taken for base:1.0, and one
      behind base:1.0 for base:1.1. */
  lemma AbbreviationsMislead()
    ensures VersionOf([ABBREVIATION]) == 0 && Intended([ABBREVIATION]) == -1
    ensures VersionOf([BASE_10, ABBREVIATION]) == 1 && Intended([BASE_10, ABBREVIATION]) == 0
  {
    AbbreviationIsAbbreviated();
    MatchCases(BASE_10);
    assert BASE_10[31] != BASE_11[31];
    assert [ABBREVIATION][..0] == [] && VersionOf([]) == -1;
    assert [BASE_10][..0] == [] && VersionOf([BASE_10]) == 0;
    assert [BASE_10, ABBREVIATION][..1] == [BASE_10];
  }
}
