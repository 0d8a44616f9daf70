/** The XML escaping of nc_write_clb() (src/io.c:862-883) and its inverse, which stands for what an
    XML parser makes of the three predefined entities. */
module Xml {
  import opened Bytes

  function EscapeChar(c: char): (e: string)
    ensures 1 <= |e| <= 5
  {
    if c == '&' then "&amp;" else if c == '<' then "&lt;" else if c == '>' then "&gt;" else [c]
  }

  function Escape(s: string): string {
    if s == "" then "" else EscapeChar(s[0]) + Escape(s[1..])
  }

  function Unescape(s: string): string {
    if s == "" then ""
    else if StartsWith(s, "&amp;") then "&" + Unescape(s[5..])
    else if StartsWith(s, "&lt;") then "<" + Unescape(s[4..])
    else if StartsWith(s, "&gt;") then ">" + Unescape(s[4..])
    else [s[0]] + Unescape(s[1..])
  }

  lemma UnescapeChar(c: char, rest: string)
    ensures Unescape(EscapeChar(c) + rest) == [c] + Unescape(rest)
  {
    var e := EscapeChar(c);
    var s := e + rest;
    assert s[|e|..] == rest && s[..|e|] == e;
    assert s[0] == e[0] && (|e| > 1 ==> s[1] == e[1]);
    OtherEntity(s, "&amp;");
    OtherEntity(s, "&lt;");
    OtherEntity(s, "&gt;");
  }

  /** A text that starts differently does not start with the entity. */
  lemma OtherEntity(s: string, entity: string)
    requires s != "" && |entity| > 1
    ensures s[0] != entity[0] || (|s| > 1 && s[1] != entity[1]) ==> !StartsWith(s, entity)
  {
    if |entity| <= |s| {
      assert s[..|entity|][0] == s[0] && s[..|entity|][1] == s[1];
    }
  }

  /** Un-escaping recovers any text. */
  lemma {:induction false} UnescapeEscape(s: string)
    ensures Unescape(Escape(s)) == s
  {
    if s != "" {
      UnescapeChar(s[0], Escape(s[1..]));
      UnescapeEscape(s[1..]);
    }
  }

  /** Escaped text holds no markup. */
  lemma {:induction false} EscapeHasNoMarkup(s: string)
    ensures '<' !in Escape(s) && '>' !in Escape(s)
  {
    if s != "" {
      EscapeHasNoMarkup(s[1..]);
    }
  }

  lemma {:induction false} EscapeAppend(a: string, b: string)
    ensures Escape(a + b) == Escape(a) + Escape(b)
  {
    if a == "" {
      assert a + b == b;
    } else {
      assert (a + b)[0] == a[0] && (a + b)[1..] == a[1..] + b;
      EscapeAppend(a[1..], b);
    }
  }

  lemma EscapeSnoc(s: string, l: nat)
    requires l < |s|
    ensures Escape(s[..l + 1]) == Escape(s[..l]) + EscapeChar(s[l])
  {
    assert s[..l + 1] == s[..l] + [s[l]];
    EscapeAppend(s[..l], [s[l]]);
    assert [s[l]][1..] == "";
    assert Escape([s[l]]) == EscapeChar(s[l]) + Escape("");
  }
}
