/** The <hello> message (src/io.c:1108-1141): printing, and reading back through the wire. */
module Hello {
  import opened Bytes
  import opened Decimal
  import opened Framing
  import opened Matcher
  import opened Search
  import opened Sequences
  import opened Writer
  import opened Xml

  const NS_BASE := "urn:ietf:params:xml:ns:netconf:base:1.0"
  const OPEN := "<hello xmlns=\"" + NS_BASE + "\"><capabilities>"
  const CAP_OPEN := "<capability>"
  const CAP_CLOSE := "</capability>"
  const CAPS_CLOSE := "</capabilities>"
  const SID_OPEN := "<session-id>"
  const SID_CLOSE := "</session-id></hello>"

  /** The text behind the capabilities; only a server sends its session-id. */
  function Ending(sid: Option<nat>): string {
    match sid
    case None => "</capabilities></hello>"
    case Some(id) => "</capabilities><session-id>" + Print(id) + "</session-id></hello>"
  }

  /** The text of all <capability> elements. */
  function CapsText(caps: seq<string>): string {
    if caps == [] then ""
    else CAP_OPEN + Escape(caps[0]) + CAP_CLOSE + CapsText(caps[1..])
  }

  function HelloText(caps: seq<string>, sid: Option<nat>): string {
    OPEN + CapsText(caps) + Ending(sid)
  }

  /** The calls of nc_write_clb() for the capabilities. */
  function CapsParts(caps: seq<string>): seq<Part> {
    if caps == [] then []
    else [Raw(CAP_OPEN), Content(caps[0]), Raw(CAP_CLOSE)] + CapsParts(caps[1..])
  }

  /** The calls of nc_write_clb() for a <hello>. */
  function HelloParts(caps: seq<string>, sid: Option<nat>): seq<Part> {
    [Raw(OPEN)] + CapsParts(caps) + [Raw(Ending(sid))]
  }

  lemma {:induction false} CapsPartsText(caps: seq<string>)
    ensures Texts(CapsParts(caps)) == CapsText(caps)
  {
    if caps != [] {
      var a, b, c := Raw(CAP_OPEN), Content(caps[0]), Raw(CAP_CLOSE);
      var rest := CapsParts(caps[1..]);
      assert [a, b, c] == [a] + [b] + [c];
      FlatMapAppend(WireOf, [a], [b]);
      FlatMapAppend(WireOf, [a] + [b], [c]);
      FlatMapOne(WireOf, a);
      FlatMapOne(WireOf, b);
      FlatMapOne(WireOf, c);
      FlatMapAppend(WireOf, [a, b, c], rest);
      CapsPartsText(caps[1..]);
    }
  }

  lemma HelloPartsText(caps: seq<string>, sid: Option<nat>)
    ensures Texts(HelloParts(caps, sid)) == HelloText(caps, sid)
  {
    FlatMapAppend(WireOf, [Raw(OPEN)], CapsParts(caps));
    FlatMapAppend(WireOf, [Raw(OPEN)] + CapsParts(caps), [Raw(Ending(sid))]);
    FlatMapOne(WireOf, Raw(OPEN));
    FlatMapOne(WireOf, Raw(Ending(sid)));
    CapsPartsText(caps);
  }

  /** Every '>' has a byte before it that is not ']'. */
  ghost predicate Tame(s: string) {
    forall i :: 0 <= i < |s| && s[i] == '>' ==> 0 < i && s[i - 1] != ']'
  }

  lemma TameAppend(a: string, b: string)
    requires Tame(a) && Tame(b)
    ensures Tame(a + b)
  {
  }

  lemma TameTag(t: string)
    requires '>' !in t && t != "" && t[|t| - 1] != ']'
    ensures Tame(t + ">")
  {
  }

  lemma NsHasNoMarkup()
    ensures '>' !in NS_BASE
  {
  }

  lemma TameOpen()
    ensures Tame(OPEN)
  {
    var a := "<hello xmlns=\"";
    NsHasNoMarkup();
    TameTag(a + NS_BASE + "\"");
    TameTag("<capabilities");
    TameAppend(a + NS_BASE + "\"" + ">", "<capabilities" + ">");
    assert OPEN == a + NS_BASE + "\"" + ">" + ("<capabilities" + ">");
  }

  lemma TameCap()
    ensures Tame(CAP_OPEN) && Tame(CAP_CLOSE)
  {
  }

  lemma TameTags(a: string, b: string)
    requires '>' !in a && a != "" && a[|a| - 1] != ']'
    requires '>' !in b && b != "" && b[|b| - 1] != ']'
    ensures Tame(a + ">" + b + ">")
  {
  }

  lemma EndsInGt(a: string, b: string)
    ensures EndsWith(a + ">" + b + ">", ">")
    ensures forall c: string :: EndsWith(c + (a + ">" + b + ">"), ">")
  {
  }

  lemma TameClientEnding()
    ensures Tame(Ending(None)) && EndsWith(Ending(None), ">")
  {
  }

  lemma TameServerEnding(id: nat)
    ensures Tame(Ending(Some(id))) && EndsWith(Ending(Some(id)), ">")
  {
    var a := "</capabilities" + ">" + "<session-id" + ">";
    var c := "</session-id" + ">" + "</hello" + ">";
    TameTags("</capabilities", "<session-id");
    TameTags("</session-id", "</hello");
    TameBetween(a, Print(id), c);
    EndsInGt("</session-id", "</hello");
    assert a == "</capabilities><session-id>" && c == "</session-id></hello>";
  }

  lemma TameBetween(a: string, b: string, c: string)
    requires Tame(a) && Tame(c) && '>' !in b
    ensures Tame(a + b + c)
  {
  }

  lemma {:induction false} TameCaps(caps: seq<string>)
    ensures Tame(CapsText(caps))
  {
    if caps != [] {
      TameCap();
      EscapeHasNoMarkup(caps[0]);
      assert Tame(Escape(caps[0]));
      TameAppend(CAP_OPEN, Escape(caps[0]));
      TameAppend(CAP_OPEN + Escape(caps[0]), CAP_CLOSE);
      TameCaps(caps[1..]);
      TameAppend(CAP_OPEN + Escape(caps[0]) + CAP_CLOSE, CapsText(caps[1..]));
    }
  }

  /** A pattern with ']' right before '>' does not occur in tame text. */
  lemma TameHasNot(s: string, pat: string, k: nat)
    requires Tame(s) && 0 < k < |pat| && pat[k - 1] == ']' && pat[k] == '>'
    ensures !Contains(s, pat)
  {
    forall i | 0 <= i ensures !IsAt(s, pat, i) {
      IsAtPointwise(s, pat, i);
      assert i + |pat| <= |s| && s[i + k] == '>' ==> s[i + k - 1] != ']';
    }
  }

  lemma TameIsClean(s: string)
    requires Tame(s) && EndsWith(s, ">")
    ensures Clean(END_TAG, s) && !Contains(s, "]]>")
  {
    assert s[|s| - 1] == s[|s| - 1..][0] == '>';
    TameHasNot(s, "]]>", 2);
    TameHasNot(s, END_TAG, 2);
    CleanEndTag(s);
    assert EndsWith(s, "]]>") ==> IsAt(s, "]]>", |s| - 3);
  }

  /** However odd the capabilities, a <hello> never holds "]]>" and ends in '>', so it meets the
      condition under which the end-of-message reader is exact. */
  lemma HelloIsClean(caps: seq<string>, sid: Option<nat>)
    ensures Clean(END_TAG, HelloText(caps, sid))
    ensures !Contains(HelloText(caps, sid), "]]>") && EndsWith(HelloText(caps, sid), ">")
  {
    var s := HelloText(caps, sid);
    TameOpen();
    TameCaps(caps);
    TameAppend(OPEN, CapsText(caps));
    if sid.None? { TameClientEnding(); } else { TameServerEnding(sid.value); }
    TameAppend(OPEN + CapsText(caps), Ending(sid));
    assert s[|s| - 1..] == Ending(sid)[|Ending(sid)| - 1..];
    TameIsClean(s);
  }

  lemma CleanIsSendable(m: string)
    requires Clean(END_TAG, m)
    ensures Sendable(V10, m)
  {
    CleanIsUnambiguous(END_TAG, m);
    UntilExact(END_TAG, m, "");
    UntilExactIff(END_TAG, m, "");
  }

  /** What an XML parser finds as <capability> elements at the start of `s`, and what is left. */
  function ParseCaps(s: string): (seq<string>, string) {
    if !StartsWith(s, CAP_OPEN) then ([], s)
    else
      var body := s[|CAP_OPEN|..];
      var end := Find(body, "<", 0);
      if end.None? || !StartsWith(body[end.value..], CAP_CLOSE) then ([], s)
      else
        var (caps, rest) := ParseCaps(body[end.value + |CAP_CLOSE|..]);
        ([Unescape(body[..end.value])] + caps, rest)
  }

  /** What a <hello> says: its capabilities and the text of its <session-id>, if it has one. */
  datatype Greeting = Greeting(caps: seq<string>, sid: Option<string>)

  /** What follows the capabilities: nothing or a <session-id>. */
  function ParseEnding(s: string): Option<Option<string>> {
    if s == "</hello>" then Some(None)
    else if !StartsWith(s, SID_OPEN) then None
    else
      var body := s[|SID_OPEN|..];
      var end := Find(body, "<", 0);
      if end.None? || body[end.value..] != SID_CLOSE then None else Some(Some(body[..end.value]))
  }

  /** A <hello> with the expected outline. */
  function ParseHello(s: string): Option<Greeting> {
    if !StartsWith(s, OPEN) then None
    else
      var (caps, rest) := ParseCaps(s[|OPEN|..]);
      if !StartsWith(rest, CAPS_CLOSE) then None
      else
        var sid := ParseEnding(rest[|CAPS_CLOSE|..]);
        if sid.None? then None else Some(Greeting(caps, sid.value))
  }

  /** The text of the <session-id> that is sent. */
  function SidText(sid: Option<nat>): Option<string> {
    if sid.None? then None else Some(Print(sid.value))
  }

  const UINT32_MAX: nat := 0xFFFF_FFFF

  /** The session-id a client reads with strtoll() (src/session.c:1420-1433): white space and a plus sign are skipped,
      the rest must be digits, and the value must be a positive 32-bit number. */
  function SessionIdOf(value: string): Option<nat> {
    var t := SkipSpace(value);
    var digits := if t != "" && t[0] == '+' then t[1..] else t;
    if digits == "" || !AllDigits(digits) then None
    else if 1 <= Leading(digits, 0) <= UINT32_MAX then Some(Leading(digits, 0))
    else None
  }

  /** A session-id is read back if and only if it is one. */
  lemma SessionIdBack(id: nat)
    ensures SessionIdOf(Print(id)) == if 1 <= id <= UINT32_MAX then Some(id) else None
  {
    LeadingPrint(id);
    assert IsDigit(Print(id)[0]);
  }

  lemma ParseEndingBack(sid: Option<nat>)
    ensures StartsWith(Ending(sid), CAPS_CLOSE) && ParseEnding(Ending(sid)[|CAPS_CLOSE|..]) == Some(SidText(sid))
  {
    if sid.Some? {
      var text := Print(sid.value);
      var body := text + SID_CLOSE;
      SidEnding(sid.value);
      assert (CAPS_CLOSE + (SID_OPEN + body))[|CAPS_CLOSE|..] == SID_OPEN + body;
      assert '<' !in text && SID_OPEN[1] != '/';
      FindChar(text, '<', SID_CLOSE);
      assert (SID_OPEN + body)[1] == SID_OPEN[1];
      SidElement(text);
    }
  }

  lemma SidEnding(id: nat)
    ensures Ending(Some(id)) == CAPS_CLOSE + (SID_OPEN + (Print(id) + SID_CLOSE))
  {
    assert CAPS_CLOSE + SID_OPEN == "</capabilities><session-id>";
    Assoc(CAPS_CLOSE, SID_OPEN, Print(id) + SID_CLOSE);
    Assoc(CAPS_CLOSE + SID_OPEN, Print(id), SID_CLOSE);
  }

  lemma SidElement(text: string)
    requires Find(text + SID_CLOSE, "<", 0) == Some(|text|)
    requires SID_OPEN + (text + SID_CLOSE) != "</hello>"
    ensures ParseEnding(SID_OPEN + (text + SID_CLOSE)) == Some(Some(text))
  {
    var body := text + SID_CLOSE;
    assert (SID_OPEN + body)[|SID_OPEN|..] == body;
    assert body[|text|..] == SID_CLOSE && body[..|text|] == text;
  }

  lemma ParseOneCap(cap: string, tail: string)
    ensures ParseCaps(CAP_OPEN + Escape(cap) + CAP_CLOSE + tail) == ([cap] + ParseCaps(tail).0, ParseCaps(tail).1)
  {
    EscapeHasNoMarkup(cap);
    FindChar(Escape(cap), '<', CAP_CLOSE + tail);
    UnescapeEscape(cap);
    ParseElement(Escape(cap), tail);
  }

  lemma ParseElement(e: string, tail: string)
    requires Find(e + (CAP_CLOSE + tail), "<", 0) == Some(|e|)
    ensures ParseCaps(CAP_OPEN + e + CAP_CLOSE + tail) == ([Unescape(e)] + ParseCaps(tail).0, ParseCaps(tail).1)
  {
    var s, body := CAP_OPEN + e + CAP_CLOSE + tail, e + (CAP_CLOSE + tail);
    assert s == CAP_OPEN + body;
    assert s[|CAP_OPEN|..] == body;
    assert body[|e|..] == CAP_CLOSE + tail && body[..|e|] == e;
    assert body[|e| + |CAP_CLOSE|..] == tail;
  }

  lemma NoMoreCaps(rest: string)
    requires StartsWith(rest, CAPS_CLOSE)
    ensures ParseCaps(rest) == ([], rest)
  {
    assert rest[1] == rest[..15][1] == '/';
    IsAtPointwise(rest, CAP_OPEN, 0);
    assert StartsWith(rest, CAP_OPEN) == IsAt(rest, CAP_OPEN, 0);
    assert CAP_OPEN[1] == 'c';
  }

  lemma CapsTextNext(caps: seq<string>, rest: string)
    requires caps != []
    ensures CapsText(caps) + rest == CAP_OPEN + Escape(caps[0]) + CAP_CLOSE + (CapsText(caps[1..]) + rest)
  {
    Assoc(CAP_OPEN + Escape(caps[0]) + CAP_CLOSE, CapsText(caps[1..]), rest);
  }

  lemma ParseCapsNext(caps: seq<string>, tail: string, rest: string)
    requires caps != [] && ParseCaps(tail) == (caps[1..], rest)
    ensures ParseCaps(CAP_OPEN + Escape(caps[0]) + CAP_CLOSE + tail) == (caps, rest)
  {
    ParseOneCap(caps[0], tail);
    assert [caps[0]] + caps[1..] == caps;
  }

  lemma {:induction false} ParseCapsExact(caps: seq<string>, rest: string)
    requires StartsWith(rest, CAPS_CLOSE)
    ensures ParseCaps(CapsText(caps) + rest) == (caps, rest)
  {
    if caps == [] {
      NoMoreCaps(rest);
      assert CapsText(caps) + rest == rest;
    } else {
      CapsTextNext(caps, rest);
      ParseCapsExact(caps[1..], rest);
      ParseCapsNext(caps, CapsText(caps[1..]) + rest, rest);
    }
  }

  /** Parsing a <hello> recovers every capability, in order, whatever characters it holds, and the session-id. */
  lemma ParseHelloText(caps: seq<string>, sid: Option<nat>)
    ensures ParseHello(HelloText(caps, sid)) == Some(Greeting(caps, SidText(sid)))
  {
    ParseEndingBack(sid);
    ParseCapsExact(caps, Ending(sid));
    Assoc(OPEN, CapsText(caps), Ending(sid));
    ParseBody(CapsText(caps) + Ending(sid), caps, Ending(sid));
  }

  lemma ParseBody(body: string, caps: seq<string>, rest: string)
    requires ParseCaps(body) == (caps, rest) && StartsWith(rest, CAPS_CLOSE)
    requires ParseEnding(rest[|CAPS_CLOSE|..]).Some?
    ensures ParseHello(OPEN + body) == Some(Greeting(caps, ParseEnding(rest[|CAPS_CLOSE|..]).value))
  {
  }

  /** Hello round trip: the blocks written for a <hello>, followed by anything, are read back byte for
      byte, exactly the frame is consumed, and the capabilities and the session-id come out. */
  lemma HelloRoundTrip(caps: seq<string>, sid: Option<nat>, chunks: seq<string>, rest: string)
    requires ValidChunks(chunks) && Concat(chunks) == Texts(HelloParts(caps, sid))
    ensures var r := ReadMsg(V10, Frame(V10, chunks) + rest);
            && r == Msg(HelloText(caps, sid), |Frame(V10, chunks)|)
            && ParseHello(r.data) == Some(Greeting(caps, SidText(sid)))
  {
    HelloPartsText(caps, sid);
    HelloIsClean(caps, sid);
    CleanIsSendable(HelloText(caps, sid));
    RoundTrip(V10, chunks, rest);
    ParseHelloText(caps, sid);
  }
}
