/** The estimate of a message's type, get_msg_type() (src/session_client.c:1960-2016). */
module MsgType {
  import opened Bytes

  datatype Kind = Reply | Notif | Malformed

  /** The text after the first `end` in `u`. */
  function AfterMarkup(u: string, end: string): (r: Option<string>)
    ensures r.Some? ==> |r.value| <= |u|
  {
    var e := Find(u, end, 0);
    if e.None? then None else Some(u[e.value + |end|..])
  }

  /** One turn of the loop: a verdict, or the text that is left. */
  datatype Look = Verdict(kind: Kind) | Skip(rest: string)

  function SkipTo(u: string, end: string): (l: Look)
    ensures l.Skip? ==> |l.rest| <= |u|
  {
    var rest := AfterMarkup(u, end);
    if rest.None? then Verdict(Malformed) else Skip(rest.value)
  }

  /** The turn behind a '<'. */
  function LookInside(u: string): (l: Look)
    ensures l.Skip? ==> |l.rest| <= |u|
  {
    if StartsWith(u, "!--") then SkipTo(u, "-->")
    else if StartsWith(u, "?xml") then SkipTo(u, "?>")
    else if StartsWith(u, "rpc-reply") then Verdict(Reply)
    else if StartsWith(u, "notification") then Verdict(Notif)
    else Verdict(Malformed)
  }

  /** The number of white-space characters `s` starts with. */
  function Spaces(s: string): (n: nat)
    ensures n <= |s|
  {
    if s != "" && IsSpace(s[0]) then 1 + Spaces(s[1..]) else 0
  }

  /** The turn behind the white space. */
  function LookAtMarkup(t: string): (l: Look)
    ensures l.Skip? ==> |l.rest| < |t|
  {
    if t == "" || t[0] != '<' then Verdict(Malformed) else LookInside(t[1..])
  }

  function LookAt(s: string): (l: Look)
    ensures l.Skip? ==> |l.rest| < |s|
  {
    LookAtMarkup(s[Spaces(s)..])
  }

  /** The type of a message text, which is a C string without its terminating zero. */
  function Classify(s: string): Kind
    decreases |s|
  {
    match LookAt(s)
    case Verdict(kind) => kind
    case Skip(rest) => Classify(rest)
  }

  /** Skip white space (src/session_client.c:1977-1980). */
  method SkipSpaces(msg: string, from: nat) returns (str: nat)
    requires from <= |msg|
    ensures from <= str <= |msg| && str == from + Spaces(msg[from..])
  {
    str := from;
    while str < |msg| && IsSpace(msg[str])
      invariant from <= str <= |msg|
      invariant Spaces(msg[from..]) == str - from + Spaces(msg[str..])
    {
      assert msg[str..][1..] == msg[str + 1..];
      str := str + 1;
    }
  }

  /** The part of a turn behind a '<' at index `str - 1` (src/session_client.c:1984-2005). */
  method Inside(msg: string, str: nat) returns (verdict: Option<Kind>, next: nat)
    requires str <= |msg|
    ensures match LookInside(msg[str..])
            case Verdict(kind) => verdict == Some(kind)
            case Skip(rest) => verdict.None? && str <= next <= |msg| && rest == msg[next..]
  {
    verdict, next := None, str;
    var end;
    if StartsWith(msg[str..], "!--") {
      end := "-->";
    } else if StartsWith(msg[str..], "?xml") {
      end := "?>";
    } else if StartsWith(msg[str..], "rpc-reply") {
      return Some(Reply), str;
    } else if StartsWith(msg[str..], "notification") {
      return Some(Notif), str;
    } else {
      return Some(Malformed), str;
    }
    var at := Find(msg[str..], end, 0);
    if at.None? {
      return Some(Malformed), str;
    }
    next := str + at.value + |end|;
    assert msg[str..][at.value + |end|..] == msg[next..];
  }

  /** What a turn does with the text. */
  lemma ClassifyTurn(s: string, t: string)
    requires t == s[Spaces(s)..]
    ensures t == "" || t[0] != '<' ==> Classify(s) == Malformed
    ensures t != "" && t[0] == '<' ==>
              match LookInside(t[1..])
              case Verdict(kind) => Classify(s) == kind
              case Skip(rest) => Classify(s) == Classify(rest)
  {
  }

  /** The part of a turn behind the white space. */
  method AtMarkup(msg: string, str: nat) returns (verdict: Option<Kind>, next: nat)
    requires str <= |msg|
    ensures match LookAtMarkup(msg[str..])
            case Verdict(kind) => verdict == Some(kind)
            case Skip(rest) => verdict.None? && str < next <= |msg| && rest == msg[next..]
  {
    if str == |msg| || msg[str] != '<' {
      return Some(Malformed), str;
    }
    assert msg[str..][1..] == msg[str + 1..];
    verdict, next := Inside(msg, str + 1);
  }

  /** One turn of the loop from index `str`. */
  method Turn(msg: string, str: nat) returns (verdict: Option<Kind>, next: nat)
    requires str <= |msg|
    ensures match LookAt(msg[str..])
            case Verdict(kind) => verdict == Some(kind)
            case Skip(rest) => verdict.None? && str < next <= |msg| && rest == msg[next..]
  {
    var p := SkipSpaces(msg, str);
    assert msg[str..][p - str..] == msg[p..];
    verdict, next := AtMarkup(msg, p);
  }

  /** get_msg_type(): `str` is an index that never moves past the end of the message. */
  method GetMsgType(msg: string) returns (kind: Kind)
    ensures kind == Classify(msg)
  {
    var str := 0;
    assert msg[0..] == msg;
    while str < |msg|
      invariant str <= |msg| && Classify(msg) == Classify(msg[str..])
    {
      var verdict, next := Turn(msg, str);
      if verdict.Some? {
        return verdict.value;
      }
      str := next;
    }
    ClassifyTurn(msg[str..], "");
    return Malformed;
  }

  /** What may stand before the root element: white space, or a comment or XML declaration given
      without its '<'. */
  datatype Item = Space(c: char) | Markup(text: string) {
    function Text(): string {
      match this
      case Space(c) => [c]
      case Markup(t) => "<" + t
    }

    /** The first terminator after the opener is the item's own. */
    predicate Good() {
      match this
      case Space(c) => IsSpace(c)
      case Markup(t) =>
        || (StartsWith(t, "!--") && AfterMarkup(t, "-->") == Some(""))
        || (StartsWith(t, "?xml") && AfterMarkup(t, "?>") == Some(""))
    }
  }

  function Prolog(items: seq<Item>): string {
    if items == [] then "" else items[0].Text() + Prolog(items[1..])
  }

  ghost predicate GoodProlog(items: seq<Item>) {
    forall i :: 0 <= i < |items| ==> items[i].Good()
  }

  lemma FindLocal(t: string, end: string, rest: string)
    requires AfterMarkup(t, end) == Some("") && end != ""
    ensures AfterMarkup(t + rest, end) == Some(rest)
  {
    var e := Find(t, end, 0).value;
    var s := t + rest;
    assert e + |end| == |t|;
    assert s[e..e + |end|] == t[e..e + |end|];
    assert IsAt(s, end, e);
    forall j | 0 <= j < e ensures !IsAt(s, end, j) {
      assert s[j..j + |end|] == t[j..j + |end|];
      assert !IsAt(t, end, j);
    }
    assert s[|t|..] == rest;
  }

  lemma StartsWithLocal(t: string, p: string, rest: string)
    requires StartsWith(t, p)
    ensures StartsWith(t + rest, p)
  {
  }

  lemma OtherStart(u: string, p: string)
    requires u != "" && p != "" && u[0] != p[0]
    ensures !StartsWith(u, p)
  {
  }

  lemma SkipMarkup(t: string, rest: string)
    requires Markup(t).Good()
    ensures LookInside(t + rest) == Skip(rest)
  {
    if StartsWith(t, "!--") && AfterMarkup(t, "-->") == Some("") {
      StartsWithLocal(t, "!--", rest);
      FindLocal(t, "-->", rest);
    } else {
      StartsWithLocal(t, "?xml", rest);
      FindLocal(t, "?>", rest);
      assert (t + rest)[0] == t[..4][0] == '?';
      OtherStart(t + rest, "!--");
    }
  }

  lemma SkipSpaceChar(s: string)
    requires s != "" && IsSpace(s[0])
    ensures Classify(s) == Classify(s[1..])
  {
  }

  lemma SkipMarkupItem(s: string, t: string, rest: string)
    requires Markup(t).Good() && s != "" && s[0] == '<' && s[1..] == t + rest
    ensures Classify(s) == Classify(rest)
  {
    SkipMarkup(t, rest);
    assert s[0..] == s;
    ClassifyTurn(s, s);
  }

  /** A good item is skipped. */
  lemma SkipItem(item: Item, rest: string)
    requires item.Good()
    ensures Classify(item.Text() + rest) == Classify(rest)
  {
    var s := item.Text() + rest;
    if item.Space? {
      SkipSpaceChar(s);
      assert s[1..] == rest;
    } else {
      Assoc("<", item.text, rest);
      SkipMarkupItem(s, item.text, rest);
    }
  }

  /** The root elements a client can receive. */
  function RootOf(kind: Kind): string {
    if kind == Reply then "rpc-reply" else "notification"
  }

  lemma RootElement(kind: Kind, rest: string)
    requires kind != Malformed
    ensures Classify("<" + RootOf(kind) + rest) == kind
  {
    var s := "<" + RootOf(kind) + rest;
    var u := RootOf(kind) + rest;
    assert s[0..] == s && s[1..] == u;
    assert u[0] == RootOf(kind)[0];
    OtherStart(u, "!--");
    OtherStart(u, "?xml");
    if kind == Notif { OtherStart(u, "rpc-reply"); }
    assert StartsWith(u, RootOf(kind));
  }

  lemma {:induction false} SkipProlog(items: seq<Item>, rest: string)
    requires GoodProlog(items)
    ensures Classify(Prolog(items) + rest) == Classify(rest)
  {
    if items == [] {
      assert Prolog(items) + rest == rest;
    } else {
      assert Prolog(items) + rest == items[0].Text() + (Prolog(items[1..]) + rest);
      SkipItem(items[0], Prolog(items[1..]) + rest);
      SkipProlog(items[1..], rest);
    }
  }

  /** A message is a good prolog followed by the root element of `kind`. */
  ghost predicate Shape(s: string, kind: Kind, items: seq<Item>, rest: string) {
    GoodProlog(items) && s == Prolog(items) + "<" + RootOf(kind) + rest
  }

  lemma FirstEnd(u: string, end: string)
    requires AfterMarkup(u, end).Some? && end != ""
    ensures var rest := AfterMarkup(u, end).value;
            var t := u[..|u| - |rest|];
            u == t + rest && |t| >= |end| && AfterMarkup(t, end) == Some("")
  {
    var e := Find(u, end, 0).value;
    var t := u[..e + |end|];
    assert t[e..e + |end|] == u[e..e + |end|];
    forall j | 0 <= j < e ensures !IsAt(t, end, j) {
      assert j + |end| <= |t| ==> t[j..j + |end|] == u[j..j + |end|];
      assert !IsAt(u, end, j);
    }
    assert IsAt(t, end, e);
    assert t[e + |end|..] == "";
  }

  lemma CommentOf(u: string)
    requires StartsWith(u, "!--") && AfterMarkup(u, "-->").Some?
    ensures var rest := AfterMarkup(u, "-->").value;
            var t := u[..|u| - |rest|];
            u == t + rest && Markup(t).Good()
  {
    FirstEnd(u, "-->");
    var t := u[..|u| - |AfterMarkup(u, "-->").value|];
    assert t[..3] == u[..3];
  }

  lemma DeclarationOf(u: string)
    requires StartsWith(u, "?xml") && AfterMarkup(u, "?>").Some?
    ensures var rest := AfterMarkup(u, "?>").value;
            var t := u[..|u| - |rest|];
            u == t + rest && Markup(t).Good()
  {
    FirstEnd(u, "?>");
    var t := u[..|u| - |AfterMarkup(u, "?>").value|];
    var e := Find(u, "?>", 0).value;
    assert u[1] == u[..4][1] == 'x';
    IsAtPointwise(u, "?>", e);
    assert "?>"[0] == '?' && "?>"[1] == '>';
    assert e >= 2;
    assert t[..4] == u[..4];
  }

  /** Whatever the loop skips behind a '<' is a good item. */
  lemma MarkupOf(u: string)
    requires LookInside(u).Skip?
    ensures var rest := LookInside(u).rest;
            var t := u[..|u| - |rest|];
            u == t + rest && Markup(t).Good()
  {
    if StartsWith(u, "!--") {
      CommentOf(u);
    } else {
      DeclarationOf(u);
    }
  }

  lemma RootOfVerdict(u: string)
    requires LookInside(u).Verdict? && LookInside(u).kind != Malformed
    ensures var root := RootOf(LookInside(u).kind);
            |root| <= |u| && u == root + u[|root|..]
  {
  }

  lemma PrologCons(item: Item, items: seq<Item>)
    requires item.Good() && GoodProlog(items)
    ensures GoodProlog([item] + items) && Prolog([item] + items) == item.Text() + Prolog(items)
  {
  }

  lemma ShapeCons(item: Item, s: string, kind: Kind, items: seq<Item>, rest: string)
    requires item.Good() && Shape(s, kind, items, rest)
    ensures Shape(item.Text() + s, kind, [item] + items, rest)
  {
    PrologCons(item, items);
    AssocAll(item.Text(), Prolog(items), "<", RootOf(kind), rest);
  }

  lemma AssocAll(a: string, b: string, c: string, d: string, e: string)
    ensures a + (b + c + d + e) == a + b + c + d + e
  {
  }

  /** A message that is recognised has the shape. */
  lemma {:induction false} RecognisedHasShape(s: string) returns (items: seq<Item>, rest: string)
    requires Classify(s) != Malformed
    ensures Shape(s, Classify(s), items, rest)
    decreases |s|
  {
    var kind := Classify(s);
    if s != "" && IsSpace(s[0]) {
      assert s == Space(s[0]).Text() + s[1..];
      SkipItem(Space(s[0]), s[1..]);
      items, rest := RecognisedHasShape(s[1..]);
      ShapeCons(Space(s[0]), s[1..], kind, items, rest);
      items := [Space(s[0])] + items;
    } else {
      assert s[0..] == s;
      ClassifyTurn(s, s);
      match LookInside(s[1..])
      case Verdict(_) =>
        rest := RootShape(s);
        items := [];
      case Skip(left) =>
        var item := MarkupItem(s);
        items, rest := RecognisedHasShape(left);
        ShapeCons(item, left, kind, items, rest);
        items := [item] + items;
    }
  }

  lemma RootShape(s: string) returns (rest: string)
    requires s != "" && s[0] == '<' && LookInside(s[1..]).Verdict? && LookInside(s[1..]).kind != Malformed
    ensures Shape(s, LookInside(s[1..]).kind, [], rest)
  {
    var u := s[1..];
    RootOfVerdict(u);
    rest := u[|RootOf(LookInside(u).kind)|..];
    assert s == "<" + u;
    assert Prolog([]) + "<" == "<";
    Assoc("<", RootOf(LookInside(u).kind), rest);
  }

  lemma MarkupItem(s: string) returns (item: Item)
    requires s != "" && s[0] == '<' && LookInside(s[1..]).Skip?
    ensures item.Good() && s == item.Text() + LookInside(s[1..]).rest
  {
    var u := s[1..];
    MarkupOf(u);
    var t := u[..|u| - |LookInside(u).rest|];
    item := Markup(t);
    assert s == "<" + u;
    Assoc("<", t, LookInside(u).rest);
  }

  lemma ShapeIsRecognised(s: string, kind: Kind, items: seq<Item>, rest: string)
    requires kind != Malformed && Shape(s, kind, items, rest)
    ensures Classify(s) == kind
  {
    var root := "<" + RootOf(kind) + rest;
    Assoc(Prolog(items), "<" + RootOf(kind), rest);
    Assoc(Prolog(items), "<", RootOf(kind));
    SkipProlog(items, root);
    RootElement(kind, rest);
  }

  /** Message classification, both ways and for every text: a message is taken for a reply or a
      notification if and only if it is white space, XML declarations and comments, each ended by the
      first terminator behind its opener, and then the start of that root element. */
  lemma ClassifyIff(s: string, kind: Kind)
    requires kind != Malformed
    ensures Classify(s) == kind <==> exists items, rest :: Shape(s, kind, items, rest)
  {
    if Classify(s) == kind {
      var items, rest := RecognisedHasShape(s);
      assert Shape(s, kind, items, rest);
    }
    forall items, rest | Shape(s, kind, items, rest) ensures Classify(s) == kind {
      ShapeIsRecognised(s, kind, items, rest);
    }
  }
}
