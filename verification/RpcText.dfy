/** The text of an <rpc> (src/io.c:952-984), and what a peer reads out of it. */
module RpcText {
  import opened Bytes
  import opened Decimal
  import opened Hello
  import opened Search
  import opened Sequences
  import opened Writer

  const ID_KEY := "message-id=\""
  const BEFORE_KEY := "<rpc xmlns=\"" + NS_BASE + "\" "
  const ACTION_OPEN := "<action xmlns=\"urn:ietf:params:xml:ns:yang:1\">"
  const ACTION_CLOSE := "</action>"
  const RPC_CLOSE := "</rpc>"

  /** The opening tag with message-id `id`. */
  function RpcOpen(attrs: string, id: nat): string {
    BEFORE_KEY + ID_KEY + Print(id) + "\"" + attrs + ">"
  }

  /** The calls of nc_write_clb() for an <rpc> with message-id `id`. */
  function RpcParts(attrs: string, action: bool, body: seq<Part>, id: nat): seq<Part> {
    [Raw(RpcOpen(attrs, id))]
    + (if action then [Raw(ACTION_OPEN)] else [])
    + body
    + (if action then [Raw(ACTION_CLOSE)] else [])
    + [Raw(RPC_CLOSE)]
  }

  /** The text of the first message-id attribute: behind the key, up to the next quote. */
  function MessageIdText(text: string): Option<string> {
    var key := Find(text, ID_KEY, 0);
    if key.None? then None
    else
      var from := key.value + |ID_KEY|;
      var end := Find(text, "\"", from);
      if end.None? then None else Some(text[from..end.value])
  }

  /** The number a peer reads in that attribute. */
  function MessageIdOf(text: string): Option<nat> {
    var value := MessageIdText(text);
    if value.None? then None else Some(StrToUl(value.value))
  }

  /** What an XML parser finds in an <rpc>: the message-id, the text of the other attributes, whether it is an action,
      and the contents. */
  datatype Outline = Outline(id: string, attrs: string, action: bool, body: string)

  function ParseContents(id: string, attrs: string, contents: string): Outline {
    if StartsWith(contents, ACTION_OPEN) && EndsWith(contents[|ACTION_OPEN|..], ACTION_CLOSE) then
      var inner := contents[|ACTION_OPEN|..];
      Outline(id, attrs, true, inner[..|inner| - |ACTION_CLOSE|])
    else Outline(id, attrs, false, contents)
  }

  function ParseRpc(text: string): Option<Outline> {
    if !StartsWith(text, BEFORE_KEY + ID_KEY) then None
    else
      var rest := text[|BEFORE_KEY + ID_KEY|..];
      var quote := Find(rest, "\"", 0);
      if quote.None? then None
      else
        var after := rest[quote.value + 1..];
        var gt := Find(after, ">", 0);
        if gt.None? || !EndsWith(after[gt.value + 1..], RPC_CLOSE) then None
        else
          var inner := after[gt.value + 1..];
          Some(ParseContents(rest[..quote.value], after[..gt.value], inner[..|inner| - |RPC_CLOSE|]))
  }

  lemma IdKeyFound(rest: string)
    ensures Find(BEFORE_KEY + ID_KEY + rest, ID_KEY, 0) == Some(|BEFORE_KEY|)
  {
    assert ID_KEY[5] == 'g' && ID_KEY[..5] == "messa";
    NoG();
    FindKey(BEFORE_KEY, ID_KEY, 5, rest);
  }

  lemma NoG()
    ensures 'g' !in BEFORE_KEY
  {
    assert 'g' !in "<rpc xmlns=\"" && 'g' !in NS_BASE && 'g' !in "\" ";
  }

  /** A quote ends a printed number. */
  lemma QuoteFound(id: nat, rest: string)
    ensures Find(Print(id) + ("\"" + rest), "\"", 0) == Some(|Print(id)|)
  {
    assert '"' !in Print(id);
    FindChar(Print(id), '"', "\"" + rest);
  }

  lemma TextIn(before: string, key: string, value: string, rest: string)
    requires Find(before + key + (value + ("\"" + rest)), key, 0) == Some(|before|)
    requires key == ID_KEY && Find(value + ("\"" + rest), "\"", 0) == Some(|value|)
    ensures MessageIdText(before + key + (value + ("\"" + rest))) == Some(value)
  {
    var s := before + key + (value + ("\"" + rest));
    var from := |before + key|;
    Between(before + key, value, "\"" + rest);
    FindFrom(s, "\"", from, |value|);
  }

  lemma Between(a: string, b: string, c: string)
    ensures var s := a + (b + c); s[|a|..] == b + c && s[|a|..|a| + |b|] == b
  {
  }

  /** Whatever attributes and contents follow, the message-id read out of an <rpc> is the one it was written with. */
  lemma IdReadBack(attrs: string, action: bool, body: seq<Part>, id: nat)
    requires id <= ULONG_MAX
    ensures MessageIdText(Texts(RpcParts(attrs, action, body, id))) == Some(Print(id))
    ensures MessageIdOf(Texts(RpcParts(attrs, action, body, id))) == Some(id)
  {
    RpcPartsText(attrs, action, body, id);
    var rest := attrs + ">" + Contents(action, Texts(body)) + RPC_CLOSE;
    IdKeyFound(Print(id) + ("\"" + rest));
    QuoteFound(id, rest);
    TextIn(BEFORE_KEY, ID_KEY, Print(id), rest);
    Reassociate(BEFORE_KEY + ID_KEY, Print(id), "\"", attrs + ">", Contents(action, Texts(body)) + RPC_CLOSE);
    StrToUlPrint(id, "");
    assert Print(id) + "" == Print(id);
    Regrouped(attrs, id, Contents(action, Texts(body)) + RPC_CLOSE);
    Assoc(attrs + ">", Contents(action, Texts(body)), RPC_CLOSE);
  }

  lemma Reassociate(a: string, b: string, c: string, d: string, e: string)
    ensures a + b + c + d + e == a + (b + (c + (d + e)))
  {
  }

  lemma Regrouped(attrs: string, id: nat, rest: string)
    ensures RpcOpen(attrs, id) + rest == BEFORE_KEY + ID_KEY + Print(id) + "\"" + (attrs + ">") + rest
  {
    Assoc(BEFORE_KEY + ID_KEY + Print(id) + "\"", attrs, ">");
  }

  function Contents(action: bool, body: string): string {
    if action then ACTION_OPEN + body + ACTION_CLOSE else body
  }

  lemma RpcPartsText(attrs: string, action: bool, body: seq<Part>, id: nat)
    ensures Texts(RpcParts(attrs, action, body, id))
            == RpcOpen(attrs, id) + (Contents(action, Texts(body)) + RPC_CLOSE)
  {
    var open, close := Raw(RpcOpen(attrs, id)), Raw(RPC_CLOSE);
    if action {
      var a, b := Raw(ACTION_OPEN), Raw(ACTION_CLOSE);
      TextsAround(a, body, b);
      TextsAround(open, [a] + body + [b], close);
      assert [open] + ([a] + body + [b]) + [close] == RpcParts(attrs, action, body, id);
    } else {
      TextsAround(open, body, close);
      assert [open] + body + [close] == RpcParts(attrs, action, body, id);
    }
  }

  lemma TextsAround(a: Part, body: seq<Part>, b: Part)
    ensures Texts([a] + body + [b]) == WireOf(a) + Texts(body) + WireOf(b)
    ensures Texts([a] + body + [b]) == WireOf(a) + (Texts(body) + WireOf(b))
  {
    FlatMapSnoc(WireOf, [a] + body, b);
    FlatMapCons(WireOf, a, body);
    Assoc(WireOf(a), Texts(body), WireOf(b));
  }

  lemma StripBoth(open: string, body: string, close: string)
    ensures StartsWith(open + body + close, open) && EndsWith((open + body + close)[|open|..], close)
    ensures var inner := (open + body + close)[|open|..]; inner[..|inner| - |close|] == body
  {
    assert (open + body + close)[|open|..] == body + close;
  }

  lemma ContentsBack(id: string, attrs: string, action: bool, body: string)
    requires action || !StartsWith(body, ACTION_OPEN)
    ensures ParseContents(id, attrs, Contents(action, body)) == Outline(id, attrs, action, body)
  {
    if action {
      StripBoth(ACTION_OPEN, body, ACTION_CLOSE);
    }
  }

  lemma OutlineBack(open: string, id: string, attrs: string, contents: string)
    requires open == BEFORE_KEY + ID_KEY && '"' !in id && '>' !in attrs
    ensures ParseRpc(open + (id + ("\"" + (attrs + (">" + (contents + RPC_CLOSE))))))
            == Some(ParseContents(id, attrs, contents))
  {
    var inner := contents + RPC_CLOSE;
    var after := attrs + (">" + inner);
    var rest := id + ("\"" + after);
    FindChar(id, '"', "\"" + after);
    FindChar(attrs, '>', ">" + inner);
    CutAt(id, '"', after);
    CutAt(attrs, '>', inner);
    assert (open + rest)[|open|..] == rest;
    assert EndsWith(inner, RPC_CLOSE) && inner[..|inner| - |RPC_CLOSE|] == contents;
  }

  lemma CutAt(a: string, c: char, b: string)
    ensures var s := a + ([c] + b); s[..|a|] == a && s[|a| + 1..] == b
  {
  }

  /** The whole <rpc> is read back: message-id, the other attributes, whether it is an action, and the contents. */
  lemma RpcReadBack(attrs: string, action: bool, body: seq<Part>, id: nat)
    requires '>' !in attrs
    requires action || !StartsWith(Texts(body), ACTION_OPEN)
    ensures ParseRpc(Texts(RpcParts(attrs, action, body, id))) == Some(Outline(Print(id), attrs, action, Texts(body)))
  {
    var contents := Contents(action, Texts(body));
    RpcPartsText(attrs, action, body, id);
    Regrouped(attrs, id, contents + RPC_CLOSE);
    Assoc(attrs, ">", contents + RPC_CLOSE);
    Reassociate(BEFORE_KEY + ID_KEY, Print(id), "\"", attrs + ">", contents + RPC_CLOSE);
    OutlineBack(BEFORE_KEY + ID_KEY, Print(id), attrs, contents);
    ContentsBack(Print(id), attrs, action, Texts(body));
  }
}
