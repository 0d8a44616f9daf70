/** The two NETCONF framings of RFC 6242 on values: what the writer puts on the wire and what
    nc_read_msg_io() (src/io.c:374-440) takes off it. */
module Framing {
  import opened Bytes
  import opened Decimal
  import opened Matcher

  /** NC_VERSION_10 frames with an end tag, NC_VERSION_11 in chunks. */
  datatype Version = V10 | V11

  const CHUNKS_END := "\n##\n"

  /** The chunk header of nc_write_starttag_and_msg(). */
  function StartTag(v: Version, size: nat): string {
    if v == V11 then "\n#" + Print(size) + "\n" else ""
  }

  function EndTag(v: Version): string {
    if v == V11 then CHUNKS_END else END_TAG
  }

  /** The bytes of the blocks handed to nc_write_starttag_and_msg() one after the other. */
  function Blocks(v: Version, chunks: seq<string>): string {
    if chunks == [] then "" else StartTag(v, |chunks[0]|) + chunks[0] + Blocks(v, chunks[1..])
  }

  /** A whole message on the wire. */
  function Frame(v: Version, chunks: seq<string>): string {
    Blocks(v, chunks) + EndTag(v)
  }

  /** Blocks a writer hands over: never empty, and of a size that fits size_t. */
  predicate ValidChunks(chunks: seq<string>) {
    forall i :: 0 <= i < |chunks| ==> 0 < |chunks[i]| <= ULONG_MAX
  }

  /** Result of reading a message: the data and how many bytes were consumed, a chunk header that
      is refused (return value -2), or a stream that ends inside the message. */
  datatype ReadResult = Msg(data: string, consumed: nat) | BadFrame | Starved {
    /** The same result when `n` more bytes were consumed before. */
    function Shift(n: nat): ReadResult {
      if Msg? then Msg(data, consumed + n) else this
    }
  }

  /** One header line of chunked framing, from "\n#" up to the next newline: the text after "\n#"
      including the newline, and the number of bytes it takes. */
  function Header(s: string): (r: Option<(string, nat)>)
    ensures r.Some? ==> 0 < r.value.1 <= |s|
  {
    var a := Until("\n#", s);
    if a.None? then None else
    var b := Until("\n", s[a.value..]);
    if b.None? then None else
    Some((s[a.value..][..b.value], a.value + b.value))
  }

  function Appended(data: Option<string>, chunk: string): string {
    if data.None? then chunk else data.value + chunk
  }

  /** One turn of the loop of the 1.1 branch: it ends the message, refuses it or starves,
      or it gives a chunk and the number of bytes taken with its header. */
  datatype Turn = Done(result: ReadResult) | Chunk(text: string, used: nat)

  function ReadTurn(s: string, data: Option<string>): (t: Turn)
    ensures t.Done? && t.result.Msg? ==> t.result.consumed <= |s|
    ensures t.Chunk? ==> 0 < t.used <= |s|
  {
    var h := Header(s);
    if h.None? then Done(Starved) else
    var (line, used) := h.value;
    if line == "#\n" then
      Done(if data.None? then BadFrame else Msg(data.value, used))
    else
      var size := StrToUl(line);
      if size == 0 then Done(BadFrame)
      else if size > |s| - used then Done(Starved)
      else Chunk(s[used..used + size], used + size)
  }

  /** The loop of the 1.1 branch; `data` is what earlier chunks gave, `None` before the first. */
  function ReadChunks(s: string, data: Option<string>): (r: ReadResult)
    ensures r.Msg? ==> r.consumed <= |s|
  {
    match ReadTurn(s, data)
    case Done(r) => r
    case Chunk(text, used) => ReadChunks(s[used..], Some(Appended(data, text))).Shift(used)
  }

  /** Reading one message from the stream `s`. */
  function ReadMsg(v: Version, s: string): (r: ReadResult)
    ensures r.Msg? ==> r.consumed <= |s|
  {
    match v
    case V10 =>
      var e := Until(END_TAG, s);
      if e.None? then Starved
      else Msg(s[..e.value - |END_TAG|], e.value)
    case V11 => ReadChunks(s, None)
  }

  lemma HeaderExact(line: string, rest: string)
    requires '\n' !in line
    ensures Header("\n#" + line + "\n" + rest) == Some((line + "\n", |line| + 3))
  {
    var s := "\n#" + line + "\n" + rest;
    var after := line + "\n" + rest;
    assert s == "" + "\n#" + after;
    UntilExact("\n#", "", after);
    assert s[2..] == after;
    assert Clean("\n", line) by {
      forall e: nat ensures !Ends("\n", line, e, 1) {
        assert 1 <= e <= |line| ==> line[e - 1..e][0] in line;
      }
    }
    UntilExact("\n", line, rest);
    assert after[..|line| + 1] == line + "\n";
  }

  lemma PrintHasNoNewline(n: nat)
    ensures '\n' !in Print(n) && Print(n) + "\n" != "#\n"
  {
    assert (Print(n) + "\n")[0] == Print(n)[0];
  }

  lemma ReadOneChunk(c: string, tail: string, data: Option<string>)
    requires 0 < |c| <= ULONG_MAX
    ensures ReadChunks(StartTag(V11, |c|) + c + tail, data)
         == ReadChunks(tail, Some(Appended(data, c))).Shift(|StartTag(V11, |c|)| + |c|)
  {
    var size := Print(|c|);
    var s := StartTag(V11, |c|) + c + tail;
    assert s == "\n#" + size + "\n" + (c + tail);
    PrintHasNoNewline(|c|);
    HeaderExact(size, c + tail);
    StrToUlPrint(|c|, "\n");
    var used := |size| + 3;
    assert s[used..used + |c|] == c && s[used + |c|..] == tail;
  }

  lemma ReadEndOfChunks(rest: string, data: Option<string>)
    ensures ReadChunks(CHUNKS_END + rest, data) == if data.None? then BadFrame else Msg(data.value, 4)
  {
    assert CHUNKS_END + rest == "\n#" + "#" + "\n" + rest;
    HeaderExact("#", rest);
  }

  lemma FrameCons(chunks: seq<string>, rest: string)
    requires chunks != []
    ensures var c := chunks[0];
            var tail := Frame(V11, chunks[1..]) + rest;
            && Frame(V11, chunks) + rest == StartTag(V11, |c|) + c + tail
            && |Frame(V11, chunks)| == |StartTag(V11, |c|)| + |c| + |Frame(V11, chunks[1..])|
  {
    var head := StartTag(V11, |chunks[0]|) + chunks[0];
    Assoc(head, Blocks(V11, chunks[1..]), CHUNKS_END);
    Assoc(head, Frame(V11, chunks[1..]), rest);
  }

  lemma AppendedConcat(data: Option<string>, chunks: seq<string>)
    requires chunks != []
    ensures Appended(Some(Appended(data, chunks[0])), Concat(chunks[1..])) == Appended(data, Concat(chunks))
  {
  }

  /** Decoding any list of blocks followed by the end of chunks, with any bytes behind. */
  lemma {:induction false} ReadChunksExact(chunks: seq<string>, rest: string, data: Option<string>)
    requires ValidChunks(chunks)
    ensures ReadChunks(Frame(V11, chunks) + rest, data) ==
            if chunks == [] && data.None? then BadFrame
            else Msg(Appended(data, Concat(chunks)), |Frame(V11, chunks)|)
    decreases |chunks|
  {
    if chunks == [] {
      ReadEndOfChunks(rest, data);
      assert Frame(V11, chunks) == CHUNKS_END;
      assert data.Some? ==> data.value + "" == data.value;
    } else {
      FrameCons(chunks, rest);
      ReadOneChunk(chunks[0], Frame(V11, chunks[1..]) + rest, data);
      ReadChunksExact(chunks[1..], rest, Some(Appended(data, chunks[0])));
      AppendedConcat(data, chunks);
    }
  }

  /** Chunked round trip, for every way the writer may cut a message into blocks and every
      continuation: the reader gives back the message and consumes exactly the frame if and only
      if the message is not empty; the empty message is refused. */
  lemma ChunkedRoundTrip(chunks: seq<string>, rest: string)
    requires ValidChunks(chunks)
    ensures ReadMsg(V11, Frame(V11, chunks) + rest) ==
            if Concat(chunks) == "" then BadFrame else Msg(Concat(chunks), |Frame(V11, chunks)|)
  {
    ReadChunksExact(chunks, rest, None);
    if chunks != [] {
      assert |Concat(chunks)| >= |chunks[0]|;
    }
  }

  lemma {:induction false} PlainBlocks(chunks: seq<string>)
    ensures Blocks(V10, chunks) == Concat(chunks)
  {
    if chunks != [] {
      PlainBlocks(chunks[1..]);
      assert "" + chunks[0] == chunks[0];
    }
  }

  /** End-of-message round trip: exact if and only if the message is aligned. */
  lemma PlainRoundTrip(chunks: seq<string>, rest: string)
    requires Unambiguous(END_TAG, Concat(chunks))
    ensures ReadMsg(V10, Frame(V10, chunks) + rest) == Msg(Concat(chunks), |Frame(V10, chunks)|)
       <==> Aligned(END_TAG, Concat(chunks))
  {
    PlainBlocks(chunks);
    var p := Concat(chunks);
    var s := Frame(V10, chunks) + rest;
    assert s == p + END_TAG + rest;
    UntilExactIff(END_TAG, p, rest);
    assert s[..|p|] == p;
  }

  /** A message that version `v` can carry. */
  ghost predicate Sendable(v: Version, m: string) {
    match v
    case V10 => Unambiguous(END_TAG, m) && Aligned(END_TAG, m)
    case V11 => m != ""
  }

  lemma RoundTrip(v: Version, chunks: seq<string>, rest: string)
    requires ValidChunks(chunks) && Sendable(v, Concat(chunks))
    ensures ReadMsg(v, Frame(v, chunks) + rest) == Msg(Concat(chunks), |Frame(v, chunks)|)
  {
    if v == V10 { PlainRoundTrip(chunks, rest); } else { ChunkedRoundTrip(chunks, rest); }
  }

  lemma UntilLocal(tag: string, s: string, t: string)
    requires s <= t && tag != "" && Until(tag, s).Some?
    ensures Until(tag, t) == Until(tag, s)
  {
    ScanLocal(tag, s, t, 0, 0);
  }

  lemma DropLocal(s: string, t: string, n: nat)
    requires s <= t && n <= |s|
    ensures s[n..] <= t[n..]
  {
  }

  lemma HeaderLocal(s: string, t: string)
    requires s <= t && Header(s).Some?
    ensures Header(t) == Header(s)
  {
    UntilLocal("\n#", s, t);
    var a := Until("\n#", s).value;
    DropLocal(s, t, a);
    UntilLocal("\n", s[a..], t[a..]);
    var b := Until("\n", s[a..]).value;
    SliceLocal(s[a..], t[a..], 0, b);
  }

  lemma ReadTurnLocal(s: string, t: string, data: Option<string>)
    requires s <= t && ReadTurn(s, data) != Done(Starved)
    ensures ReadTurn(t, data) == ReadTurn(s, data)
  {
    HeaderLocal(s, t);
    var (line, used) := Header(s).value;
    var size := StrToUl(line);
    if line != "#\n" && size != 0 {
      SliceLocal(s, t, used, used + size);
    }
  }

  lemma {:induction false} ReadChunksLocal(s: string, t: string, data: Option<string>)
    requires s <= t && ReadChunks(s, data) != Starved
    ensures ReadChunks(t, data) == ReadChunks(s, data)
    decreases |s|
  {
    ReadTurnLocal(s, t, data);
    match ReadTurn(s, data)
    case Done(_) =>
    case Chunk(text, used) =>
      DropLocal(s, t, used);
      ReadChunksLocal(s[used..], t[used..], Some(Appended(data, text)));
  }

  /** A verdict reached on part of the stream does not change when more bytes arrive. */
  lemma ReadLocal(v: Version, s: string, rest: string)
    requires ReadMsg(v, s) != Starved
    ensures ReadMsg(v, s + rest) == ReadMsg(v, s)
  {
    if v == V10 {
      UntilLocal(END_TAG, s, s + rest);
      var e := Until(END_TAG, s).value;
      SliceLocal(s, s + rest, 0, e - |END_TAG|);
    } else {
      ReadChunksLocal(s, s + rest, None);
    }
  }
}
