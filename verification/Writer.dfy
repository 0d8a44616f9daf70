/** The buffered message writer (src/io.c:645-893). */
module Writer {
  import opened Bytes
  import opened Decimal
  import opened Framing
  import opened Sequences
  import opened Transport
  import opened Xml

  const WRITE_BUFSIZE := 1024

  lemma {:induction false} BlocksSnoc(v: Version, chunks: seq<string>, c: string)
    ensures Blocks(v, chunks + [c]) == Blocks(v, chunks) + StartTag(v, |c|) + c
  {
    if chunks == [] {
      assert chunks + [c] == [c] && [c][1..] == [];
    } else {
      assert (chunks + [c])[1..] == chunks[1..] + [c] && (chunks + [c])[0] == chunks[0];
      BlocksSnoc(v, chunks[1..], c);
    }
  }

  lemma WireSnoc(base: string, v: Version, chunks: seq<string>, c: string)
    ensures base + Blocks(v, chunks) + StartTag(v, |c|) + c == base + Blocks(v, chunks + [c])
  {
    BlocksSnoc(v, chunks, c);
  }

  lemma ValidSnoc(chunks: seq<string>, c: string)
    requires ValidChunks(chunks) && 0 < |c| <= ULONG_MAX
    ensures ValidChunks(chunks + [c])
  {
  }

  /** nc_write_starttag_and_msg(). */
  method WriteStarttagAndMsg(session: Session, buf: string) returns (ok: bool)
    modifies session`wire, session`status, session`termReason, session`writeErrors
    ensures ok ==> session.wire == old(session.wire) + StartTag(session.version, |buf|) + buf
    ensures !ok ==> old(session.wire) <= session.wire <= old(session.wire) + StartTag(session.version, |buf|) + buf
    ensures session.writeErrors == old(session.writeErrors) + if ok then 0 else 1
    ensures session.status == old(session.status) || session.status == Invalid
  {
    if session.version == V11 {
      var r, _, _ := session.Write(StartTag(V11, |buf|));
      if r == -1 {
        return false;
      }
    }
    var c, _, _ := session.Write(buf);
    return c != -1;
  }

  /** struct wclb_arg with, as ghost state, the blocks handed to the transport (`chunks`) and the text
      fed so far (`fed`). A failed write breaks the message for good. */
  class WriteArg {
    const session: Session
    const buf: array<char>
    var len: nat
    ghost const base: string
    ghost const errors: nat
    ghost var chunks: seq<string>
    ghost var fed: string
    ghost var broken: bool

    /** The wire holds the blocks handed over so far, none of them empty, unless a write has failed. */
    ghost predicate Framed()
      reads this`chunks, this`broken, session
    {
      && ValidChunks(chunks)
      && (!broken ==> session.wire == base + Blocks(session.version, chunks))
      && base <= session.wire && errors <= session.writeErrors && (broken <==> errors < session.writeErrors)
    }

    /** Refinement of plain appending: what went out as blocks followed by what is pending is what was
        fed, and the pending part fits the buffer. */
    ghost predicate Valid()
      reads this, session, buf
    {
      && buf.Length == WRITE_BUFSIZE
      && len <= WRITE_BUFSIZE
      && Framed()
      && (!broken ==> Concat(chunks) + buf[..len] == fed)
    }

    constructor (session: Session)
      ensures Valid() && fresh(buf) && this.session == session
      ensures len == 0 && base == session.wire && errors == session.writeErrors
      ensures chunks == [] && fed == "" && !broken
    {
      this.session := session;
      buf := new char[WRITE_BUFSIZE];
      len := 0;
      base, errors := session.wire, session.writeErrors;
      chunks, fed, broken := [], "", false;
    }

    /** Hand one block to the transport. */
    method Emit(block: string) returns (ok: bool)
      requires Framed() && 0 < |block| <= ULONG_MAX
      modifies this`chunks, this`broken, session`wire, session`status, session`termReason, session`writeErrors
      ensures Framed()
      ensures ok ==> broken == old(broken) && Concat(chunks) == old(Concat(chunks)) + block
      ensures !ok ==> broken
    {
      ok := WriteStarttagAndMsg(session, block);
      if ok {
        WireSnoc(base, session.version, chunks, block);
        ConcatSnoc(chunks, block);
        ValidSnoc(chunks, block);
        chunks := chunks + [block];
      } else {
        broken := true;
      }
    }

    /** nc_write_clb_flush(): pending bytes go out as one block. */
    method Flush() returns (ok: bool)
      requires Valid()
      modifies this`len, this`chunks, this`broken, session`wire, session`status, session`termReason, session`writeErrors
      ensures Valid() && len == 0
      ensures if ok then broken == old(broken) else broken
    {
      ok := true;
      if len > 0 {
        ok := Emit(buf[..len]);
        len := 0;
      }
    }

    /** Store text that fits behind the pending bytes. */
    method Store(text: string)
      requires Valid() && len + |text| <= WRITE_BUFSIZE
      modifies this`len, this`fed, buf
      ensures Valid() && len == old(len) + |text| && fed == old(fed) + text
    {
      ghost var before := buf[..len];
      Session.StoreBytes(buf, len, text);
      assert buf[..len + |text|] == before + text;
      len := len + |text|;
      fed := fed + text;
    }

    /** One turn of the escaping loop of nc_write_clb() (src/io.c:854-883). */
    method PutChar(c: char) returns (ok: bool)
      requires Valid()
      modifies this`len, this`fed, this`chunks, this`broken, buf,
               session`wire, session`status, session`termReason, session`writeErrors
      ensures Valid()
      ensures if ok then broken == old(broken) && fed == old(fed) + EscapeChar(c) else broken
    {
      if len + 5 >= WRITE_BUFSIZE {
        ok := Flush();
        if !ok {
          return false;
        }
      }
      Store(EscapeChar(c));
      return true;
    }

    /** The escaping loop of nc_write_clb() (src/io.c:853-884). */
    method PutEscaped(text: string) returns (ok: bool)
      requires Valid()
      modifies this`len, this`fed, this`chunks, this`broken, buf,
               session`wire, session`status, session`termReason, session`writeErrors
      ensures Valid()
      ensures if ok then broken == old(broken) && fed == old(fed) + Escape(text) else broken
    {
      for l := 0 to |text|
        invariant Valid() && broken == old(broken)
        invariant fed == old(fed) + Escape(text[..l])
      {
        ok := PutChar(text[l]);
        if !ok {
          return false;
        }
        EscapeSnoc(text, l);
        Assoc(old(fed), Escape(text[..l]), EscapeChar(text[l]));
      }
      assert text[..|text|] == text;
      return true;
    }

    /** nc_write_clb() with text: it is appended, escaped or as it is, to what was fed before. */
    method Put(text: string, xmlcontent: bool) returns (ok: bool)
      requires Valid() && |text| <= ULONG_MAX
      modifies this`len, this`fed, this`chunks, this`broken, buf,
               session`wire, session`status, session`termReason, session`writeErrors
      ensures Valid()
      ensures if ok then broken == old(broken) && fed == old(fed) + (if xmlcontent then Escape(text) else text)
              else broken
    {
      if len > 0 && len + |text| > WRITE_BUFSIZE {
        ok := Flush();
        if !ok {
          return false;
        }
      }
      if !xmlcontent && |text| > WRITE_BUFSIZE {
        ok := Emit(text);
        fed := fed + text;
      } else if xmlcontent {
        ok := PutEscaped(text);
      } else {
        Store(text);
        ok := true;
      }
    }

    /** nc_write_clb() without text: the rest goes out and the message is closed. */
    method Close() returns (ok: bool)
      requires Valid()
      modifies this`len, this`chunks, this`broken, session`wire, session`status, session`termReason, session`writeErrors
      ensures ok ==> broken == old(broken) && len == 0 && ValidChunks(chunks)
      ensures ok && !broken ==>
                && session.wire == base + Frame(session.version, chunks)
                && Concat(chunks) == fed
      ensures !ok ==> broken
      ensures errors <= session.writeErrors && (broken <==> errors < session.writeErrors)
    {
      ok := Flush();
      if !ok {
        return false;
      }
      assert !broken ==> Concat(chunks) == fed by { assert buf[..0] == ""; }
      var c, _, _ := session.Write(EndTag(session.version));
      if c == -1 {
        broken := true;
        return false;
      }
      Assoc(base, Blocks(session.version, chunks), EndTag(session.version));
    }
  }

  /** One call of nc_write_clb() with text. */
  datatype Part = Raw(text: string) | Content(text: string) {
    function Wire(): string {
      match this
      case Raw(t) => t
      case Content(t) => Escape(t)
    }
  }

  function WireOf(p: Part): string {
    p.Wire()
  }

  function Texts(parts: seq<Part>): string {
    FlatMap(WireOf, parts)
  }

  /** The calls of nc_write_clb() with text, in order. */
  method PutAll(arg: WriteArg, parts: seq<Part>) returns (ok: bool)
    requires arg.Valid() && !arg.broken && arg.fed == ""
    requires forall i :: 0 <= i < |parts| ==> |parts[i].text| <= ULONG_MAX
    modifies arg`len, arg`fed, arg`chunks, arg`broken, arg.buf,
             arg.session`wire, arg.session`status, arg.session`termReason, arg.session`writeErrors
    ensures arg.Valid() && (ok <==> !arg.broken) && (ok ==> arg.fed == Texts(parts))
  {
    ok := true;
    for i := 0 to |parts|
      invariant arg.Valid() && (ok <==> !arg.broken) && (ok ==> arg.fed == Texts(parts[..i]))
    {
      var sent := arg.Put(parts[i].text, parts[i].Content?);
      ok := ok && sent;
      assert parts[..i + 1] == parts[..i] + [parts[i]];
      FlatMapSnoc(WireOf, parts[..i], parts[i]);
    }
    assert parts[..|parts|] == parts;
  }

  /** A message written by any sequence of calls. When no write failed the wire holds one whole frame
      for the session's version, made of non-empty blocks that join to the (escaped) texts. */
  method WriteMessage(session: Session, parts: seq<Part>) returns (ok: bool, ghost chunks: seq<string>)
    requires forall i :: 0 <= i < |parts| ==> |parts[i].text| <= ULONG_MAX
    modifies session`wire, session`status, session`termReason, session`writeErrors
    ensures ok <==> session.writeErrors == old(session.writeErrors)
    ensures ok ==>
              && ValidChunks(chunks) && Concat(chunks) == Texts(parts)
              && session.wire == old(session.wire) + Frame(session.version, chunks)
  {
    var arg := new WriteArg(session);
    ok := PutAll(arg, parts);
    var closed := arg.Close();
    ok, chunks := ok && closed, arg.chunks;
  }

  /** A message that is given up after some calls: when no write failed the wire has grown by whole blocks that join
      to a beginning of the texts; nothing is closed, and what is pending is dropped. */
  method WritePart(session: Session, parts: seq<Part>) returns (ghost chunks: seq<string>)
    requires forall i :: 0 <= i < |parts| ==> |parts[i].text| <= ULONG_MAX
    modifies session`wire, session`status, session`termReason, session`writeErrors
    ensures old(session.wire) <= session.wire && ValidChunks(chunks)
    ensures session.writeErrors == old(session.writeErrors) ==>
              && Concat(chunks) <= Texts(parts)
              && session.wire == old(session.wire) + Blocks(session.version, chunks)
  {
    var arg := new WriteArg(session);
    var _ := PutAll(arg, parts);
    chunks := arg.chunks;
  }
}
