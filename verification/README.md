# libnetconf2 in Dafny

This project models the parts of libnetconf2, a NETCONF client and server library in C, in which many
functions have to work together, and proves what they keep.

- **Framing** (`Matcher`, `Decimal`, `Framing`, `Clock`, `Transport`, `Reader`, `Xml`, `Writer`, `Search`, `RpcText`, `MessageId`, `MessageIo`, `RpcIds`). The codec
  of RFC 6242: end-of-message framing and chunked framing, a buffered and escaping writer, a reader that finds the
  delimiter in blocks of varying size, reads and writes of exact byte counts with deadlines, and many threads that write
  under one IO lock. The transport is a byte sequence; how many bytes an attempt moves, and how it ends, is
  nondeterministic.
- **Handshake** (`Hello`, `Negotiation`, `Handshake`). Two endpoints exchange `<hello>` messages in end-of-message
  framing, parse each other's capabilities and switch the framing in mid-stream. It is a step system over the bytes of
  both directions.
- **Client messages** (`MsgType`, `Demux`, `Inbox`, `Pairing`). Replies and notifications of one wire are sorted out to two kinds
  of callers through a queue; replies are paired with RPCs by message-id, against a server that may send anything.
- **Locks and shared ownership** (`RpcLock`, `SessionRing`). The RPC lock with its timeouts as a step system of any
  number of threads, and the circular list of NETCONF sessions that share one SSH session, as a step system of
  concurrent joins and frees that the code on the heap refines.
- **Capabilities** (`CapabilityList`, `ModuleCaps`, `ModuleList`, `TightCaps`, `ModuleRoundTrip`). The de-duplicating list of a server, the printer of
  module capabilities, the parser of a client, and the whole way from the modules of a server over the wire to the
  module list of a client.

One `char` stands for one byte. Code that updates state in place is modelled by classes and methods with loops, each
proved against a function or a property; protocols of several threads or endpoints are step systems with an invariant
for every run.

## Where the code falls short of what one would expect

Each of these has a lemma with the exact condition and, where it is not obvious, a concrete input or a reachable state.

- The delimiter matcher forgets all bytes before the block it has just read, and never compares a whole new block with
  a prefix of the tag. It stops behind the first tag if and only if the payload is `Aligned` (`Matcher.UntilExactIff`).
  For the end-of-message tag this comes down to the last block: a payload is missed if and only if it ends in `]`, the
  block that reaches its end takes no byte of the tag or one, and that block is at least two bytes longer
  (`Matcher.AlignedIff`). For a payload that has no `]` but one at its end it is a matter of its length modulo 6
  (`Matcher.TrailingBracket`); `Matcher.MissedTag` is an instance. A payload without `]]>` that does not end in `]` is
  always read exactly (`Matcher.UntilExact` with `Matcher.CleanEndTag`).
- `parse_cpblts()` compares as many bytes as the entry has, so a proper prefix of a base URN counts as that URN, and a
  second one as base:1.1 (`Negotiation.VersionOfIsIntendedIff`, with concrete lists in
  `Negotiation.AbbreviationsMislead`). The library and a peer that chooses the version as RFC 6241 asks understand each
  other in every run if and only if one refuses the other's offer or the library finds the version in the peer's offer
  that the standard finds there (`Handshake.LibraryPeerIff`); a peer that offers base:1.0 and then "urn:" is
  misunderstood (`Handshake.AbbreviationBreaks`). Two endpoints of the library always understand each other
  (`Handshake.LibraryPairWorks`).
- `nc_send_rpc()` reads the message-id after the IO lock is given back, and a writer moves it on before its last bytes
  are out. The id a call returns is the one it wrote if and only if the RPCs for which other threads have moved the
  message-id on since, whether they still hold the lock or not, are a multiple of 2^64 (`RpcIds.ReportedIdIff`). With one
  sending thread that always holds (`RpcIds.OneSenderIds`); wherever two threads are free to send, a wrong id can be
  returned (`RpcIds.WrongIdReturned`).
- `nc_session_rpc_unlock()` clears the flag without the mutex when the mutex call times out. Mutual exclusion survives
  (`RpcLock.MutualExclusion`), but wakeups can be lost: exactly when a thread begins to wait after the flag it saw set has
  been cleared, while no other thread serves (`RpcLock.LostWakeupIff`). That is reachable (`RpcLock.LostWakeup`), and it
  cannot happen where no unlock call goes on without the mutex (`RpcLock.NoLostWakeup`).
- A chunked message without a single chunk is refused by the reader as a bad frame (`Framing.ChunkedRoundTrip`).
- The keys "&features=" and "&deviations=" are stored in the 4096-byte buffer without a test. The text of a module stays
  inside the buffer if and only if its head and these keys do (`ModuleCaps.StoredIff`); a module whose features pass all
  tests can still exceed it (`ModuleRoundTrip.FittingIsNotStored`).
- All texts stay inside the buffer and a client learns of every advertised module its name, its revision and all its
  enabled features if and only if every advertised module has a namespace that is the key of no earlier capability, its
  features fit, and so does what is stored without a test (`ModuleRoundTrip.RoundTripIff`, and over the wire
  `ModuleRoundTrip.WireRoundTripIff`).
- The time left is cut to 32 bits. The test for expiry is right if and only if the number of milliseconds keeps its side
  of zero when cut (`Clock.TestIsRightIff`); a deadline missed by 2^31 + 1 milliseconds looks like one far ahead
  (`Clock.LateDeadlineLooksFresh`).

## Model

| member | source | states |
|---|---|---|
| `Matcher.OverlapIsLongest` | src/io.c:317-325 | After a mismatch the matched length is that of the longest tag prefix, no longer than the loop tries, that ends the buffer |
| `Matcher.AdvanceSpec` | src/io.c:317-331 | A block turns a matched tag prefix into another one that ends the bytes read; the whole tag is matched if and only if it ends there, otherwise the longest prefix that lies inside the new bytes is kept |
| `Matcher.ScanSound` | src/io.c:288-331 | For every tag and payload, wherever the search stops the tag has just ended |
| `Matcher.UntilEndsWithTag` | src/io.c:288-341 | For every tag and stream, what is consumed ends with the tag |
| `Matcher.ScanLocal` | src/io.c:288-331 | A search that has stopped does not depend on bytes that come later |
| `Matcher.UntilExactIff` | src/io.c:288-331 | For every tag, unambiguous payload and continuation, exactly payload and tag are consumed if and only if the blocks are aligned with the tag |
| `Matcher.UntilExact` | src/io.c:288-331 | For every payload that neither holds the tag nor ends in a beginning of it, exactly payload and tag are consumed |
| `Matcher.CleanIsUnambiguous` | src/io.c:288-331 | In such a payload followed by the tag there is no earlier occurrence of the tag |
| `Matcher.CleanEndTag` | src/io.c:375-385 | For the end-of-message tag the condition means: the payload has no tag inside and does not end in "]" or "]]>" |
| `Matcher.LastBlock` | src/io.c:317-325 | The block that reaches the end of the payload gives the right matched length unless it is misled by a ']' there |
| `Matcher.AlignedIff` | src/io.c:288-331 | For the end-of-message tag and every unambiguous payload: aligned if and only if the block that reaches its end is not misled |
| `Matcher.TrailingBracket` | src/io.c:288-331 | A payload whose only ']' is its last byte is read exactly if and only if the number of bytes before it is not 4 or 5 modulo 6 |
| `Matcher.MissedTag` | src/io.c:288-331 | A concrete payload whose delimiter is missed, whatever follows |
| `Decimal.StrToUlPrint` | src/io.c:410-417 | Reading a printed chunk size gives the size and stops at the first byte that is no digit |
| `Decimal.StrToUlForms` | src/io.c:410-417 | What strtoul() makes of white space, a sign, a number of any size and what follows: a minus sign negates modulo 2^64 and too large a number gives the largest one |
| `Decimal.PrintIsUnique` | src/io.c:766-770 | A printed number is the only text of digits with that value that has no zero in front, and it has none itself |
| `Framing.HeaderExact` | src/io.c:387-399 | The line of a chunk header is found exactly between "\n#" and the next newline |
| `Framing.ReadChunksExact` | src/io.c:386-437 | Decoding a list of chunks behind data already read appends them all and consumes exactly their frame |
| `Framing.ChunkedRoundTrip` | src/io.c:758-794 | Chunked framing: for every list of nonempty blocks, whatever bytes they hold and whatever follows, the reader returns their concatenation and consumes exactly the frame; a frame without chunks is refused |
| `Framing.PlainRoundTrip` | src/io.c:374-385 | End-of-message framing: for an unambiguous payload the reader returns it and consumes exactly the frame if and only if the payload is aligned |
| `Framing.RoundTrip` | src/io.c:374-440 | In either framing, a message the framing can carry is read back with exactly its frame consumed |
| `Framing.ReadLocal` | src/io.c:374-440 | A reader that has returned a message or an error would have done so with more bytes behind, too |
| `Clock.Add` | src/session.c:59-137 | The result is a normalised time exactly that many milliseconds later |
| `Clock.TruncIs` | src/session.c:139-165 | The milliseconds left have the sign of the time left and are the most that do not exceed it |
| `Clock.LeftInRange` | src/session.c:139-165 | Within 2^31 milliseconds the difference is the truncated number of milliseconds left |
| `Clock.ExpiredIff` | src/session.c:139-165 | The test "diff < 1" holds if and only if less than one full millisecond is left |
| `Clock.LeftShrinks` | src/session.c:139-165 | The difference does not grow while time passes |
| `Clock.LeftOfFresh` | src/session.c:100-165 | Read back at once, a deadline gives the milliseconds it was set for |
| `Clock.TestIsRightIff` | src/session.c:139-165 | For all times: the test "diff < 1" is right if and only if the milliseconds left keep their side of zero when cut to 32 bits |
| `Clock.NotExpiredIsAhead` | src/io.c:208-222 | A deadline set for less than 2^32 milliseconds and missed by at most 2^31 is never taken for one ahead |
| `Clock.LateDeadlineLooksFresh` | src/session.c:153-165 | From any deadline, the normalised time 2^31 + 1 milliseconds later sees it 2^31 - 1 milliseconds ahead |
| `Transport.Session.IdleTurn` | src/io.c:208-222 | A turn without data expires if and only if one of the two deadlines has, and otherwise leaves the inactivity deadline ahead, closer than before |
| `Transport.Session.Read` | src/io.c:89-235 | All bytes in stream order and a terminating zero, or -1 and a session no longer usable; -1 if and only if the last attempt met the end of the file or failed, or brought nothing when the time since the last data or the whole time had run out, and no earlier one did; stores stay inside the buffer; the loop ends |
| `Transport.Session.Write` | src/io.c:652-756 | All bytes behind what was written before, or -1 with only a prefix of them; -1 if and only if the session is not usable or not connected or the last attempt, and no earlier one, found the channel closed or failed |
| `Reader.Resize` | src/io.c:297-306 | Growing the buffer keeps its contents |
| `Reader.MatchBlock` | src/io.c:317-325 | The matching loop computes the next matched length |
| `Reader.ReadBlock` | src/io.c:297-315 | A block is read behind the bytes in the buffer, which grows if needed |
| `Reader.ReadUntil` | src/io.c:267-342 | The buffer holds the bytes consumed up to the stop of the matcher, which end with the tag, and a terminating zero inside its size; otherwise the session is unusable or exactly the limit has been consumed |
| `Reader.ReadChunk` | src/io.c:237-265 | The next bytes of the stream, exactly as many as asked for, or an unusable session |
| `Reader.ReadOneTurn` | src/io.c:387-437 | One turn of the chunk decoder does what the decoder function says of the stream |
| `Reader.ReadChunkedMsg` | src/io.c:386-440 | The decoding loop returns the message of the decoder function and consumes exactly its bytes; a bad frame leaves the status alone |
| `Reader.ReadMsgIo` | src/io.c:344-463 | One message by the framing of the session, with the IO lock given back exactly once on every path whether it was taken here or passed down; -1 leaves an unusable session unless the lock could not be taken here |
| `Reader.ReadPoll` | src/io.c:466-564 | Polling reads nothing; an error leaves an unusable session |
| `Reader.ReadMsgPollIo` | src/io.c:566-596 | Polling and reading under one lock: taken at most once, given back as often as taken, the message read by the framing of the session; -1 leaves an unusable session or means that the lock was not got |
| `Xml.UnescapeEscape` | src/io.c:862-883 | Un-escaping recovers any text |
| `Xml.EscapeHasNoMarkup` | src/io.c:862-883 | Escaped text has no '<' and no '>' |
| `Writer.WriteStarttagAndMsg` | src/io.c:758-780 | On success the wire has grown by one block in the framing of the session, otherwise by a beginning of it |
| `Writer.WriteArg.Emit` | src/io.c:758-780 | Handing over a nonempty block keeps the wire a sequence of whole nonempty blocks |
| `Writer.WriteArg.Flush` | src/io.c:796-808 | The pending bytes go out as one block, none if there are none; blocks and pending bytes together stay the text fed |
| `Writer.WriteArg.PutChar` | src/io.c:854-883 | One character, escaped, is appended to the text fed; the buffer never overflows |
| `Writer.WriteArg.PutEscaped` | src/io.c:853-884 | The escaped text is appended to the text fed |
| `Writer.WriteArg.Put` | src/io.c:810-893 | Any text of any size, escaped or not, is appended to the text fed: blocks sent followed by pending bytes are all inputs in order |
| `Writer.WriteArg.Close` | src/io.c:817-832 | After the closing call the wire is one whole frame whose blocks join to the text fed |
| `Writer.WriteMessage` | src/io.c:810-893 | Any sequence of write calls and the closing one put one whole frame of the joined, escaped texts on the wire, and report failure if and only if a write failed |
| `Writer.WritePart` | src/io.c:810-893 | A message given up after some calls: when no write failed, the wire has grown by whole blocks that join to a beginning of the texts |
| `Hello.HelloPartsText` | src/io.c:1108-1141 | The write calls for a hello join to its text |
| `Hello.HelloIsClean` | src/io.c:1108-1141 | Whatever the capabilities hold, a hello has no "]]>" and ends in '>', so the delimiter search is exact |
| `Hello.ParseHelloText` | src/io.c:1108-1141 | Parsing a hello recovers every capability, in order, and the session-id |
| `Hello.HelloRoundTrip` | src/io.c:375-385 | A hello on the wire, followed by anything, is read back byte for byte with exactly its frame consumed, and gives the capabilities and the text of the session-id |
| `Hello.SessionIdBack` | src/session.c:1420-1433 | A client reads the printed session-id back if and only if it is a positive 32-bit number |
| `Negotiation.TrimIgnoresSpaces` | src/session.c:1320-1326 | White space around an entry makes no difference |
| `Negotiation.Bounds` | src/session.c:1320-1326 | The two scans find the trimmed entry, or that there is none |
| `Negotiation.ParseCpblts` | src/session.c:1290-1351 | One refused element refuses the list; otherwise all entries are stored trimmed and in order and the version is that of the list |
| `Handshake.ParseOffer` | src/session.c:1290-1351 | The version an endpoint of the library chooses in a handshake and the capabilities it stores are what the parser of capability lists gives |
| `Negotiation.VersionOfIs` | src/session.c:1328-1333 | What the loop computes for every list, by membership and position |
| `Negotiation.VersionOfIsIntendedIff` | src/session.c:1328-1333 | The version is the one section 8.1 of RFC 6241 asks for if and only if base:1.1 is present or no abbreviation misleads; the order plays no role without abbreviations |
| `Negotiation.AbbreviationsMislead` | src/session.c:1328-1333 | Concrete lists on which the version is not the one the standard asks for |
| `Negotiation.Base11Wins` | src/session.c:1328-1333 | Any list with base:1.1 gives version 1.1 |
| `Handshake.ReadFirst` | src/io.c:374-440 | However much of the pending messages has arrived, a reader in the framing of the first one gets that message or waits, and the others stay whole |
| `Handshake.StepKeeps` | src/session.c:1394-1556 | Every step of either endpoint keeps both byte streams equal to the messages not yet read, each in its own framing |
| `Handshake.FramingSwitch` | src/session.c:1353-1556 | In every run of endpoints that do not choose different versions, each side reads exactly the messages the other wrote, in order, consumes no byte of a later one, meets no bad frame, and gets every message that is out |
| `Handshake.ReachMissed` | src/session.c:1394-1556 | When the two sides choose different versions, a state is reachable where a message is out and its reader never gets it |
| `Handshake.SwitchWorksIff` | src/session.c:1353-1556 | For any two endpoints, both directions work in every reachable state if and only if they do not choose different versions |
| `Handshake.LibraryOffersAgree` | src/session.c:1361-1376 | Two endpoints of the library agree on chunked framing whatever else they offer |
| `Handshake.LibraryPairWorks` | src/session.c:1085-1092 | Two endpoints of the library understand each other in every reachable state |
| `Handshake.LibraryPeerIff` | src/session.c:1290-1351 | The library and a peer with any offer that chooses as RFC 6241 asks understand each other in every reachable state if and only if one refuses the other's offer or the library's version of the peer's offer is the one the standard finds in it |
| `Handshake.AbbreviationBreaks` | src/session.c:1328-1333 | A peer that offers base:1.0 and "urn:" is misunderstood in a reachable state |
| `MsgType.SkipSpaces` | src/session_client.c:1977-1980 | The index moves over the white space and not past the end |
| `MsgType.Inside` | src/session_client.c:1983-2005 | The turn behind a '<' gives the verdict or the text behind the terminator |
| `MsgType.GetMsgType` | src/session_client.c:1969-2016 | The loop ends, stays inside the text and computes the classification |
| `MsgType.RecognisedHasShape` | src/session_client.c:1975-2011 | A text taken for a reply or a notification is a good prolog and that root element |
| `MsgType.ShapeIsRecognised` | src/session_client.c:1975-2011 | A good prolog followed by a root element is recognised as that element |
| `MsgType.ClassifyIff` | src/session_client.c:1969-2016 | Both directions together, for every text |
| `Demux.Client.RecvMsg` | src/session_client.c:2030-2117 | A call that gets the lock hands over the oldest queued message of the wanted type, takes it out, leaves all others and reads nothing; with none queued it hands over a message of the type that comes, queues one of the other type last and refuses a malformed one; the result tells which; both types stay conserved |
| `Demux.RecvServes` | src/session_client.c:2042-2110 | The same for the function that the runs use, by the messages of each type |
| `Demux.RecvConserves` | src/session_client.c:2042-2110 | One call: for each type, delivered followed by queued is what came off the wire |
| `Demux.RunConserves` | src/session_client.c:2030-2117 | The same after every run of calls: each type is delivered in order, nothing is lost, duplicated or misdelivered |
| `Inbox.Delivered` | src/session_client.c:2030-2117 | From the frames on the wire to the callers: after any calls the messages read are the first ones written, the bytes of the others are untouched, and of each type the texts delivered followed by those queued are exactly the texts read that get_msg_type() gives that type |
| `Inbox.AskServes` | src/session_client.c:2042-2110 | A call that waits for a message of a type delivers one, or takes one of another type off the wire, or nothing is left |
| `Inbox.EnoughAsks` | src/session_client.c:2030-2117 | When such calls are as many as the messages of the type and those of other types they meet, all messages of the type have been delivered, in order, whatever calls come between |
| `Inbox.AsManyAsSent` | src/session_client.c:2030-2117 | So as many such calls as messages of any type were sent are enough |
| `Inbox.FewerAreNotEnough` | src/session_client.c:2086-2102 | As many as there are messages of the type need not be: a call for a reply that meets a notification returns without one |
| `Pairing.OldestReply` | src/session_client.c:2119-2137 | The first of the replies queued and travelling is the oldest one not received |
| `Pairing.CheckIff` | src/session_client.c:1929-1958 | A reply that echoes an id passes the check if and only if it is the expected one and is otherwise reported; a reply without a message-id is always reported |
| `Pairing.SendKeeps` | src/io.c:952-984 | Sending writes the RPC, moves the counter on and returns it; the message-id that can be read in the text of each request is the one returned for it |
| `Pairing.RecvReplyKeeps` | src/session_client.c:2119-2152 | A receive step with any id keeps queued and travelling replies equal to the outstanding ones and checks the one delivered against that id |
| `Pairing.WrongIdIff` | src/session_client.c:1929-1958 | In every run, with a server that sends any replies in any order and calls with any id, a wrong message-id is reported for a reply that echoes the id of a request if and only if another id was returned for that request than the call was given |
| `Pairing.RepliesMatch` | src/session_client.c:2119-2152 | In every run where the server answers in order and echoes ids, the k-th reply is delivered as the answer to the k-th RPC if and only if the call was given the id returned for that RPC, and is otherwise reported as one with a wrong message-id |
| `Pairing.IdsAreReturned` | src/session_client.c:3139-3150 | The ids of such a run are those threads sharing one session get, and those a peer reads in their frames, while one of them alone sends RPCs |
| `RpcLock.LockKeeps` | src/session.c:268-340 | Every step of the lock call keeps the mutex with its owner and the flag with its holder |
| `RpcLock.UnlockKeeps` | src/session.c:342-390 | Every step of the unlock call does, also when it goes on without the mutex |
| `RpcLock.MutualExclusion` | src/session.c:263-390 | In every run at most one thread holds the lock, the flag is set exactly while one does, and no thread returns with the mutex |
| `RpcLock.TryNeverWaits` | src/session.c:294-303 | In no run does a lock call with timeout 0 wait for the flag or get ready to |
| `RpcLock.TryReturns` | src/session.c:294-303 | In every run such a call, once it has the mutex, keeps it until it returns and returns without it; with the lock only if it has seen the flag clear, without the lock only if it has seen it set |
| `RpcLock.TryCanMove` | src/session.c:294-303 | Wherever such a call is in a run it can go on, whatever the other threads do |
| `RpcLock.WaitEnds` | src/session.c:284-291 | In every run a wait ends because the thread is woken, or, only in a call with a timeout, because that has passed |
| `RpcLock.TimedOutReturns` | src/session.c:284-291 | In every run a call whose timeout passes while it waits does not get the lock any more |
| `RpcLock.TimedCanReturn` | src/session.c:284-291 | From every state with the mutex free such a call can return without the lock |
| `RpcLock.LockSucceeds` | src/session.c:276-340 | From every state with the mutex and the flag free a lock call of any kind can return with the lock |
| `RpcLock.WokenSucceeds` | src/session.c:284-291 | From every such state so can a thread that was woken |
| `RpcLock.UnlockSucceeds` | src/session.c:355-390 | From every state with the mutex free an unlock call of any kind can return with the flag clear, the mutex free and a waiting thread woken |
| `RpcLock.LockStuckIff` | src/session.c:279-314 | A step of the lock call loses a wakeup if and only if its thread begins to wait on a flag that has become clear while no other thread serves |
| `RpcLock.UnlockNeverStuck` | src/session.c:355-387 | No step of the unlock call loses a wakeup |
| `RpcLock.LostWakeupIff` | src/session.c:263-390 | A run gets into a state with a lost wakeup if and only if it has such a step |
| `RpcLock.NoLostWakeup` | src/session.c:268-390 | In every run in which no unlock call goes on without the mutex, while threads wait and the lock is free some thread is on its way to it |
| `RpcLock.LostWakeup` | src/session.c:355-387 | For every lock call that may wait and every unlock call that may time out, a state is reachable through them where the lock is free, nobody owns the mutex, one thread waits and the other is in no call |
| `MessageIo.WriteMsgIo` | src/io.c:909-1163 | One call puts one whole frame of its message on the wire if and only if no write fails, moves the message-id on for RPCs only, and gives the IO lock back as often as it took it; when the data printer gives up, the wire has a beginning of the message, no message-id is taken and an error is returned |
| `MessageIo.SendRpc` | src/session_client.c:3139-3150 | With no other thread about, the id returned is the one a peer reads in the text that was written |
| `RpcText.IdReadBack` | src/io.c:952-961 | Whatever attributes and contents follow, the message-id read in the text of an RPC is the one it was written with |
| `RpcText.RpcReadBack` | src/io.c:952-984 | The message-id, the other attributes, whether it is an action and the contents are read back from the text of an RPC |
| `MessageIo.StepKeeps` | src/io.c:935-1162 | Every step of any thread, the move of the message-id before the last bytes included, keeps the wire a sequence of whole frames but for what the owner of the lock has left to write, and the message-ids counted |
| `MessageIo.WholeFrames` | src/io.c:935-1162 | In every run the wire holds whole frames in the order the lock was taken, all but the last one completely, and all of them when the lock is free |
| `MessageIo.ReadsBack` | src/io.c:344-463 | In every run a reader that stands behind some of the complete frames gets the whole next message and stands behind its frame |
| `MessageIo.ConsecutiveIds` | src/io.c:952-984 | In every run the message-id that can be read in the text of the n-th RPC is the n-th after the initial one |
| `MessageIo.IdsOnTheWire` | src/io.c:952-984 | In every run a reader that stands before the complete frame of the n-th RPC gets a message in which it reads the n-th message-id after the initial one |
| `MessageIo.CountedBeforeRead` | src/io.c:975-984 | In every run, while the message-id has not moved on for an RPC its frame lacks at least the end tag |
| `MessageIo.DistinctIds` | src/io.c:952-984 | In every run the message-ids that can be read in two RPCs differ unless 2^64 RPCs lie between them |
| `RpcIds.ReportedIdIff` | src/session_client.c:3139-3150 | The id a call returns is the one that can be read in the frame it wrote if and only if the RPCs for which other threads have moved the message-id on since are a multiple of 2^64 |
| `RpcIds.OneSenderIds` | src/session_client.c:3139-3150 | In every run in which one thread alone sends RPCs, every id returned is the one that can be read in the frame written |
| `RpcIds.OneSenderCounts` | src/session_client.c:3139-3150 | In such a run the k-th id returned is the k-th after the initial one |
| `RpcIds.WrongIdReturned` | src/session_client.c:3139-3150 | From every state with the lock free and two threads idle, a state is reachable in which one of them has returned another id than it wrote, while the other holds the lock and has not written a byte |
| `RpcIds.TwoSendersGoWrong` | src/session_client.c:3139-3150 | In either framing and from any first message-id there is a run of two threads that ends so |
| `SessionRing.FreedExactlyOnce` | src/session.c:752-797 | In every run of joins and concurrent frees nothing shared is freed while a session is in the ring, and SSH session and lock are each freed once in the end |
| `SessionRing.FreedByLastInUse` | src/session.c:755-788 | The cleanup that frees the SSH session is that of the last session past starting, and in the rest of the run there is never a session in the ring again |
| `SessionRing.Insert` | src/session_client_ssh.c:1757-1778 | The new session is in the ring right behind the given one, and the heap agrees with the join step |
| `SessionRing.FindOther` | src/session.c:755-762 | The search finds whether another session of the ring is past starting |
| `SessionRing.FreeStarting` | src/session.c:766-780 | All other sessions are taken out and freed, each once, in ring order |
| `SessionRing.Unlink` | src/session.c:789-797 | The others form the ring without the session |
| `SessionRing.Leave` | src/session.c:752-797 | Search, unlinking or freeing together: what is left is the rest of the ring or nothing |
| `SessionRing.InUseIff` | src/session.c:755-762 | The search on the heap answers what the step system asks: whether another session is in use |
| `SessionRing.Shared.Connect` | src/session_client_ssh.c:1757-1778 | From any member the ring grows by exactly the new session; it is the join step of the step system |
| `SessionRing.Shared.MarkClosing` | src/session.c:969-970 | It is the step that begins a free |
| `SessionRing.Shared.FreeTransport` | src/session.c:741-824 | The session leaves the ring if another one is in use, otherwise all leave and the SSH session is freed once more; it is the cleanup step of the step system |
| `SessionRing.Shared.DestroySharedLock` | src/session.c:1009-1012 | It is the step that destroys the lock |
| `SessionRing.Shared.Safe` | src/session.c:741-1012 | After any calls in any order the `next` pointers form one ring of exactly the live sessions, nothing shared has been freed while it has any, the lock not before the SSH session, neither twice |
| `CapabilityList.SameCapabilityIff` | src/session.c:1036-1049 | The comparison holds if and only if the parts before '?' are equal |
| `CapabilityList.Cpblts.constructor` | src/session.c:1085-1092 | The list starts with the two base capabilities |
| `CapabilityList.Cpblts.Add` | src/session.c:1029-1064 | A capability whose key is present changes nothing, another goes to the end, in a larger array if needed |
| `CapabilityList.AddAllIsFirsts` | src/session.c:1029-1064 | After any additions the list holds the first capability of each key in order, with keys pairwise distinct |
| `CapabilityList.DistinctAllStay` | src/session.c:1029-1064 | Additions with distinct keys all stay |
| `ModuleCaps.LookupQuery` | src/session_client.c:1031-1048 | Searching a query for a key finds the value of that key and not a part of another one |
| `ModuleCaps.SplitJoin` | src/session_client.c:1047-1065 | Splitting names joined by commas gives them back |
| `ModuleCaps.AppendShown` | src/session.c:1251-1268 | The loop appends, with commas, the names that fit and stops at the first that does not |
| `ModuleCaps.AppendFeatures` | src/session.c:1226-1249 | The loop over the features skips the disabled ones, stores the key before the first enabled one and appends the enabled names that fit |
| `ModuleCaps.EnabledAppend` | src/session.c:1229-1232 | The enabled features of two lists one after the other are those of the first and then those of the second |
| `ModuleCaps.EnabledIs` | src/session.c:1229-1232 | There are as many names as enabled features, and each enabled one has its name at the place given by the number of enabled ones before it |
| `ModuleCaps.PrintModule` | src/session.c:1223-1269 | The capability of a module with its revision, enabled features and deviations; all contents the buffer has on the way stay inside it if and only if the module is stored |
| `ModuleCaps.StoredIff` | src/session.c:1223-1269 | The text stays inside the buffer if and only if its head and the keys that are stored without a test do |
| `ModuleCaps.ShownAllIff` | src/session.c:1237-1248 | All names are printed if and only if they fit the buffer, one byte counted extra for a single name |
| `ModuleCaps.TextIsQuery` | src/session.c:1223-1269 | The printed text is the namespace, '?' and a query of fields |
| `ModuleCaps.ParseModuleText` | src/session_client.c:1017-1066 | Parsing the capability of a module gives its name, revision and the features that fitted |
| `ModuleCaps.FeaturesCompleteIff` | src/session.c:1226-1249 | The features come back complete if and only if they fit the buffer |
| `ModuleList.SplitFeatures` | src/session_client.c:1047-1065 | The loop splits the text up to '&' at its commas |
| `ModuleList.BuildOne` | src/session_client.c:1016-1066 | One capability gives one module, or none if it names none |
| `ModuleList.BuildModuleInfo` | src/session_client.c:1003-1070 | The modules of all capabilities in order |
| `ModuleList.AddModules` | src/session.c:1177-1272 | The loop over the modules adds the capabilities of all modules of the wanted YANG versions in order, or fails exactly when the YANG library has an unknown revision |
| `ModuleList.ServerCapabilities` | src/session.c:1066-1282 | The list of a server is the first capability of each key among base, other and module capabilities, in order |
| `ModuleList.LibraryTextIs` | src/session.c:1201-1211 | The capabilities of the YANG library for its two known revisions |
| `ModuleList.KeyOfModule` | src/session.c:1223-1224 | The key of a module's capability is its namespace |
| `ModuleList.LinesParse` | src/session_client.c:1003-1070 | The capabilities of all modules tell a client exactly the advertised modules, in order; that of the YANG library tells none |
| `ModuleList.KnownIff` | src/session_client.c:1003-1070 | From the de-duplicated list a client learns exactly the advertised modules, with the features that fitted, unless a module is hidden by an earlier capability with its key; then it learns of fewer |
| `ModuleRoundTrip.InfosAreFullIff` | src/session.c:1226-1249 | The features that fitted are all enabled ones for every module if and only if all fit the buffer |
| `ModuleRoundTrip.KeyOfLibrary` | src/session.c:1202-1211 | The key of the YANG library's capability is its URI |
| `ModuleRoundTrip.KeysOfLines` | src/session.c:1177-1272 | The keys of the modules' capabilities are the namespaces of the advertised modules and the URI of the YANG library |
| `ModuleRoundTrip.ModulesFirstIff` | src/session.c:1029-1064 | No module's capability is hidden if and only if every advertised module has a namespace that is the key of no capability before it |
| `ModuleRoundTrip.StoredLinesIff` | src/session.c:1177-1272 | The texts of all modules and of the YANG library stay inside the buffer if and only if what is stored without a test does |
| `ModuleRoundTrip.FittingIsNotStored` | src/session.c:1226-1269 | A module whose features pass every test and whose text exceeds the buffer |
| `ModuleRoundTrip.RoundTripIff` | src/session_client.c:1003-1070 | All texts stay inside the buffer and the client's list is exactly name, revision and all enabled features of the advertised modules in order, if and only if they have namespaces of their own, their features fit, and so does what is stored without a test |
| `TightCaps.TightServer` | src/session.c:1320-1326 | The list of a server with configured capabilities that have no white space around them and modules with identifiers free of it is stored by a client as it is |
| `ModuleRoundTrip.WireRoundTripIff` | src/session.c:1394-1475 | The same through escaping, buffering, framing, wire, unframing, parsing and trimming of the hello, with version 1.1 chosen and the session-id read, whatever follows the hello, with a session-id in range added to the condition |

## Left out

- Reader.ReadUntil: end tags longer than the 512-byte buffer step are excluded; the longest in use has 6 bytes.
- Transport.Session.Write: a transport that is never ready again would keep the loop waiting; the model bounds the number of turns in which it is not ready.
- Transport.Session.Read: clock readings more than 2^31 milliseconds apart, between which a deadline can pass and look fresh again, so that the loop need not end.
- ModuleCaps.PrintModule: the text is a value; what a store behind the end of the 4096-byte buffer does is not modelled, only when it happens.
- SessionRing.Shared.Connect: the insertion is one step although the source does not take the IO lock for it; its failure path after that lock is taken, and frees that do not get the lock, are not modelled.
- SessionRing.FreedExactlyOnce: a starting session that another one's cleanup frees takes no further step; the application must not free the last session in use while a connect through it is under way.
- MessageIo.StepKeeps: in the step system no write and no printer fails; for one call `WriteMsgIo` covers both, with the outcome of the printer as a parameter.
- Handshake.FramingSwitch: a hello that is refused ends the session and is not a step; a refusal for a missing or unexpected session-id is not modelled there, only in `ModuleList.Learned`; a peer that is not the library differs from it only in how it chooses the version.
- Pairing.WrongIdIff: a reply that does not parse, for which nc_recv_reply() returns an error before the check.
- RpcLock.MutualExclusion: a mutex unlock by its owner is taken to succeed.
- libyang, libssh, OpenSSL, sockets and poll: nondeterministic outcomes or a byte stream.
- XML parsing: `Hello.ParseHello`, `RpcText.ParseRpc` and `Xml.Unescape` stand for the parser on a hello, on an RPC and on the three predefined entities; of replies and notifications only the type and the message-id are read.
- Byte counts of 2^31 or more, which the C code returns as int, and messages with zero bytes, which it treats as strings.
- The counts nc_write_clb() returns to the libyang printer, the reasons why that printer fails, and failures of memory allocation.
- The result -2 of nc_read_msg_io() inside recv_msg(), which that function does not tell from a message.
- The timeout arithmetic of nc_session_client_msgs_lock().
- The hand-over of the SSH message callback when a session leaves the ring.
- The protocol capabilities chosen by features of ietf-netconf and the with-defaults capability: parameters of `ModuleList.ServerCapabilities`.
- RPC constructors and the switch of nc_send_rpc(), error tables, authentication, TLS, call home, schema retrieval: finite tables, foreign calls or easy members.
