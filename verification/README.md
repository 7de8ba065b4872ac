# A verified model of an SMPP v3.4 library

The library speaks the Short Message Peer to Peer protocol: it packs and parses PDUs, converts text between encodings,
cuts long messages into segments, matches responses to requests on a connection shared by many threads, and keeps the
sessions of a server. This project models the five parts of it that carry hard properties and proves them.

* **PDU codec** (`Bytes`, `Params`, `Frames`, `Tokens`, `Pack`, `Unpack`, `RoundTrip`, `Reading`, `Layouts`,
  `PackLoop`, `UnpackLoop`, `SendPdu`). The frame, TLV, DAD and UDAD files are one datatype of schemas. A structure is
  flattened along its schema into the run of fields that both directions walk. The printer and the parser are
  specification functions, the C loops with their cursor `aux` and counter `left` are methods proved equal to them,
  and the parser is characterised exactly: it returns a structure if and only if the buffer starts with that
  structure's encoding. Round trips in both directions, distinctness of encodings and the growing send buffer follow.
  `Layouts` is a second, independent description: a table of every PDU with its fields by name, octet by octet and
  with limits in numbers, which both directions are proved to meet, with what they refuse.
* **Text encodings** (`Gsm7Packing`, `GsmAlphabet`, `Utf8`, `Unicode`, `WinIconv`, `UtfStreams`, `IconvLoop`). 7-bit
  packing as base conversion (section 6.1.2.1.1 of 3GPP TS 23.038), the GSM alphabet tables (sections 6.2.1 and
  6.2.1.1), the UTF-8 state machine (sections 3 and 4 of RFC 3629), and the resumable UTF-16 and UTF-32 converter
  (sections 2.1, 2.2, 3.2 and 4.3 of RFC 2781).
* **Segmentation** (`Submit`, `MessageOctets`, `Segmentation`). The submit_sm and deliver_sm commands with their
  setters and getters, the client's cutting loop and retry loop, and what the other end reads once the octets have
  gone through the codec.
* **Connection** (`SequenceNumbers`, `Protocol`, `Answers`, `Connection`). The fields of a connection change in atomic
  steps between the points where its mutex is taken and released; the theorems are about every run of such steps, and
  the class's methods are proved to take exactly those steps. Runs ask of a new request that no call under way has its
  number, and `Protocol.CounterRunsAreRuns` shows that the counter's numbers meet this. `Answers` goes from the octets
  of a response to what its caller is told.
* **Server sessions** (`Addresses`, `Sessions`, `SessionManager`). Bind, submit, unbind, network error and keep-alive
  as steps over the table of bound users, with the mutex released around the callbacks, and an event log over which
  conservation and safety are proved for every run.

`Sequences` holds facts about sequences that the proofs share.

Both directions of the codec, the converter and the session steps are in the source's own form: classes and methods with
loops over arrays where the source updates in place, each proved against a specification function about which the main
results are lemmas.

## Findings about the code

Each of these is a member below; the code is modelled as it is.

* A short message of exactly 254 octets is built by `setText` and accepted by the parser, but can never be packed
  (`Submit.ReceivedIsSent`, `RoundTrip.ParserThenPrinter`). `Segmentation.SendableExactly` says from the settings and
  the length which messages are hit: every message of 254 octets that goes into one command, every payload message whose
  last segment has 254 octets, and, without payloads under the default limit, every message that needs segments
  (`Segmentation.LongWithoutPayload`).
* Segment numbers and totals are octets, so they are right exactly up to 255 segments (`Segmentation.NumbersFit`).
* The bounds of an address range are compared as strings. For bounds of one length that is the order of their numbers;
  otherwise 9-10 is rejected and 10-9 is accepted, although it matches nothing (`Addresses.NineAndTen`). An accepted
  range matches something exactly when its first bound is not the longer one (`Addresses.MatchesSome`).
* An address range such as 00-99 owns `+5` (`Addresses.SignedAddressOwned`). A range matches only digit strings exactly
  when its bounds have one length and the first does not start with a zero; among addresses without a NUL, also when it
  has one digit (`Addresses.OnlyDigitStrings`).
* A network error that arrives while `ValidateUser` runs leaves a bound user for a connection that is gone
  (`Sessions.LateBind`). That happens exactly when a bind of the connection was under validation at the error and is
  accepted later (`Sessions.DeadConnectionBound`).
* Two overlapping binds are both answered ESME_ROK though only one is kept (`Sessions.RacingBinds`). The user of an
  accepted bind is kept exactly when no other bind of its connection was accepted since its command came, or the
  connection was removed after each such one (`Sessions.OwnUserKept`).
* `Close` takes `m_connectionError` back, so waiters of a failed read are told RESULT_INVRESP, and a call that was woken
  is told RESULT_NETERROR exactly when `Close` was called and a read error followed, its answer decoded or not
  (`Protocol.NetErrorExactly`, `Protocol.AnsweredThenNetError`).
* When the body of a PDU cannot be read, only the call that the PDU answers is failed; the others that wait are left to
  their timeout (`Protocol.BodyFailureReachesOne`).
* A text of more than 1024 octets that the server sends is cut to 1024, and an address that fills its field loses what
  does not fit, without the sender being told (`Submit.SegmentArrives`, `SessionManager.SmppUserManager.SendMessage`).
* Of a character only the low 16 bits are looked up in the GSM alphabet, so U+10041 is written as A
  (`GsmAlphabet.LowBitsCount`).
* In ill-formed UTF-8 a character that is cut by the first octet of another one vanishes without a replacement character
  (`Utf8.IllFormed`).
* DELIVERY_REJECTED is sent as ESME_RTHROTTLED, which the client reports as an unknown error
  (`Segmentation.ResultSurvives`).
* The GSM octet 0x40 and the pair 1B 0A can be read but not written (`GsmAlphabet.NotWritable`).

## Model

| member | source | states |
|---|---|---|
| RoundTrip.ParserExact | src/libsmpp34/smpp34_unpack.c:41-232 | smpp34_unpack returns a structure if and only if the buffer starts with the encoding of that structure (lists in opposite order), of exactly the octets its command_length says; so the parser is total, never reads past the buffer, and rejects everything else |
| RoundTrip.PrinterThenParser | src/libsmpp34/smpp34_pack.c:41-215 | whatever is packed, followed by anything, is parsed back to the same fields, with command_length filled in and the TLV, DAD and UDAD lists reversed, for every command |
| RoundTrip.ParserThenPrinter | src/libsmpp34/smpp34_pack.c:59-209 | packing what was parsed, lists reversed, gives the same octets for every accepted buffer, and fails exactly when a short message fills its field |
| RoundTrip.WhereUnaccepted | src/libsmpp34/smpp34_pack.c:133-147 | of all fields that the parser can have read, only a short message of full length is refused by the printer |
| RoundTrip.EncodingsDistinct | src/libsmpp34/smpp34_unpack.c:118-228 | no octets are the encoding of two structures |
| RoundTrip.TruncationRejected | src/libsmpp34/smpp34_unpack.c:219-228 | a buffer cut anywhere inside an accepted PDU is rejected |
| RoundTrip.PackedDenotes | src/libsmpp34/smpp34_pack.c:206-211 | the octets packed are the encoding of the structure whose command_length is their number |
| RoundTrip.SizeIrrelevant | src/libsmpp34/smpp34_pack.c:59-166 | room for one octet more than the PDU is always enough, less than the PDU never, and what is written does not depend on the room |
| RoundTrip.RecordReadsBack | src/libsmpp34/def_frame/submit_sm.tlv:1-66 | a record whose fields are chosen by its tag or flag is read back from its octets |
| RoundTrip.TailReadsBack | src/libsmpp34/smpp34_unpack.c:168-180 | the TLV loop bounded by command_length reads back exactly the records written, in opposite order |
| RoundTrip.CountedReadsBack | src/libsmpp34/smpp34_unpack.c:182-204 | the DAD and UDAD loops read back as many records as the count says, in opposite order |
| RoundTrip.EveryFrame | src/libsmpp34/def_list/smpp34_protocol.def:1-107 | every frame starts with the header, and a TLV tail only ever comes last |
| Reading.AnyEncoding | src/libsmpp34/smpp34_unpack.c:57-228 | the octets of any structure are unpacked if and only if every field passes its validator or limit, into that structure with strings cut to their fields and lists reversed |
| Layouts.PackedAsLaidOut | src/libsmpp34/smpp34_pack.c:59-209 | for each of the 27 commands, the octets written are those of a table that lists its fields in order with their octets, and packing is refused if and only if a value is outside the limits of the table |
| Layouts.UnpackedAsLaidOut | src/libsmpp34/smpp34_unpack.c:57-228 | the octets of the table, with anything behind them, are read as the values they stand for, and refused if and only if one is outside the limits |
| Layouts.FramesNamed | src/libsmpp34/def_list/smpp34_protocol.def:1-107 | the fields of the table stand in the frame in this order under their names |
| Layouts.BindOctets | src/libsmpp34/def_frame/bind_transceiver.frame:1-7 | a bind written out octet by octet |
| Layouts.TlvFits | src/libsmpp34/def_frame/data_sm.tlv:1-86 | a TLV of any command is two octets of tag, two of length, and one, two or four octets or a limited run, as a table by tag says |
| Layouts.DestFits | src/libsmpp34/def_frame/submit_multi.dad:1-11 | the octets of a destination for each flag; any other flag is refused |
| Layouts.FailureFits | src/libsmpp34/def_frame/submit_multi_resp.udad:1-5 | the octets of an unsuccessful destination |
| Layouts.OtherCommandsRefused | src/libsmpp34/def_list/smpp34_protocol.def:1-107 | any other command is neither packed nor unpacked |
| Layouts.StatusesListed | src/libsmpp34/def_list/command_status.list:1-48 | the statuses that the header may carry |
| Unpack.NulFrom | src/libsmpp34/smpp34_unpack.c:111-130 | strlen bounded by the octets left: the first NUL from the cursor, or the end |
| Unpack.UnpackTail | src/libsmpp34/smpp34_unpack.c:168-180 | each turn of the TLV loop consumes octets or fails, so it ends inside the buffer |
| Pack.PackedIsEncoded | src/libsmpp34/smpp34_pack.c:59-166 | whatever room was given, what the printer wrote is the plain encoding, and every field passed its validator |
| Pack.EnoughRoom | src/libsmpp34/smpp34_pack.c:59-166 | with one octet to spare, packing fails only for a field that its validator refuses |
| Pack.RoomExactly | src/libsmpp34/smpp34_pack.c:59-166 | fields that do not end in a string are packed if and only if every one passes its validator and an octet is left to spare |
| Pack.PackConcat | src/libsmpp34/smpp34_pack.c:168-190 | packing a run of fields is packing its parts one after the other with the room that is left |
| PackLoop.SmppPack | src/libsmpp34/smpp34_pack.c:41-215 | the in-place printer returns 0 exactly when the specification packs, has then written exactly those octets with the length patched in, and left the rest of the buffer alone |
| PackLoop.PackField | src/libsmpp34/smpp34_pack.c:59-166 | one macro advances the cursor and the octets left by what it wrote |
| PackLoop.PackRecord | src/libsmpp34/def_frame/submit_multi.dad:1-11 | the fields of a tagged record are written in the order its own values choose |
| PackLoop.PackList | src/libsmpp34/smpp34_pack.c:168-190 | the walk over a list writes its records in order and stops at the first that fails |
| UnpackLoop.SmppUnpack | src/libsmpp34/smpp34_unpack.c:41-232 | the parser's loops return 0 exactly for the buffers that denote a structure, and that structure |
| UnpackLoop.ReadField | src/libsmpp34/smpp34_unpack.c:57-166 | one macro reads what the specification reads, or fails where it does |
| UnpackLoop.ReadTail | src/libsmpp34/smpp34_unpack.c:168-180 | the TLV loop prepends each record, as specified |
| UnpackLoop.ReadCounted | src/libsmpp34/smpp34_unpack.c:182-204 | the DAD and UDAD loops prepend each record, as specified |
| SendPdu.Send | src/smppconnection.cpp:180-231 | at most five attempts, and what goes out is what packing once into 4096 octets gives; the result code for every outcome |
| SendPdu.LargerIsEqual | src/smppconnection.cpp:201-208 | a buffer size that is enough stays enough, with the same octets |
| SendPdu.ShortEnoughIsSent | src/smppconnection.cpp:201-208 | every PDU of at most 4095 octets is sent whole, and none of more than 4096 is |
| Gsm7Packing.Gsm7Encode | src/iconv/gsm7.c:167-190 | the shifting loop writes the packed octets and returns their number, or -1 exactly when the output is too small |
| Gsm7Packing.PackingIsBaseConversion | src/iconv/gsm7.c:167-190 | read as numbers, the octets in base 256 are the characters in base 128 |
| Gsm7Packing.PackingIsInjective | src/iconv/gsm7.c:167-190 | the characters can be recovered from the octets and their number |
| Gsm7Packing.PackedLength | src/iconv/gsm7.c:167-190 | n characters take n - n/8 octets, from any bit position |
| Gsm7Packing.PackedSizeIsCeiling | src/iconv/gsm7.c:167-190 | that is ceil(7n/8) |
| Gsm7Packing.OrIsSum | src/iconv/gsm7.c:175-183 | bits put together by or, where they do not overlap, add up |
| GsmAlphabet.GsmLossless | src/iconv/gsm7.c:197-683 | decoding and encoding a GSM text gives it back if and only if it is well formed, without plain 0x40 and without the pair 1B 0A |
| GsmAlphabet.EncodingIsProjection | src/converter.cpp:265-306 | for every octet string, valid UTF-8 or not, encoding a second time changes nothing |
| GsmAlphabet.NotWritable | src/iconv/gsm7.c:224-225 | the octets 0x40 and 1B 0A are read as characters that are written as a question mark |
| GsmAlphabet.CodeRoundTrip | src/iconv/gsm7.c:197-683 | every code but those two is written back from the character it is read as |
| GsmAlphabet.CharacterFate | src/iconv/gsm7.c:197-683 | every character is written as a code that is read as it or as the letter it looks like; as a question mark if and only if it is one or no code is read as either |
| GsmAlphabet.NoCode | src/converter.cpp:286-306 | an octet above 7F, an escape without its pair and an escape at the end are read as one question mark each |
| GsmAlphabet.LowBitsCount | src/iconv/gsm7.c:197-683 | only the low 16 bits of a character count |
| GsmAlphabet.Utf8ToGsm7 | src/converter.cpp:265-283 | the loop over wide characters writes the code of each, or a question mark |
| GsmAlphabet.Gsm7ToUtf8 | src/converter.cpp:286-306 | the loop reads one character or, where none can be read, one octet as a question mark |
| Utf8.Utf8ToWStr | src/converter.cpp:340-386 | the loop over w and bytes computes the decoder, with a replacement character for a truncated end |
| Utf8.WStrToUtf8 | src/converter.cpp:309-337 | the loop computes the encoder |
| Utf8.DecodeEncoded | src/converter.cpp:309-386 | every sequence of code points up to 0x10FFFF survives encoding and decoding |
| Utf8.DecodeLossless | src/converter.cpp:309-386 | decoding and encoding gives an octet string back if and only if all its characters are in shortest form |
| Utf8.WellFormedRoundTrip | src/converter.cpp:309-386 | so every well-formed UTF-8 string is given back |
| Utf8.DecodeConcat | src/converter.cpp:340-386 | decoding splits at every character boundary, whatever the octets |
| Utf8.IllFormed | src/converter.cpp:340-386 | behind any text and a cut character, if there is one: what an ASCII octet, a stray continuation octet, an octet from F8 on and the first octet of another character come to |
| Utf8.CutAtEnd | src/converter.cpp:340-386 | a text that ends inside a character ends with one replacement character |
| Utf8.CompleteRun | src/converter.cpp:309-386 | a first octet with all its continuation octets is one character whatever its value, written as a question mark when that is above U+10FFFF |
| Unicode.Utf16RoundTrip | src/iconv/win_iconv.c:987-1011 | surrogate pairs are taken apart and put together without loss |
| Unicode.UnitRoundTrip | src/iconv/win_iconv.c:1409-1458 | 16-bit and 32-bit units are read back in the byte order they were written in |
| IconvLoop.CsConv.Mbtowc | src/iconv/win_iconv.c:1409-1458 | utf16_mbtowc and utf32_mbtowc with the mode they update |
| IconvLoop.CsConv.Wctomb | src/iconv/win_iconv.c:1460-1510 | utf16_wctomb and utf32_wctomb write the mark and the character, or fail exactly when there is no room for both |
| IconvLoop.Pass | src/iconv/win_iconv.c:795-850 | one pass of the loop; a failing character leaves both modes as they were, the pending byte order mark included |
| IconvLoop.Iconv | src/iconv/win_iconv.c:762-857 | the whole call: counters, octets written, both modes and the ending are those of the specification |
| IconvLoop.Reset | src/iconv/win_iconv.c:770-793 | a call without input starts both modes over |
| WinIconv.Resumption | src/iconv/win_iconv.c:795-857 | wherever a call stops, going on from its pointers and modes ends as one unlimited call would have |
| WinIconv.BuffersIrrelevant | src/iconv/win_iconv.c:795-857 | fresh buffers of any sizes give the octets, modes and ending of one unlimited buffer |
| WinIconv.BuffersSuffice | src/iconv/win_iconv.c:795-857 | buffers with room for any one character always finish |
| WinIconv.InputSplit | src/iconv/win_iconv.c:795-857 | input cut anywhere, even inside a character, converts as if it had not been cut |
| UtfStreams.StreamRoundTrip | src/iconv/win_iconv.c:1409-1592 | every sequence of scalar values survives either width and byte order, with or without marks, and a decoder of the other byte order reads a marked stream alike |
| UtfStreams.UnmarkedText | src/iconv/win_iconv.c:1409-1458 | a decoder that looks for a mark reads text without one in its own byte order, unless it starts with what reads as a mark; a leading U+FEFF is passed over |
| UtfStreams.NarrowCharacter | src/iconv/win_iconv.c:1409-1440 | from the octets: the character of 16-bit units, EILSEQ for an unpaired surrogate, EINVAL for a cut one |
| UtfStreams.WideCharacter | src/iconv/win_iconv.c:1442-1458 | from the octets: the character of 32-bit units, EILSEQ above U+10FFFF and for surrogates, EINVAL for a cut one |
| UtfStreams.NarrowOctets | src/iconv/win_iconv.c:1460-1510 | the octets of a character in 16-bit units of either byte order |
| UtfStreams.WideOctets | src/iconv/win_iconv.c:1460-1510 | the octets of a character in 32-bit units of either byte order |
| UtfStreams.MarkOctets | src/iconv/win_iconv.c:1460-1510 | a codec with marks writes these octets first, and then what the codec without marks does |
| UtfStreams.ConvertIsRecode | src/iconv/win_iconv.c:762-857 | converting is decoding the input and encoding what was decoded, with the same ending |
| UtfStreams.ConvertsText | src/iconv/win_iconv.c:762-857 | from one UTF codec to another the converter turns encoded text into the other encoding of the same text |
| UtfStreams.ConvertsUnmarked | src/iconv/win_iconv.c:762-857 | unmarked text is converted like marked text by a descriptor that looks for a mark |
| UtfStreams.UtfLaws | src/iconv/win_iconv.c:1409-1592 | the UTF codecs meet what resumption and splitting ask of a codec |
| Submit.MessageCommand.SetText | src/smppcommands.hpp:399-417 | short_message up to 254 octets, else a payload TLV of at most 1024 in front of the list |
| Submit.MessageCommand.SetConcatenatedMessageArgs | src/smppcommands.hpp:419-433 | the four TLVs, cut to their widths, in front of the list |
| Submit.MessageCommand.SetDestination | src/smppcommands.hpp:458-465 | at most 21 octets are copied, without a NUL when there are as many; ton and npi are cut to an octet |
| Submit.MessageCommand.SetSourceAddress | src/smppcommands.hpp:387-392 | the address is cut to leave room for its NUL; ton and npi are cut to an octet |
| Submit.MessageCommand.ReadText | src/smppcommands.hpp:350-370 | the short message if there is one, else the last payload of the list |
| Submit.LastWithTag | src/smppcommands.hpp:350-370 | of several records with a tag the last in the list is read |
| Submit.PackableExactly | src/libsmpp34/smpp34_pack.c:133-147 | a submit_sm or deliver_sm whose other fields pass is packed into 4096 octets if and only if its short message has not 254 octets and the whole PDU at most 4095 |
| Submit.ReceivedIsSent | src/smppcommands.hpp:123-192 | whenever it can be packed, the other end unpacks every field of the command, strings cut to what their fields keep, and its TLVs in opposite order |
| Submit.SegmentArrives | src/smppcommands.hpp:350-433 | read from the octets at the other end, getText is the text up to 1024 octets, the addresses are what fits their fields, and the four segment TLVs are as given; nothing arrives exactly when the text has 254 octets |
| MessageOctets.SegmentOctets | src/smppcommands.hpp:387-465 | the octets that go out for a text or a segment, every field and TLV of them at its place in the table of PDUs |
| MessageOctets.WhatIsKept | src/smppcommands.hpp:387-465 | of an address what comes before its first NUL, at most 20 octets of a source and 21 of a destination; of a text at most 1024 octets |
| Segmentation.SmppClient.SendMessage | src/smppclient.cpp:358-446 | the pieces acknowledged form a prefix, each arrived with its text, addresses and place; nothing is sent behind the first that is not, which is given up only after three tries; DELIVERY_OK if and only if all were acknowledged, and otherwise what the last try says |
| Segmentation.SmppClient.SendSegments | src/smppclient.cpp:397-446 | the loop sends the pieces in order and stops at the first that is not acknowledged |
| Segmentation.SmppClient.SendWithRetry | src/smppclient.cpp:425-430 | one to three tries with the same command, all but the last of which failed, and three when the last failed |
| Segmentation.ResultSurvives | src/smppclient.cpp:340-356 | the server's delivery result, sent as a status, is what the client reports, unless it is DELIVERY_REJECTED |
| Segmentation.VerdictExactly | src/smppclient.cpp:340-356 | which statuses are reported as which delivery result |
| Segmentation.SubmissionReported | src/smppclient.cpp:340-356 | in every run of the server, what the client reports for the response to its submission: what the mode and the addresses of the user call for, and else what DeliverMessage returned |
| Segmentation.AnswersCanBeSent | src/smppusersmanager.cpp:333-338 | every status the server answers with is a listed one |
| Segmentation.EndToEnd | src/smppclient.cpp:372-445 | what has arrived, joined, is a beginning of the text, and all of it when every piece was acknowledged, which needs a sendable message |
| Segmentation.CutExactly | src/smppclient.cpp:402-418 | the segments are as many as sar_total_segments says and join to the text |
| Segmentation.CutLengths | src/smppclient.cpp:410-418 | all segments are full but the last, which has what is left over |
| Segmentation.CutAt | src/smppclient.cpp:410-418 | where each segment lies in the text |
| Segmentation.OneCommand | src/smppclient.cpp:372-373 | a message goes into one command if and only if it has at most 1024 octets with payloads, else at most MaxMessageLength, or 254 when that is 0 or more; only a longer one states a number of segments |
| Segmentation.ManyCommands | src/smppclient.cpp:402-418 | a longer one is cut at the multiples of that limit, into the ceiling of the quotient, which every segment states |
| Segmentation.SendableExactly | src/smppclient.cpp:372-418 | no piece has 254 octets if and only if the settings and the length say so |
| Segmentation.LongWithoutPayload | src/smppclient.cpp:402 | without payloads, under the longest limit, the first segment can never be packed |
| Segmentation.NumbersFit | src/smppcommands.hpp:429-431 | the segments arrive numbered 1 to total if and only if there are at most 255 |
| Segmentation.PlacesArrive | src/smppcommands.hpp:419-433 | in a message that arrived whole only the last segment says that no more follow, all share one reference, and up to 255 segments are numbered from 1 to their total |
| Segmentation.NumbersRepeat | src/smppcommands.hpp:431 | segments 256 apart arrive with the same number |
| SequenceNumbers.Counter.NextSequenceNumber | src/smppconnection.cpp:100-113 | each number issued is the next one of the specified sequence |
| SequenceNumbers.IssuedInRange | src/smppconnection.cpp:100-113 | every number lies in 1 to 2^32 - 2, so packing never refuses it |
| SequenceNumbers.ConnectionDistinct | src/smppconnection.cpp:59-65 | numbers less than 2^32 - 1 - 0x4000 issues apart differ, whatever the restarts draw |
| SequenceNumbers.WindowIsSharp | src/smppconnection.cpp:59-65 | one issue further apart they can be equal |
| Protocol.RunKeeps | src/smppconnection.cpp:115-359 | the invariant of lock, flags, table and calls, in every state of every run |
| Protocol.NoLostResponse | src/smppconnection.cpp:140-171 | whenever the reader can have the mutex, a sent and unreturned request is in the table unless Close has run |
| Protocol.Correlation | src/smppconnection.cpp:282-316 | RESULT_OK only for a PDU with the call's own sequence number that was read after this call had entered the table, decoded without error, and whose status the caller sees |
| Answers.AnsweredSucceeds | src/smppconnection.cpp:158-171 | a waiting request whose response is read, given by its octets (for submit_sm_resp and deliver_sm_resp with anything behind the message id), returns RESULT_OK and has the status in those octets, unless its number is answered again or a read fails before |
| Answers.AnswerReturned | src/smppconnection.cpp:282-316 | likewise for any response read for a waiting call: RESULT_OK with the decoded status, or RESULT_INVRESP if and only if it cannot be decoded |
| Answers.ResponseDecoded | src/smppconnection.cpp:285-302 | such octets are decoded as the response they are |
| Answers.NothingToCut | src/smppconnection.cpp:285-295 | a response as it should be is not changed before it is unpacked |
| Protocol.FailureReachesEveryWaiter | src/smppconnection.cpp:238-264 | every request in the table when reading a header fails stops waiting: it ends with RESULT_TIMEOUT if its wait had expired, else with RESULT_INVRESP, even if its answer had been decoded |
| Protocol.BodyFailureReachesOne | src/smppconnection.cpp:346-359 | when reading a body fails, only the call that the response addresses is failed; of the others those that wait can only time out, and those already woken return what they were woken for |
| Protocol.CloseAbandons | src/smppconnection.cpp:115-130 | a request that Close alone finds waiting can only time out |
| Protocol.NetErrorExactly | src/smppconnection.cpp:128-169 | a call returns RESULT_NETERROR from its wait if and only if the wait had not expired and Close was called and a read error followed |
| Protocol.AnsweredThenNetError | src/smppconnection.cpp:158-169 | a run in which a call that its response has woken is told RESULT_NETERROR |
| Protocol.CounterRunsAreRuns | src/smppconnection.cpp:59-65 | when every request carries a number of the counter, and those under way have other ones issued less than a window apart, their numbers are fresh, so every result about runs holds |
| Protocol.StatusIsListed | src/smppconnection.cpp:300-304 | a decoded status is one of the listed ones, never the -1 of a failed call |
| Connection.SmppConnection.SendPdu | src/smppconnection.cpp:180-231 | the packed octets go out whole on an open socket, or nothing does |
| Connection.SmppConnection.BeginRequest | src/smppconnection.cpp:140-158 | SendRequest up to its wait takes the protocol's steps, and writes exactly the packed command, whatever its number |
| Connection.SmppConnection.EndRequest | src/smppconnection.cpp:158-171 | SendRequest after its wait takes the protocol's step and returns its result |
| Connection.SmppConnection.ReadHandlerError | src/smppconnection.cpp:233-264 | the error branch takes the protocol's step |
| Connection.SmppConnection.ReadHandlerBodyFails | src/smppconnection.cpp:346-359 | the catch branch takes the protocol's step |
| Connection.SmppConnection.ReadHandlerResponse | src/smppconnection.cpp:266-316 | the response branch cuts, unpacks and wakes as the protocol's step does |
| Connection.SmppConnection.Close | src/smppconnection.cpp:115-134 | closes once: flags reset, table cleared, nobody woken |
| Addresses.ParseUserAddresses | src/smppusersmanager.cpp:224-284 | the parsing loop accepts exactly what the specification accepts, with the same addresses |
| Addresses.SplitJoins | src/smppusersmanager.cpp:233-240 | the pieces join to the text and hold no separator |
| Addresses.JoinSplits | src/smppusersmanager.cpp:233-240 | and they are the only such pieces |
| Addresses.OwnsByPiece | src/smppusersmanager.cpp:235-283 | a list is accepted if and only if every piece is, and owns an address if and only if a piece does |
| Addresses.PlainListOwns | src/smppusersmanager.cpp:224-244 | a list of plain addresses is accepted and owns these and no other text |
| Addresses.TwoDashesRefused | src/smppusersmanager.cpp:273-283 | a piece with two dashes or more is refused |
| Addresses.BadBoundRefused | src/smppusersmanager.cpp:246-272 | so is a range with a bound that is no number from 0 to 2147483647 |
| Addresses.OwnsAddress | src/smppusersmanager.cpp:145-157 | true if and only if one of the addresses matches |
| Addresses.OrderIsNumeric | src/smppusersmanager.cpp:251 | on digit strings of one length the order of strings is the order of their numbers |
| Addresses.AcceptedInOrder | src/smppusersmanager.cpp:246-272 | a range of two digit strings is accepted if and only if they are in order digit by digit, over the length of the shorter; for one length, if and only if their numbers are in order |
| Addresses.RangeIsNumeric | src/smppusersmanager.cpp:113-128 | among digit strings a range matches exactly those whose length and whose number lie between those of its bounds |
| Addresses.MatchesExactly | src/smppusersmanager.cpp:113-128 | a range owns exactly the texts of a fitting length that read, up to a NUL, as white space, a sign or none, and digits with a number between its bounds; an empty one reads as 0 |
| Addresses.MatchesSome | src/smppusersmanager.cpp:113-128 | an accepted range matches something if and only if its first bound is not the longer one |
| Addresses.NineAndTen | src/smppusersmanager.cpp:246-272 | 9-10 is rejected, and 10-9 is accepted and matches nothing |
| Addresses.OnlyDigitStrings | src/smppusersmanager.cpp:113-128 | an accepted range that matches anything matches only digit strings if and only if its bounds have one length and the first does not start with a zero; among texts without a NUL, also if it has one digit |
| Addresses.SignedAddressOwned | src/smppusersmanager.cpp:120-127 | the range 00-99 matches +5 |
| Sessions.Admission | src/smppusersmanager.cpp:286-328 | a connection that became bound did so because ValidateUser returned OK for a bind on it; transmitters have no addresses, the others one or more |
| Sessions.AdmittedBind | src/smppusersmanager.cpp:210-284 | that bind came while the connection was not bound and asked for exactly this user |
| Sessions.DeliverySafe | src/smppusersmanager.cpp:368-410 | DeliverMessage is called only for a submission from a user found bound, not a receiver, and unless a transmitter only from an address it owns to one it does not |
| Sessions.SubmissionExactly | src/smppusersmanager.cpp:386-412 | at the check of a submission DeliverMessage is called if and only if the user may make it; otherwise the task replies 0x03 to a receiver, 0x0A to one that does not own the source, 0x0B to one that owns both |
| Sessions.Conservation | src/smppusersmanager.cpp:199-208 | per connection and in all: insertions are bound users plus removals by unbind, network error and keep-alive; unbinds are reported or in flight, network errors are reported, keep-alive removals are not |
| Sessions.ReportedAtMostOnce | src/smppusersmanager.cpp:351-361 | each insertion is reported at most once |
| Sessions.OneResponse | src/smppusersmanager.cpp:333-459 | a command has been answered once when its handling is over and not at all before |
| Sessions.HandlingGoesOn | src/smppusersmanager.cpp:191-460 | the handling of a command is never stuck, in any state of any run, and at most three of its own steps away from its response |
| Sessions.NeverBack | src/smppusersmanager.cpp:191-460 | no step of any task or connection takes a task back |
| Sessions.ResponseIsForCommand | src/smppusersmanager.cpp:334-336 | a response goes to the connection and carries the sequence number of a command that came before |
| Sessions.ResponseExplained | src/smppusersmanager.cpp:210-442 | every response of every run has the status, in numbers, that the table at the time of its command and the results of the callbacks call for, and so has the decision to keep the connection |
| Sessions.ReportNamesUser | src/smppusersmanager.cpp:199-208 | OnUserDisconnected is called with the system id of a user that was admitted on that connection |
| Sessions.BindOk | src/smppusersmanager.cpp:299-338 | a bind is answered ESME_ROK only after ValidateUser accepted it, with its connection bound at that moment |
| Sessions.OwnUserKept | src/smppusersmanager.cpp:286-338 | an accepted bind puts its own user into the table if and only if no other bind of its connection was accepted since its command came and is still in force; either way it is answered ESME_ROK |
| Sessions.BoundExactly | src/smppusersmanager.cpp:199-365 | a connection that was not bound is bound later if and only if a bind of it was accepted and no network error, unbind or keep-alive removal of it came since |
| Sessions.AfterNetworkError | src/smppusersmanager.cpp:199-208 | a connection that is bound after a network error was bound by a bind accepted later |
| Sessions.DeadConnectionBound | src/smppusersmanager.cpp:199-331 | a connection that sends nothing after its network error is bound in some later state if and only if a bind of it was under validation at the error and is accepted later |
| Sessions.LateBind | src/smppusersmanager.cpp:286-327 | a run in which that happens to a bind that was under way, so a dead connection stays bound |
| Sessions.RacingBinds | src/smppusersmanager.cpp:324-338 | a run in which two overlapping binds are both answered ESME_ROK and the first is kept |
| Sessions.NeverToTransmitter | src/smppusersmanager.cpp:469-491 | in no run does a message go to a transmitter |
| Sessions.EveryoneIsAsked | src/smppusersmanager.cpp:542-580 | between two rounds of the keep-alive thread every user bound at the first is asked |
| SessionManager.SmppUserManager.OnNetworkError | src/smppusersmanager.cpp:199-208 | takes the network error step |
| SessionManager.SmppUserManager.OnCommand | src/smppusersmanager.cpp:210-370 | takes the command step: every check, in order, up to where the mutex is released |
| SessionManager.SmppUserManager.OnValidated | src/smppusersmanager.cpp:290-331 | takes the validation step: the status, and the insertion that keeps the first user |
| SessionManager.SmppUserManager.OnUnbound | src/smppusersmanager.cpp:355-365 | takes the notification step of an unbind |
| SessionManager.SmppUserManager.CheckSubmission | src/smppusersmanager.cpp:374-412 | takes the check step: who may call DeliverMessage |
| SessionManager.SmppUserManager.OnDelivered | src/smppusersmanager.cpp:413-442 | takes the delivery step: the status of each delivery result |
| SessionManager.SmppUserManager.Respond | src/smppusersmanager.cpp:333-338 | takes the reply step and returns whether the connection is kept |
| SessionManager.SmppUserManager.CollectUsers | src/smppusersmanager.cpp:542-548 | takes the step in which the keep-alive thread copies the table |
| SessionManager.SmppUserManager.OnEnquired | src/smppusersmanager.cpp:568-580 | from what SendRequest returned and the status of its command, the keep-alive step: erased without a report, or kept |
| SessionManager.SmppUserManager.FindConnection | src/smppusersmanager.cpp:471-486 | the smallest connection whose user owns the address, or none if and only if nobody owns it |
| SessionManager.SmppUserManager.SendMessage | src/smppusersmanager.cpp:469-518 | DELIVERY_INV_DEST_ADDR if and only if nobody owns the destination, what each other result means, and for each answered deliver_sm the text and addresses that arrived |

## Left out

- Sockets, boost::asio, thread pools, acceptor and resolver: sending, receiving and failing are parameters and steps that may happen at any moment.
- Time: response timeouts and keep-alive expiry are steps that may fire at any moment; `lastKeepAlive` is not modelled.
- C memory effects: `strlen` past the end of a field or buffer, failing `malloc`, struct padding and `free`. `strlen` is a search for NUL in the octets left; linked lists are sequences, so sharing of nodes is not captured.
- Octets behind the NUL of a string field: a string is its octets before the NUL.
- PackLoop.SmppPack: the length and the cut strings that the C function writes back into its source structure are not returned.
- Submit.MessageCommand.SetDestination: `strlen` on a field without a NUL reads into the next field; that one is zero in a command built once, which is all that the model covers.
- Submit.MessageCommand.SetText: without the flag that forces a payload, which nobody sets.
- Submit.SegmentArrives: the segment TLVs are for submit_sm, since nobody sets them on a deliver_sm.
- Segmentation.SmppClient.SendMessage: takes the text already encoded, and texts have less than 2^32 octets, so that the 32-bit index does not wrap; the conversion is what the encoding modules are about.
- SessionManager.SmppUserManager.SendMessage: takes the message already encoded and the number that the connection issued; peer, socket and clock decide the result of SendRequest.
- Bit operations are written as division, remainder and, in `Gsm7Packing`, as a bitwise or on naturals; wide characters have 32 bits.
- Protocol.Correlation: spurious wakeups of a condition variable are not modelled.
- Protocol.BodyFailureReachesOne: a response that nobody waits for and whose body cannot be read while the connection is not closing; the source then notifies through a null pointer.
- Sessions.DeliverySafe: the text is a parameter of the submission, since its conversion is in the encoding modules; connection ids are the int keys of the table.
- A manager without callbacks, `SetDeliveryEncoding`, and the fields of CSMPPBind other than those the manager reads.
- `CSMPPSubmitMulti` setters, the exceptions thrown by the pack and unpack wrappers, and the enum-to-string helpers.
- Foreign conversions: the system iconv, MLang, MultiByteToWideChar, ISO-2022-JP and code page lookup. `gsm7_decode` is only declared in the source.
- Diagnostics, `smpp34_dumpPdu`, `smpp34_dumpBuf`, the logger, DllMain and the C API wrappers.
- UnpackLoop.SmppUnpack: unpacking starts from a zeroed structure; what a failed call leaves in the structure is a parameter of the connection's steps.
