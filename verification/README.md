# A verified model of the self-contained algorithms of the IoT SDK

The SDK is mostly dispatch tables and operating-system ports. Around them stand a few algorithms that carry the
weight: the cJSON library, the USIP serial link protocol, the soft timers, the bounded queue, the AT command engine,
the ring buffer with the ESP8266 receiver that fills it, and CRC-32. This project states in Dafny what those algorithms
do and proves what they are for. `dafny verify dfyconfig.toml` checks all of it.

Each routine that works by changing state is a method on the fields it changes (a parse cursor, a print buffer, a child
list, the receiver's globals, the timer list, the queue, the command block) and its postcondition equates what it leaves
with a function of what it found. What the program promises is proved about those functions. Protocols with more than
one thread are state machines whose moves are the steps between two points where the code can be interrupted; their
theorems range over every run.

**cJSON** (`Bytes`, `DecimalDigits`, `Json*`). The grammar modules say, as functions of the text and the cursor, what
each parse routine accepts, builds and where it stops; `JsonParser` is the cursor itself. `JsonString` shows that
the second pass over a string literal never outgrows the space the first pass measured, although the two disagree on where
escapes start when an escape is malformed. `JsonLiteral` gives literals their meaning (sections 2 and 7 of RFC 8259, section
3 of RFC 3629, section 2.2 of RFC 2781), `JsonLiteralExact` and `JsonLiteralPlace` say which are accepted, and
`JsonNumberMeaning` gives numbers theirs. `JsonSyntax` writes the accepted language down apart from the parser, as syntax trees
with their text and value, and proves that the parser accepts exactly these; `JsonEnding` is about what follows a value.
`JsonPrinter` runs the growing, the pre-sized and the preallocated printer against one rendering function,
`JsonRoundTrip` parses that rendering back, `JsonLayout` says how it is laid out, `JsonMinify`, `JsonMinifyMeaning`,
`JsonOutside` and `JsonMinifyPieces` follow the in-place minifier, `JsonCompare` relates the comparison to equality of
canonical forms, and `JsonChildren` edits the linked child list. The parser is more lenient than RFC 8259 and the model follows it: white space is any byte up to 32, a number may
start with zeros or lack its whole part behind a minus, hexadecimal digits that are none decode as 0, and text after a
value is allowed unless the caller asks for the end.

**USIP** (`UsipCrc`, `UsipFrame`, `UsipReceiver`, `UsipFraming`, `UsipResync`, `UsipStation`, `UsipBlocked`, `UsipDelivery`,
`UsipEndpoint`, `ByteBits`).
Packets with extensible integers and a CRC-8, byte stuffing as in RFC 1055, the byte-at-a-time receiver with its
2048-byte buffer and sixteen slots, and the stop-and-wait layer above. `UsipDelivery` proves end-to-end delivery over a
link that may lose or damage any data frame: the link's behaviour is an arbitrary function of the packet and the
transmission, so the theorem is about every behaviour. Its assumptions are the ones the protocol needs: damage is
noticed by the CRC, acknowledgements arrive before the timeout, each frame is read before the next completes, and no
earlier message is unfinished.

**Soft timers** (`SoftTimer`, `SoftTimerWakeup`). The linked list in deadline order, the scan and the client operations; then
the daemon and any number of clients as interleaved moves with a clock that advances at will.

**Queue** (`BoundedQueue`), **AT engine** (`AtEngine`), **ring buffer** (`RingBuffer`), **ESP8266 receiver**
(`Esp8266Demux`), **CRC-32** (`Crc32`, section 8 of RFC 1952).

## What the proofs found

- A parse that fails can leave the cursor one past the text, as on the text `{`: exactly when, inside open brackets within
  the nesting limit, the text ends where a member's name is due (`JsonFailure.PastEndIffNameDue`). The error position that is
  reported is inside the text in either case (`JsonParser.ErrorPosition`).
- Minifying twice is the same as minifying once on every text the parser accepts in full, and not on all texts
  (`JsonMinifyMeaning.SecondMinifyingCanChange`): exactly on those where no lone slash outside literals and comments has a slash
  or a star as its next kept byte (`JsonMinifyMeaning.MinifyingTwice`).
- Comparison is an equivalence on trees with distinct names. With a repeated name a tree can differ from its own copy;
  `JsonCompare.EqualIsEquivalence` says exactly when.
- `cJSON.h:160` advises five spare bytes for a preallocated buffer; two are enough and needed
  (`JsonPrinter.PrintPreallocated`).
- A USIP frame that fails its CRC gives -1, which usip_rec_task reads as 255: it inserts an empty packet into the list. The model does the same;
  the packet adds no bytes, so delivery stands.
- A USIP acknowledgement that is not waited for blocks the receiver: its slot is never left, so the frames behind it are not
  processed, at least the next fourteen of them (`UsipBlocked.StaleAckBlocks`).
- An empty USIP message is acknowledged and never delivered (`UsipDelivery.EmptyMessageLost`). It leaves a mark behind that makes the
  peer deliver the first packet of the next longer message alone (`UsipDelivery.SpoiledTakes`).
- A receive on a datagram socket ignores the length it is asked for: what it writes stays within that length exactly when the datagram does
  (`Esp8266Demux.HandedWithinLength`).
- The room for a datagram is measured without the two bytes of its length: a payload that just fits is stored cut short
  (`Esp8266Demux.FrameDealtExactly`).
- Fourteen complete frames stay intact behind the one arriving; the fifteenth need not
  (`UsipFraming.FifteenthCanBeLost`).
- An extensible integer survives its two conversions exactly below 2^14 (`UsipFrame.EARoundTrip`).
- A timer whose remaining time is 2^32 - 1 milliseconds modulo 2^32 makes the daemon sleep for ever
  (`SoftTimerWakeup.WaitCovers`).
- A second answer that arrives after the length was read and before the command is cleared changes the caller's buffer under its result
  (`AtEngine.SecondAnswerOverwrites`). `AtEngine.ResultAgreesIff` says exactly when result and buffer still agree,
  `AtEngine.NoLateAnswerAgrees` that they do when no answer comes so late.

## Model

| member | source | states |
|---|---|---|
| JsonString.OutputFitsAllocation | cJSON/cJSON.c:698-824 | for every input whose closing quote is found, the bytes the second pass writes and the terminator stay inside the size the first pass computes, even when the passes disagree on escapes |
| JsonString.UnescapeFits | cJSON/cJSON.c:747-807 | from any aligned pair of positions of the two passes, what is still written plus the escapes still counted never exceeds what is still read |
| JsonString.RoundFits | cJSON/cJSON.c:749-807 | one round of the second pass writes no more than it reads, less the escapes the first pass counted on the way |
| JsonLiteral.LiteralMeaning | cJSON/cJSON.c:698-824 | a literal spelled from well-formed units parses to the UTF-8 of the code points it denotes and the cursor stands behind its closing quote |
| JsonLiteral.HexDigits | cJSON/cJSON.c:540-573 | the characters 0 to 9 and A to F in either case, in order, have the values 0 to 15, and no other byte is a digit |
| JsonLiteral.Hex4Means | cJSON/cJSON.c:540-573 | four bytes read as the number their digits spell by the table of digits, and as 0 when one is none |
| JsonLiteral.UnknownEscapeRejected | cJSON/cJSON.c:763-800 | after any well-formed units, a backslash before a letter that is no escape makes the literal fail |
| JsonLiteralExact.LiteralsExactly | cJSON/cJSON.c:698-824 | with digits where `\u` escapes need them, a literal is accepted exactly when its inside is a sequence of well-formed units, and its value is what they denote |
| JsonLiteralPlace.LiteralAnywhere | cJSON/cJSON.c:698-824 | whether bytes are taken as a literal, and its value, do not depend on what stands around them |
| JsonLiteral.LoneSurrogateRejected | cJSON/cJSON.c:577-632 | after any well-formed units, a surrogate escape that is not a high one followed by a low one makes the literal fail |
| JsonLiteral.Utf8DecodesBack | cJSON/cJSON.c:640-685 | the bytes written for a code point decode back to it and to their length by an independent decoder |
| JsonGrammar.ParseValue | cJSON/cJSON.c:1212-1264 | a successful parse strictly advances the cursor and stays below the end; a failed one stops no further than one past it |
| JsonGrammar.Items | cJSON/cJSON.c:1375-1412 | the same for the elements of an array, which are not empty |
| JsonGrammar.Members | cJSON/cJSON.c:1527-1580 | the same for the members of an object |
| JsonGrammar.AcceptedNesting | cJSON/cJSON.c:1346-1350 | an accepted value nests no deeper than the nesting limit, counted from the depth it starts at |
| JsonSyntax.AcceptedExactly | cJSON/cJSON.c:1000-1077 | the language of the parser: a text that must end behind its value is accepted, with a given value, exactly when it is a document of the written grammar, within the nesting limit, that stands for this value |
| JsonSyntax.SyntaxRead | cJSON/cJSON.c:1212-1603 | every syntax tree within the nesting limit, with any white space between its parts, is parsed where it stands to its value |
| JsonSyntax.SyntaxFound | cJSON/cJSON.c:1212-1603 | where a value is accepted a syntax tree stands, with this text and this value |
| JsonEnding.EndRequirement | cJSON/cJSON.c:1032-1044 | requiring the end accepts exactly what is accepted otherwise and has only white space behind the value, hands back the terminator, and fails at the first byte behind the value that is not white space |
| JsonEnding.PrintedTextAmid | cJSON/cJSON.c:1000-1077 | a printed tree is read back behind a byte order mark and any white space, whatever follows it; when the end is required, exactly if that is white space |
| JsonFailure.StringFailsPastEnd | cJSON/cJSON.c:698-711 | a failed string leaves the cursor one past the text exactly when it was looked for at the terminator |
| JsonFailure.PastEndIffNameDue | cJSON/cJSON.c:1497-1603 | for every text, the cursor of a parse ends one past the text exactly when, inside open brackets within the nesting limit, the text ends where a member's name is due; its last significant byte is then an opening brace or a comma |
| JsonFailure.OffsetStaysInside | cJSON/cJSON.c:1497-1603 | for every text whose last significant byte is not an opening brace or a comma, the cursor stays below the end, whether the parse succeeds or fails |
| JsonFailure.OpenBraceFailsPastEnd | cJSON/cJSON.c:1497-1603 | the text of one opening brace leaves the cursor past the end |
| JsonParser.ParseBuffer.SkipWhitespace | cJSON/cJSON.c:963-981 | the cursor moves to the next byte above 32, or back onto the terminator |
| JsonParser.ParseBuffer.SkipUtf8Bom | cJSON/cJSON.c:984-997 | a byte order mark at the start of a long enough text is passed over |
| JsonParser.ParseBuffer.ParseNumberItem | cJSON/cJSON.c:266-340 | the longest prefix of at most 63 number characters that is a number is read, and the cursor moves behind it |
| JsonParser.ParseBuffer.ParseHex4 | cJSON/cJSON.c:540-573 | four digits give their value, and 0 when one of them is none |
| JsonParser.ParseBuffer.EncodeUtf8 | cJSON/cJSON.c:640-690 | the continuation bytes written backwards and the first byte are the UTF-8 of the code point, and nothing else is written |
| JsonParser.ParseBuffer.Utf16LiteralToUtf8 | cJSON/cJSON.c:577-695 | the escape or pair of escapes is consumed and its UTF-8 written, or nothing when it is invalid |
| JsonParser.ParseBuffer.UnescapeInto | cJSON/cJSON.c:745-807 | the loop writes the unescaped bytes into the allocation, or stops where an escape is invalid |
| JsonParser.ParseBuffer.ParseStringText | cJSON/cJSON.c:698-824 | both passes together: the string the grammar gives, the cursor where it says |
| JsonParser.ParseBuffer.ParseAny | cJSON/cJSON.c:1212-1264 | the cursor routines build the grammar's value, leave the cursor where it says, and restore the depth on success |
| JsonParser.ParseBuffer.ParseArrayItem | cJSON/cJSON.c:1341-1432 | the same for arrays, depth counted up and down |
| JsonParser.ParseBuffer.ParseItemsLoop | cJSON/cJSON.c:1375-1412 | the loop over elements with its step back of the cursor |
| JsonParser.ParseBuffer.ParseObjectItem | cJSON/cJSON.c:1497-1603 | the same for objects |
| JsonParser.ParseBuffer.ParseMembersLoop | cJSON/cJSON.c:1527-1580 | the loop over members with its step back of the cursor |
| JsonParser.ParseWithOpts | cJSON/cJSON.c:1000-1077 | the result, the value and the position handed back, on success and on failure |
| JsonNumber.DecimalReadsBack | cJSON/cJSON.c:266-340 | the decimal text of any integer below 10^15 in magnitude reads back as that integer |
| JsonNumberMeaning.NumberMeaning | cJSON/cJSON.c:266-340 | a number of up to 63 characters before a byte that cannot continue it is read whole, and is its whole part and fraction times the power of ten of its exponent, with its sign |
| JsonNumberMeaning.StrtodTakesNumeral | cJSON/cJSON.c:266-340 | the other way: whatever is converted is a numeral in decimal notation and has that value |
| JsonPrinter.PrintBuffer.Ensure | cJSON/cJSON.c:373-458 | space is granted exactly when the position it needs is within the limit of the buffer; growing keeps what was written; a preallocated buffer is never replaced |
| JsonPrinter.PrintBuffer.UpdateOffset | cJSON/cJSON.c:461-471 | measuring the buffer moves the cursor onto the terminator of what was printed |
| JsonPrinter.PrintBuffer.PrintNumber | cJSON/cJSON.c:474-537 | the number's text is printed behind the cursor, or the buffer is full |
| JsonPrinter.PrintBuffer.PrintStringPtr | cJSON/cJSON.c:827-946 | the quoted and escaped text is printed; the escapes counted first are the ones written |
| JsonPrinter.PrintBuffer.PrintValue | cJSON/cJSON.c:1267-1338 | succeeds exactly when text, terminator and one more byte are within the limit, and then the text stands at the cursor; every store is inside what was granted |
| JsonPrinter.PrintBuffer.PrintArray | cJSON/cJSON.c:1435-1494 | the same for arrays |
| JsonPrinter.PrintBuffer.PrintObject | cJSON/cJSON.c:1606-1717 | the same for objects, formatted or not |
| JsonPrinter.Print | cJSON/cJSON.c:1087-1149 | the string returned is the rendering and its terminator, by either way of making the copy |
| JsonPrinter.PrintBuffered | cJSON/cJSON.c:1162-1190 | from any first size the same rendering |
| JsonPrinter.PrintPreallocated | cJSON/cJSON.c:1192-1209 | succeeds exactly when the length given is at least that of the text and two more; nothing beyond the length is touched |
| JsonRoundTrip.StringReadsBack | cJSON/cJSON.c:827-946 | the quoted text of any NUL-free string parses to that string |
| JsonRoundTrip.PrintedTextReadsBack | cJSON/cJSON.c:1087-1149 | for every readable tree within the nesting limit the printed text, formatted or not, parses in full to the same tree |
| JsonRoundTrip.IntegerTreeRoundTrip | cJSON/cJSON.c:1152-1160 | the round trip for every tree of null, booleans, integers below 10^15, NUL-free strings, arrays and objects |
| JsonRoundTrip.AcceptedTextReprints | cJSON/cJSON.c:1000-1077 | for every accepted text whose numbers read back from what is printed for them, printing its tree and parsing that gives the tree again |
| JsonLayout.MinifiedIsUnformatted | cJSON/cJSON.c:1435-1717 | for every readable tree, minifying the printed text, formatted or not, gives exactly the unformatted one |
| JsonLayout.UnformattedIsDense | cJSON/cJSON.c:1435-1717 | for every readable tree, the unformatted text holds no byte up to 32 outside string literals |
| JsonLayout.FormattedIsIndented | cJSON/cJSON.c:1606-1717 | for every readable tree, the formatted text is the unformatted one laid out by an indenter that knows only its bytes: each member on its own line behind a tab for every open object, the closing brace likewise |
| JsonLayout.EscapedIs | cJSON/cJSON.c:827-946 | the form of each escape that is printed, in bytes |
| JsonMinify.Minify | cJSON/cJSON.c:2629-2697 | the array comes to hold the minified text and its terminator, and the rest is as it was |
| JsonMinify.CopyString | cJSON/cJSON.c:2674-2687 | a string literal is copied whole, escapes as pairs |
| JsonMinify.SkipLine | cJSON/cJSON.c:2657-2664 | a line comment is passed over up to its line end |
| JsonMinify.SkipBlock | cJSON/cJSON.c:2665-2673 | a block comment is passed over with its end |
| JsonMinifyMeaning.MinifyKeepsMeaning | cJSON/cJSON.c:2629-2697 | for every text accepted in full, the minified text parses in full to the same tree, and minifying it again changes nothing |
| JsonMinifyPieces.MinifyRemovesExactly | cJSON/cJSON.c:2629-2697 | for every text put together from literals, the bytes 32, 9, 13 and 10, comments and other bytes, minifying leaves exactly the literals and the other bytes; a line comment ends before its line feed and a block comment with the first star and slash |
| JsonMinifyPieces.ClosedIffPieces | cJSON/cJSON.c:2629-2697 | the texts whose literals and block comments are closed are exactly those put together from such pieces |
| JsonMinifyPieces.NoBlankStays | cJSON/cJSON.c:2629-2697 | for every such text, the minified one has none of the four bytes outside string literals |
| JsonMinifyMeaning.MinifyingTwice | cJSON/cJSON.c:2629-2697 | for every text, minifying the minified text changes nothing exactly when no lone slash outside literals and comments has a slash or a star as its next kept byte |
| JsonMinifyMeaning.SecondMinifyingCanChange | cJSON/cJSON.c:2629-2697 | a text, not accepted, whose minified form is minified further |
| JsonCompare.FindItem | cJSON/cJSON.c:1772-1798 | the first member with the name |
| JsonCompare.LookupIsFirst | cJSON/cJSON.c:1772-1798 | the first member with a name is the one found |
| JsonCompare.Compare | cJSON/cJSON.c:2799-2922 | the loops compute the recursive comparison of the two trees |
| JsonCompare.EqualIffSame | cJSON/cJSON.c:2799-2922 | on all trees: equal exactly when both are coherent and their canonical forms, objects as maps, are the same |
| JsonCompare.DistinctEqualIffSame | cJSON/cJSON.c:2875-2915 | on trees with distinct names: equal exactly when the same up to the order of members at every level |
| JsonCompare.EqualIsEquivalence | cJSON/cJSON.c:2799-2922 | symmetric and transitive on all trees, reflexive exactly on the coherent ones |
| JsonCompare.RepeatedNameUnequalToCopy | cJSON/cJSON.c:2875-2915 | a tree with a repeated name that differs from its own copy |
| JsonChildren.GetArrayItem | cJSON/cJSON.c:1743-1760 | the child at an index, null outside the list |
| JsonChildren.AddItemToArray | cJSON/cJSON.c:1844-1871 | the chain of children, links inverse to each other, is the old one with the item appended |
| JsonChildren.InsertItemInArray | cJSON/cJSON.c:2141-2168 | the chain with the item inserted at the index, appended when the index is past the end; nothing for a null array |
| JsonChildren.DetachItemViaPointer | cJSON/cJSON.c:2071-2099 | the chain without the item, whose links are cleared |
| JsonChildren.DetachItemFromArray | cJSON/cJSON.c:2101-2109 | the same by index; nothing when there is none |
| JsonChildren.ReplaceItemViaPointer | cJSON/cJSON.c:2170-2203 | the chain with the replacement in the item's place |
| JsonChildren.DetachAndInsert | cJSON/cJSON.c:2071-2168 | detaching a child and inserting it at the same index restores the list |
| JsonChildren.EditsInverse | cJSON/cJSON.c:2071-2168 | insertion and removal undo each other, and replacing is removing and inserting |
| Crc32.TableIsBitwise | crc/crc32.c:38-91 | each of the 256 table entries is its index put through eight steps of the reflected polynomial |
| Crc32.StepIsBitwise | crc/crc32.c:105-108 | one table step is eight bitwise steps of the register with the byte folded in |
| Crc32.CalcCrc32 | crc/crc32.c:93-111 | the loop computes the complemented bitwise CRC of the buffer, 0 for a null buffer or a negative length |
| Crc32.BitwiseConcat | crc/crc32.c:93-111 | the bitwise form over a concatenation is the form over the second part from where the first left the register |
| Crc32.ChunksAgree | crc/crc32.c:93-111 | feeding a message in any chunks through the origin gives the CRC of the whole |
| Crc32.CheckValue | crc/crc32.c:93-111 | the CRC of the nine digits from 1 to 9 is 0xcbf43926 |
| RingBuffer.Ring.constructor | link_misc/link_ring_buffer.c:40-52 | the ring over a buffer with the given offset and length |
| RingBuffer.Ring.Write | link_misc/link_ring_buffer.c:54-101 | the contents grow by the first bytes that fit, whose number is returned; -1 for null or empty |
| RingBuffer.Ring.Read | link_misc/link_ring_buffer.c:103-145 | the oldest bytes move into the destination in order, the wrap invisible |
| RingBuffer.Run | link_misc/link_ring_buffer.c:54-145 | every run of writes and reads acts as on a plain bounded byte queue, and what came out and what is left is what was there and what went in |
| RingBuffer.FirstInFirstOut | link_misc/link_ring_buffer.c:54-145 | of the plain queue: removed bytes followed by the rest are the first bytes followed by the added ones, over any run |
| Esp8266Demux.Driver.ReadHeader | network/tcpip/esp8266/esp8266_tcpip.c:155-190 | the socket, length and start of the payload that a message announces, or that it is dropped |
| Esp8266Demux.Driver.MsgDealSingle | network/tcpip/esp8266/esp8266_tcpip.c:155-215 | one frame goes to the ring of its socket if it is open and has room, and the next frame's place is returned |
| Esp8266Demux.Driver.MsgDeal | network/tcpip/esp8266/esp8266_tcpip.c:217-248 | the loop over a message is the function that deals its frames one after another |
| Esp8266Demux.Driver.Receive | network/tcpip/esp8266/esp8266_tcpip.c:380-415 | a stream socket gives its oldest bytes, a datagram socket one datagram by its stored length; -1 and no change without a socket, a length or bytes |
| Esp8266Demux.HandedWithinLength | network/tcpip/esp8266/esp8266_tcpip.c:393-401 | a stream socket never hands out more than asked for; a datagram socket stays within it exactly when the datagram does |
| Esp8266Demux.FrameDealtExactly | network/tcpip/esp8266/esp8266_tcpip.c:155-215 | any frame, whatever it announces, is delivered exactly when it names an open socket with room for the payload, and then only that socket's queue changes, a datagram cut where its ring ends; otherwise the rest of the message is dropped and nothing changes |
| Esp8266Demux.U16IsModulo | network/tcpip/esp8266/esp8266_tcpip.c:155-190 | the announced length is its number modulo 2^16 |
| Esp8266Demux.BatchDelivered | network/tcpip/esp8266/esp8266_tcpip.c:155-248 | any back-to-back batch of well-formed frames for open sockets with room extends each socket's byte sequence by exactly its payloads in order |
| Esp8266Demux.DatagramTaken | network/tcpip/esp8266/esp8266_tcpip.c:395-398 | a receive hands out the first datagram whole and leaves the others |
| Esp8266Demux.ShareIsPacked | network/tcpip/esp8266/esp8266_tcpip.c:190-210 | what a batch adds to a datagram socket is its payloads, each behind its length |
| Esp8266Demux.DatagramsHandedOut | network/tcpip/esp8266/esp8266_tcpip.c:155-415 | after a batch, successive receives on a datagram socket return what waited and then the batch's payloads, each whole and in order |
| UsipCrc.TableIsBitwise | usip/usip.c:93-110 | each CRC table entry is its index divided by the polynomial x^8 + x^2 + x + 1 |
| UsipCrc.CrcStepInjective | usip/usip.c:630-633 | one step keeps registers apart that were, and bytes apart that were |
| UsipCrc.OneByteDamageRejected | usip/usip.c:629-641 | a frame with any one byte changed fails the check |
| UsipCrc.CheckValue | usip/usip.c:93-110 | the CRC of the nine digits from 1 to 9 is 0xf4 |
| UsipFrame.EARoundTrip | usip/usip.c:278-316 | an unsigned short survives both conversions exactly when it is below 2^14 |
| UsipFrame.EAMeans | usip/usip.c:278-294 | one byte with its top bit set below 128; above, seven more bits in a byte before it |
| UsipFrame.FieldsInOrder | usip/usip.c:319-394 | the bytes of one packet, field by field |
| UsipFrame.StuffedInOrder | usip/usip.c:396-423 | the bytes on the line for a mark, an escape and a plain byte |
| UsipFrame.BodyCrcOk | usip/usip.c:319-394 | what is built passes the receiver's check |
| UsipFrame.ConvertTlv | usip/usip.c:319-394 | the send buffer holds the frame marks around the fields and their CRC, and its length is returned |
| UsipFrame.SendOneFrame | usip/usip.c:396-423 | what goes on the line is the stuffed body between its marks |
| UsipReceiver.Receiver.ReceiveOneByte | usip/usip.c:514-591 | the routine on the globals is the step function: frame opening, escapes, bad escapes, closing, wrap of buffer and slots |
| UsipReceiver.Receiver.ReceiveAll | usip/usip.c:514-591 | byte by byte it is the run of steps over the line |
| UsipReceiver.AnyLineFits | usip/usip.c:514-591 | whatever bytes come in, frames or not, every slot of an acceptable length describes bytes inside the receive buffer |
| UsipResync.MarkOnlyAtEnds | usip/usip.c:396-423 | no frame mark stands inside a stuffed frame |
| UsipResync.BetweenFramesIgnored | usip/usip.c:514-591 | any bytes between frames change nothing |
| UsipResync.EmptyFrameForgotten | usip/usip.c:529-549 | two marks in a row use no slot, wake nobody and change no byte |
| UsipResync.BadEscapeDrops | usip/usip.c:514-540 | an escape followed by neither code drops the frame wherever it comes, using no slot; a mark there opens the next frame |
| UsipResync.NextFrameFound | usip/usip.c:514-591 | behind a dropped frame and any bytes without a mark the next frame is received whole |
| UsipFraming.FrameReceived | usip/usip.c:396-591 | a frame sent from between frames is kept contiguous at its slot, signalled, and the receiver is between frames again |
| UsipFraming.StreamReceived | usip/usip.c:396-591 | the same for every sequence of frames |
| UsipFraming.PartOnlyOwnSpace | usip/usip.c:514-591 | any part of a frame changes nothing but that frame's own space and slot |
| UsipFraming.RecentFramesIntact | usip/usip.c:396-591 | after any stream of frames with bodies of 1 to 126 bytes, and during any part of the next, the fourteen completed last are intact in the buffer |
| UsipFraming.FifteenthCanBeLost | usip/usip.c:529-536 | fifteen frames after which the next one overwrites the oldest |
| UsipStation.PacketReadsBack | usip/usip.c:643-686 | the reader finds in a packet the fields and the value the builder put there |
| UsipStation.PacketTaken | usip/usip.c:181-229 | a data packet that arrives is acknowledged with its number and sequence and joins the list, the last one running the callback |
| UsipStation.AckTaken | usip/usip.c:655-666 | the acknowledgement waited for sets the semaphore and leaves no packet |
| UsipStation.DamagedTaken | usip/usip.c:629-641 | a frame that fails the CRC sends nothing and adds an empty packet |
| UsipStation.PostsOnlyAwaitedAck | usip/usip.c:605-664 | for every state: a turn posts the sender's semaphore exactly when the frame read passes the CRC and its second byte is the sequence number waited for with the top bit |
| UsipStation.AnswersOnlyData | usip/usip.c:605-691 | for every state: a turn sends an acknowledgement exactly when the frame read passes the CRC and its sequence number has no top bit |
| UsipStation.ReadsOnUnlessStale | usip/usip.c:605-691 | for every state: the next turn reads the next slot, unless the frame was an acknowledgement not waited for |
| UsipStation.ClearsOwnSlot | usip/usip.c:605-691 | for every state: which frames clear the length of their slot; nothing else in the receive buffer changes |
| UsipStation.StaleAckIgnored | usip/usip.c:655-664 | an acknowledgement not waited for posts, sends and delivers nothing and its slot stays the next to be read |
| UsipStation.UnfitFrameRejected | usip/usip.c:615-641 | an empty slot, one longer than 126 bytes and one that fails the CRC send and post nothing and add nothing to the message |
| UsipStation.AckReadsBack | usip/usip.c:593-603 | an acknowledgement carries the last-packet mark, the sequence number with its top bit, the command, the tag 0 and the package number |
| UsipBlocked.StaleAckBlocks | usip/usip.c:181-229 | of the frames behind an acknowledgement not waited for, fourteen at least, whatever they hold, none is answered, posts the semaphore or is delivered |
| UsipEndpoint.Endpoint.ReceiveFrameToList | usip/usip.c:605-691 | the routine on the globals, all its exits: empty slot, too long, CRC error, acknowledgement, data |
| UsipEndpoint.Endpoint.SendAck | usip/usip.c:593-603 | the acknowledgement of a packet goes on the line |
| UsipEndpoint.Endpoint.GetData | usip/usip.c:154-167 | the values of the list in order |
| UsipEndpoint.Endpoint.Insert | usip/usip.c:203-221 | the packet joins the list; with the last one the callback is given the whole message and the list is emptied |
| UsipEndpoint.Endpoint.TakeTurn | usip/usip.c:181-229 | one turn of usip_rec_task; the send buffer is untouched unless an acknowledgement was sent |
| UsipEndpoint.Endpoint.GetSeq | usip/usip.c:425-432 | sequence numbers count up and wrap after 0x7F |
| UsipEndpoint.Endpoint.SendTlvTo | usip/usip.c:434-452 | the retransmission loop against a peer over any link is the recursive send |
| UsipEndpoint.Endpoint.SendDataTo | usip/usip.c:455-511 | the segmentation loop against a peer over any link is the recursive send of the segments |
| UsipDelivery.TransmitTakes | usip/usip.c:434-452 | a transmission that arrives is taken once and acknowledged; one that does not leaves the message as it was |
| UsipDelivery.PacketSentOnce | usip/usip.c:434-452 | succeeds exactly when one of the transmissions waited for arrives, and then the peer took the packet once; on failure once or not at all |
| UsipDelivery.SegmentsNumbered | usip/usip.c:475-510 | the segments join to the data, fit a frame, are full but for the last, and are numbered without reaching the last-packet bit, which only the last carries |
| UsipDelivery.NextSeqWraps | usip/usip.c:425-432 | sequence numbers count modulo 128 |
| UsipDelivery.MessageDelivered | usip/usip.c:181-511 | from rest, for every command below 2^14, every message of 1 to 128 packets and every behaviour of the link: success exactly when each packet gets through in time, and then the callback ran once more with the same command and bytes, both ends are at rest and the next sequence number is one further modulo 128; on error at most once |
| UsipDelivery.ConversationDelivered | usip/usip.c:181-511 | when every send of a sequence succeeded, the callbacks are exactly the messages in order |
| UsipDelivery.ConversationNumbered | usip/usip.c:425-511 | a sequence of successful sends uses one sequence number each, modulo 128 |
| UsipDelivery.TooLongRefused | usip/usip.c:477-479 | more than 128 packets are refused and nothing is sent |
| UsipDelivery.EmptyMessageLost | usip/usip.c:194-225 | over every behaviour of the link: an empty message is never delivered, its send succeeds exactly when one of the first three transmissions arrives, and then the last-packet mark stays set |
| UsipDelivery.SpoiledTakes | usip/usip.c:194-225 | with that mark set, the first packet of a longer message is delivered alone, and a damaged frame makes the callback run for command 0 with no bytes |
| SoftTimer.Scheduler.Add | stimer/stimer.c:100-130 | the linked list is the old one with the timer before the first deadline that is not earlier |
| SoftTimer.Scheduler.Unlink | stimer/stimer.c:81-97 | the linked list without the timer |
| SoftTimer.Scheduler.ScanFirst | stimer/stimer.c:138-161 | one round: the first timer fires and is put back, or is put back and ends the scan |
| SoftTimer.Scheduler.ScanList | stimer/stimer.c:133-162 | the loop terminates with the list and the handler calls of the scan function |
| SoftTimer.ScanFires | stimer/stimer.c:133-162 | each due timer fires exactly once and no other, in deadline order; the same timers remain, sorted: a due one that fires once is stopped with the largest deadline, a due periodic one is started and due a cycle from now, any other is untouched |
| SoftTimer.OneShotFiresOnce | stimer/stimer.c:133-162 | over any run of scans and client operations, a one-shot timer that nobody starts again fires at most once, and not at all when it was not armed |
| SoftTimer.DueAreFirst | stimer/stimer.c:133-162 | in a sorted list the timers that fire are exactly those with a deadline not after now |
| SoftTimer.CreateKeeps | stimer/stimer.c:241-282 | a new timer leaves the list sorted and every start flag set exactly when its deadline is not the maximum, and touches no other timer |
| SoftTimer.StopKeeps | stimer/stimer.c:317-325 | the same for stopping |
| SoftTimer.StartKeeps | stimer/stimer.c:326-334 | the same for starting |
| SoftTimer.RecycleKeeps | stimer/stimer.c:335-345 | the same for a new cycle, which moves the deadline only of a started timer |
| SoftTimer.RemoveKeeps | stimer/stimer.c:81-97 | the same for removal: exactly the timer with the handle is gone |
| SoftTimer.Scheduler.NewTimer | stimer/stimer.c:241-282 | the timer is in the list and the semaphore is posted |
| SoftTimer.Scheduler.Delete | stimer/stimer.c:284-297 | the timer is out of the list and the semaphore is posted |
| SoftTimer.Scheduler.StopTimer | stimer/stimer.c:317-325 | the timer is unarmed at its new place and the semaphore is posted |
| SoftTimer.Scheduler.StartTimer | stimer/stimer.c:326-334 | the timer is due a cycle from now at its new place and the semaphore is posted |
| SoftTimer.Scheduler.RecycleTimer | stimer/stimer.c:335-345 | the timer has its new cycle at its new place and the semaphore is posted |
| SoftTimer.Scheduler.WaitTime | stimer/stimer.c:188-200 | the sleep computed in 32 bits |
| SoftTimerWakeup.WaitCovers | stimer/stimer.c:188-200 | the sleep ends by the first deadline exactly unless the time left is 2^32 - 1 modulo 2^32; it ends at the deadline when that is near enough, and never when no timer is armed |
| SoftTimerWakeup.StepKeepsInv | stimer/stimer.c:172-353 | every move of daemon, clients and clock keeps the invariant |
| SoftTimerWakeup.ScanNeverStuck | stimer/stimer.c:178-185 | a daemon that has woken can always scan |
| SoftTimerWakeup.NoLostWakeup | stimer/stimer.c:172-353 | in every run, while the daemon sleeps: the semaphore is set, or a client is between edit and post, or the first timer is unarmed, or the sleep ends by itself no later than the first deadline |
| SoftTimerWakeup.WakesInTime | stimer/stimer.c:172-203 | once the clients have posted, the daemon can wake as soon as the first deadline, whether or not it had passed when the clock was read, has passed by the time it took from reading the clock to pending |
| BoundedQueue.Queue.PushData | queue/queue.c:89-100 | the routine on the buffer is the push on the record of its fields |
| BoundedQueue.Queue.Pop | queue/queue.c:128-138 | the routine on the buffer is the pop on the record of its fields |
| BoundedQueue.PushAppends | queue/queue.c:89-100 | a push appends when there is room and only then; the circular indices stay consistent |
| BoundedQueue.PopTakes | queue/queue.c:128-138 | a pop takes the oldest message when there is one and only then |
| BoundedQueue.StepKeepsInv | queue/queue.c:103-161 | every step of every producer and consumer keeps the accounts |
| BoundedQueue.QueueRuns | queue/queue.c:103-161 | in every run of any number of threads: the read semaphore, poppers in flight and pushers yet to post add up to the messages, the write semaphore, pushers in flight and poppers yet to post to the free places; one thread at most holds the lock; no raw operation fails; what was popped is a prefix of what was pushed and the rest is in the queue |
| BoundedQueue.WorkSucceeds | queue/queue.c:111-119 | the thread about to push finds room, the thread about to pop finds a message, and a post never exceeds the capacity |
| AtEngine.CommandBlock.Create | at/at.c:159-179 | the command is installed and a stale response is cleared |
| AtEngine.CommandBlock.Clear | at/at.c:181-196 | the block is empty and the next command may enter |
| AtEngine.CommandBlock.MatchData | at/at.c:199-220 | a frame is matched exactly when it contains the installed index, and then its beginning is in the buffer, its length noted and the response posted; else nothing changes |
| AtEngine.StepKeepsInv | at/at.c:159-339 | every step of every caller and of the receiver task keeps the invariant |
| AtEngine.OneCommandInstalled | at/at.c:159-339 | in every run at most one command is installed, and no other caller has passed the command semaphore |
| AtEngine.SemaphoreNeverLost | at/at.c:159-339 | in every run the command semaphore is free exactly when no call holds it, whatever calls fail, time out or give up |
| AtEngine.ResultsAreOwn | at/at.c:312-339 | a non-negative result reports the frame matched last when the length was read; every frame matched while this command was installed contained its index and was matched for it; its buffer begins with the last of them |
| AtEngine.ResultAgreesIff | at/at.c:312-339 | the buffer tells of the frame the result reports exactly when every byte reported is repeated by the last later answer that was long enough to reach it |
| AtEngine.NoLateAnswerAgrees | at/at.c:312-339 | with no frame matched between the read and the clear, however many before, the buffer begins with the frame the result reports |
| AtEngine.FinishedBufferKept | at/at.c:181-220 | a finished command's buffer is never written again, in every continuation of every run |
| AtEngine.SecondAnswerOverwrites | at/at.c:199-339 | a run in which the result is the first frame's length and the buffer has the second frame over it |

## Left out

- Allocation: an allocator that fails, hooks, and the release of trees, strings and detached items.
- JsonPrinter.PrintBuffer.PrintNumber: the printers take trees as values, and the text of a number as a parameter; what the C library prints for a double with 15 or 17 digits is not part of this model. The round trip for integers asks of it only that integers below 10^15 print as plain decimals.
- JsonParser.ParseBuffer.ParseNumberItem: numbers are exact reals; rounding to a double, the saturated `valueint` and a decimal point that depends on the locale are not modelled.
- JsonParser.ParseBuffer.ParseAny: the parser builds trees as values; the linking of items while parsing is the append of `JsonChildren`. A string stands for its C string, up to its first NUL.
- JsonMinify.Minify: texts with an unterminated literal or block comment, where the routine reads past the terminator.
- JsonMinify.CopyString: a literal that is never closed, for the same reason.
- JsonMinify.SkipBlock: a block comment that is never closed, for the same reason.
- JsonCompare.Compare: the shortcut for one pointer compared with itself, items without a valid type, and lookup without regard to case.
- References and constant names (cJSON_IsReference, cJSON_StringIsConst), duplication, and the creation helpers.
- UsipEndpoint.Endpoint.ReceiveFrameToList: frames that pass the CRC but announce more bytes than the packet's array holds.
- UsipEndpoint.Endpoint.TakeTurn: the same frames.
- UsipDelivery.MessageDelivered: lost acknowledgements (there is no removal of duplicates), acknowledgements that fall into a retransmission's use of the shared send buffer, several frames completed before usip_rec_task runs (its semaphore is binary), and a damaged mark that puts the receiver out of phase.
- UsipEndpoint.Endpoint.SendTlvTo: commands of 2^14 and more, which do not survive their encoding (`UsipFrame.EARoundTrip`).
- UsipEndpoint.Endpoint.SendDataTo: the same commands.
- SoftTimer.ScanFires: periodic timers with cycle 0, handlers that call the timer routines, and a clock that moves during the scan.
- SoftTimer.Scheduler.ScanFirst: the same timers and handlers.
- SoftTimer.Scheduler.ScanList: the same timers and handlers, and a clock that moves during the scan.
- SoftTimerWakeup.NoLostWakeup: failing locks and the daemon's exit; a cycle plus the daemon's delay of 2^32 - 1 milliseconds or more; an ioctl posts before it unlocks, which the moves allow but do not demand.
- BoundedQueue.QueueRuns: failing locks and deletion; a raw operation under the mutex is one step.
- AtEngine.ResultsAreOwn: failing locks, stream mode, frames that fill the whole 2048-byte buffer, and the table of out-of-band handlers, any frame being free to go there.
- Esp8266Demux.Driver.MsgDealSingle: a payload announced beyond the memory that holds the message.
- Esp8266Demux.Driver.MsgDeal: the prompt and send-status flags, and a payload announced beyond the message.
- Esp8266Demux.Driver.Receive: the waiting loop, a null buffer, and the ring object of a closed socket.
- Operating-system ports, abstraction layers for sockets, MQTT, CoAP, LwM2M and DTLS, storage, shell, logging, `crc/crc16.c` and the secure C library.
