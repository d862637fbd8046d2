# Verified models of the embedded programs

A Dafny 4.11 project that models the self-contained parts of this repository of embedded C programs and
proves what they are for. Run `dafny verify dfyconfig.toml`. Each file is a model of one component, in the
form the C code has: text and buffers are sequences and arrays of bytes, structures with fields are
classes, loops are loops with invariants. Where the C code changes state, a method is proved to compute a
specification function, and the properties are proved about that function.

- **JSON** (`CJson*.dfy`, `Utf8.dfy`): the parser and the two-pass printer of cJSON, proved inverse to each
  other. What the parser accepts is also given as a grammar in bytes (`CJsonGrammar.dfy`, with strings in
  `CJsonSpelling.dfy` and numbers in `CJsonNumeral.dfy`), and what the printer writes as a layout of it
  (`CJsonLayout.dfy`). The in-place minifier, proved to keep the meaning of every text the parser accepts, and to turn
  formatted into unformatted text; `CJsonComments.dfy` says what it drops. Editing of sibling chains, and the
  recursive copy of a tree on the heap. A number is a real in the parser, an `int` in
  the printer. Reading a malformed `\u` escape, or past the end of an unclosed literal, is a separate result,
  `Undefined`.
- **Gateway** (`ByteQueue.dfy`, `Gateway*.dfy`): a ring buffer with 32-bit indices, frames
  cut out of it, and the loop that tops it up. What is delivered does not depend on how the stream is cut.
  `GatewayFrames.dfy` gives the frames, the answers and the choice of what goes on in bytes.
- **Configuration** (`Ini*.dfy`, `Base64*.dfy`, `ConfigStore.dfy`): scanner and editor of profile files, with
  what is read from any text, said of its lines (`IniReading.dfy`, `IniLines.dfy`), what a write makes of it (`IniWriting.dfy`), the exact condition under which
  a value that was written can be read, and what a write does to the other keys of all sections.
- **Payment** (`Payment*.dfy`, `PosReceiver.dfy`): the two uC/OS loops of the vending machine, and the receive
  interrupt of the card reader (`stm32f2xx_it.c:373-438`, beside `app/`): it hands over only replies whose length and
  code are those of their header, and every such reply comes through whole, whatever noise came before it
  (`PosReceiver.ReplyComesThrough`, `PosReceiver.Receiver.OnByte`). One pass of a loop is one step; the serial lines
  are events, with no assumption on the commands, the replies or the order of the passes. A log of acts is compared
  with the acts that are right; `PaymentExactly` says which acts every pass appends, by the log and the bytes of the
  replies, and `PaymentAnswers` which requests are reported paid. If nothing is charged for 0, every report of success answers the reply to its own
  deduction, whatever is refused. A refused request still replaces the amount of the one that waits, and all that can
  go wrong needs a refused request; that needs the reader loop to make no pass between two charges. The vending
  machine leaves 100 ms between two commands (`MFUN.C:79`) and the reader loop comes round every 10 ticks of 1/300 s
  and 10 ms (`MFUN.C:499, 644`), so the runs of `PaymentFailures` are runs in which the reader task is held up. With a
  reader task that keeps up, or a vending machine that waits for its answers, `PaymentPace` proves that there are
  none.
- **Digests and ciphers** (`Md5*.dfy`, `Crc32*.dfy`, `Tea*.dfy`, `Bits.dfy`, `BitColumns.dfy`): streaming MD5 for any compression
  function, table-driven CRC-32 against polynomial division, TEA as a network of rounds.
- **Flash** (`NorFlash.dfy`, `NorChunks.dfy`, `NorProtect.dfy`): drivers, and the block protection levels. How the chip works is an
  assumption of the model: a page-program command is ignored unless writing is enabled, runs round inside the page,
  and can only clear bits.
- **Lists, tables, time** (`ListHead.dfy`, `HashNvram.dfy`, `HashPolynomial.dfy`, `Clock.dfy`): the intrusive ring list as sequences, the
  hash table as a finite map, the clock against the Gregorian calendar.
- `Bytes.dfy`, `Numbers.dfy` and `Wrappers.dfy` hold what several of these share.

Where the code and its comments differ, the model follows the code: `spi_nor_lock` protects from the offset to the
end whatever the length, a request that is refused because the mailbox is full still replaces the amount of the
one that waits, and the wait for the card reader gives up after eight polls, not nine.

## Model

| member | source | states |
|---|---|---|
| CJsonRoundTrip.RoundTrip | net4g/src/cjson.c:274-331 | for every array or object of strings without NUL, named members and `int` numbers, at every depth, formatted or not: parsing the printed text gives that tree and leaves exactly what follows it |
| CJsonRoundTrip.ValueReads | net4g/src/cjson.c:300-331 | the same for any value in front of any text that cannot prolong a number |
| CJsonRoundTrip.PrintInjective | net4g/src/cjson.c:296-331 | two trees with the same text, in whatever layout and depth, are the same tree |
| CJsonMinify.MinifyKeepsMeaning | net4g/src/cjson.c:608-623 | on every text the parser accepts to its end, with complete escapes: minifying reads inside the text, the result parses to the same tree, and minifying again changes nothing |
| CJsonCompact.MinifyUnformats | net4g/src/cjson.c:608-623 | minifying the printed text of a tree, at any depth and formatted or not, gives exactly its unformatted text |
| CJsonCompact.TreeBecomes | net4g/src/cjson.c:316-521 | the inductive form: in front of any text |
| CJsonMinify.ValueStable | net4g/src/cjson.c:300-313 | the inductive form: a value at the start of a text, in front of a rest that is itself stable |
| CJsonMinify.IdempotentExactly | net4g/src/cjson.c:608-623 | on any text it gets through, a second pass changes nothing if and only if no slash is kept, outside literals, in front of a slash or star that only white space and comments keep apart from it |
| CJsonMinify.MinifyNotIdempotent | net4g/src/cjson.c:608-623 | a concrete text that a second pass changes |
| CJsonMinify.CJsonMinify | net4g/src/cjson.c:608-623 | the in-place loop leaves the minified text and its terminator in the array, and fails exactly on an unclosed literal or block comment |
| CJsonMinify.MinifyRound | net4g/src/cjson.c:611-621 | one round reads at least one byte, and the write position never passes the read position |
| CJsonMinify.CopyBody | net4g/src/cjson.c:619 | a literal is copied up to its closing quote, escaped quotes included |
| CJsonComments.LineCommentDropped | net4g/src/cjson.c:616 | in bytes: two slashes and everything up to the next line feed, or to the end, are dropped |
| CJsonComments.BlockCommentDropped | net4g/src/cjson.c:617-618 | a slash, a star and everything up to the first star with a slash behind it are dropped |
| CJsonComments.ShortBlockDropped | net4g/src/cjson.c:617-618 | the star that begins a block comment may be the one that ends it |
| CJsonComments.LiteralKept | net4g/src/cjson.c:619 | a literal, made of plain bytes and of backslashes with any byte behind them, is kept with its quotes |
| CJsonComments.ByteKept | net4g/src/cjson.c:620 | any other byte but the four blanks is kept |
| CJsonGrammar.DocumentExactly | net4g/src/cjson.c:274-313 | a whole text is accepted with a tree if and only if the grammar of RFC 8259, with wider blanks, numerals and escapes, spells that tree so; the grammar is given in bytes, without any function of the parser |
| CJsonGrammar.PrefixExactly | net4g/src/cjson.c:274-313 | without the demand that nothing follows, a text is accepted with a tree and a rest if and only if it is blanks, such a spelling and the rest |
| CJsonGrammar.TextReads | net4g/src/cjson.c:300-313 | every value the grammar spells is read for what it means, up to its end |
| CJsonGrammar.ReadIsSpelled | net4g/src/cjson.c:300-313 | whatever is read, but a literal that only the end of the text ends, is spelled by the grammar |
| CJsonGrammar.EntriesTextRead | net4g/src/cjson.c:420-453 | the members of an object, with blanks at every place |
| CJsonLayout.PrintIsLaid | net4g/src/cjson.c:316-521 | the printed text, in bytes: where formatted and unformatted text have line ends, tabs and spaces, and the spelling of every value |
| CJsonSpelling.ShortEscapes | net4g/src/cjson.c:172-180 | the table of section 7 of RFC 8259: every letter behind a backslash has its value, whatever follows |
| CJsonSpelling.PieceReads | net4g/src/cjson.c:166-202 | plain bytes, short escapes, `\uXXXX` with digits in either case and surrogate pairs are read for their value, in literal bytes |
| CJsonSpelling.LiteralReads | net4g/src/cjson.c:155-209 | a literal made of such pieces is read piece by piece up to its quote |
| CJsonSpelling.LiteralIsSpelled | net4g/src/cjson.c:155-209 | whatever is read up to a quote is made of such pieces |
| CJsonSpelling.QuotedIsSpelled | net4g/src/cjson.c:228-249 | what is printed for every byte: the escapes of two bytes for quote, backslash and five control characters, `\u00XX` for the others, and the byte itself for all the rest |
| CJsonNumeral.NumeralReads | net4g/src/cjson.c:96-116 | every numeral of section 6 of RFC 8259, and a few more, is read for the value of its decimal digits, moved by its fraction and exponent |
| CJsonNumeral.NumeralOfIs | net4g/src/cjson.c:96-116 | whatever is read as a number is such a numeral |
| CJsonNumeral.IntIsSpelled | net4g/src/cjson.c:118-138 | an `int` is printed with its sign and its decimal digits, without leading zeros |
| CJsonString.BodyFits | net4g/src/cjson.c:155-209 | the first pass over a literal counts at least as many bytes as the second pass writes, for complete escapes |
| CJsonString.OverrunIsUndefined | net4g/src/cjson.c:155-166 | a literal that the first pass runs past has no defined result |
| CJsonString.UnicodeEscapeIsUtf8 | net4g/src/cjson.c:140-201 | a nonzero scalar value as `\uXXXX` or as a surrogate pair becomes its UTF-8 form, the only bytes that decode to it |
| Utf8.DecodeEncode | net4g/src/cjson.c:192-200 | bytes decode to a code point if and only if they are the UTF-8 form of a scalar value (section 3 of RFC 3629) |
| CJsonString.CountedIsExact | net4g/src/cjson.c:216-225 | the counting pass of the printer is exact, not just an upper bound |
| CJsonString.QuotedReads | net4g/src/cjson.c:155-249 | every string without NUL is read back from its printed literal, whatever follows |
| CJsonString.BodyNulFree | net4g/src/cjson.c:155-209 | what is read from a C string holds no NUL |
| CJsonString.ParseString | net4g/src/cjson.c:155-209 | the two passes with their moving pointers compute the specified string and rest, whose spelling `CJsonSpelling` gives in bytes |
| CJsonString.MeasureLiteral | net4g/src/cjson.c:160-163 | the first pass, and when it would run past the text |
| CJsonString.DecodeLiteral | net4g/src/cjson.c:165-205 | the second pass stays inside the buffer measured for it and ends it with NUL |
| CJsonString.TranscodeEscape | net4g/src/cjson.c:170-202 | one escape, with the bit arithmetic of the four lengths; `CJsonSpelling` gives its value in bytes |
| CJsonString.WriteUtf8 | net4g/src/cjson.c:192-200 | the octets, made with the masks of the source and written from the last to the first, are the UTF-8 form |
| CJsonString.PrintStringPtr | net4g/src/cjson.c:216-249 | the literal, in bytes by `CJsonSpelling.QuotedIsSpelled`, and its terminator fill the allocated array exactly |
| CJsonNumber.IntTextReads | net4g/src/cjson.c:96-138 | a printed `int` reads as itself, and the number ends where its text ends |
| CJsonNumber.ParseNumber | net4g/src/cjson.c:96-116 | the loops over sign, digits, fraction and exponent compute the value and the end of the number |
| CJsonNumber.PrintNumber | net4g/src/cjson.c:118-138 | an `int` is printed in decimal, inside the 21 bytes allocated |
| CJsonParse.ParseValue | net4g/src/cjson.c:300-313 | the recursive descent on positions refines the descent on texts, and every success advances |
| CJsonParse.ParseArray | net4g/src/cjson.c:334-359 | arrays, with the error cases |
| CJsonParse.ParseObject | net4g/src/cjson.c:420-453 | objects, with the error cases |
| CJsonParse.ParseMember | net4g/src/cjson.c:433-448 | a name, a colon and a value |
| CJsonParse.ParseWithOpts | net4g/src/cjson.c:274-290 | the whole entry point, with and without the demand that nothing follows |
| CJsonPrint.ItemsFit | net4g/src/cjson.c:362-417 | the size pass of arrays covers the write pass for any children and layout |
| CJsonPrint.MembersFit | net4g/src/cjson.c:456-521 | the size pass of objects covers the write pass for any children, depth and layout |
| CJsonPrint.PrintArray | net4g/src/cjson.c:362-417 | the array printer returns the specified text and never leaves its buffer |
| CJsonPrint.PrintObject | net4g/src/cjson.c:456-521 | the object printer likewise, with its indentation |
| CJsonPrint.PrintEmptyObject | net4g/src/cjson.c:463-473 | the special layout of an empty object |
| CJsonPrint.PrintValue | net4g/src/cjson.c:316-331 | the dispatch over the kinds of values |
| CJsonPrint.PrintNulFree | net4g/src/cjson.c:316-331 | a printed tree is a C string |
| CJsonTree.AddItemToArray | net4g/src/cjson.c:536 | appends; the chain of siblings stays linked both ways |
| CJsonTree.DetachItemFromArray | net4g/src/cjson.c:541-542 | removes and returns the item at an index, negative counting as zero; nothing if there is none |
| CJsonTree.ReplaceItemInArray | net4g/src/cjson.c:548-550 | puts the new item in the place of the old one, whose links are cleared |
| CJsonTree.Strcasecmp | net4g/src/cjson.c:39-44 | zero exactly for names equal but for case, a missing name equal to none but a missing one |
| CJsonTree.SameNameIsEquivalence | net4g/src/cjson.c:39-44 | the comparison is an equivalence |
| CJsonTree.SameFoldInBytes | net4g/src/cjson.c:39-44 | byte by byte the names are the same, or the capital and the small one of a letter |
| CJsonTree.GetArraySize | net4g/src/cjson.c:524 | the number of items |
| CJsonTree.GetObjectItem | net4g/src/cjson.c:526 | the first item with the name |
| CJsonTree.AddItemToObject | net4g/src/cjson.c:537 | appends under a name |
| CJsonTree.DetachItemFromObject | net4g/src/cjson.c:544 | removes the first item with the name and clears its links |
| CJsonTree.ReplaceItemInObject | net4g/src/cjson.c:551 | replaces the first item with the name, if there is one |
| CJsonTree.UpdateItemDefAddNew | net4g/src/cjson.c:552-563 | replaces the first item with the name in whatever case, or appends |
| CJsonTree.UpdateThenGet | net4g/src/cjson.c:526-563 | after an update the new item is the one found |
| CJsonDuplicate.Duplicate | net4g/src/cjson.c:581-606 | an equal tree, without the reference marks, of new items only, each at one place of it; no existing item is written |
| CJsonDuplicate.DuplicateChildren | net4g/src/cjson.c:594-604 | the copies of the children, in order, form a chain under the new item; no item is at two places of the whole |
| CJsonDuplicate.TreeGrows | net4g/src/cjson.c:581-606 | a tree over some items is a tree over more |
| CJsonDuplicate.SameTreeGrows | net4g/src/cjson.c:581-606 | likewise for equality of trees |
| ConfigStore.StoreThenLoad | ikcc_service/src/src/xlinkgateway/Config.c:17-31 | on a file whose headers are all closed, what is stored under a key is loaded again, byte for byte |
| ConfigStore.StoreThenLoadExactly | ikcc_service/src/src/xlinkgateway/Config.c:17-31 | on any file: it is loaded again exactly if `IniFile.TakesValue` holds, else the default is |
| ConfigStore.UnclosedHeaderLosesValue | ikcc_service/src/src/xlinkgateway/Config.c:17-31 | a concrete file on which the value is lost |
| ConfigStore.WriteBase64Encode | ikcc_service/src/src/xlinkgateway/Config.c:26-31 | the C function refines the specification |
| ConfigStore.ReadBase64Decode | ikcc_service/src/src/xlinkgateway/Config.c:17-24 | the C function refines the specification |
| IniFile.WriteThenRead | ikcc_service/src/src/xlinkgateway/inifile.c:71-310 | a value written is read back if and only if the key is there, or its section is there and closed, or every header is closed |
| IniOthers.WriteKeepsOthers | ikcc_service/src/src/xlinkgateway/inifile.c:71-310 | writing a key that is there changes another key, of the same or any other section, if and only if the scan for that key stops at the written line, and then to the new value |
| IniInserts.InsertKeepsOthers | ikcc_service/src/src/xlinkgateway/inifile.c:71-310 | writing a key that is not there into a section that is: another key of any section gets the new value if and only if its scan enters at the last header of that section, the new name is a prefix of it and no line in front holds it; else it finds what it finds in the text with that header on a line of its own, which is the text itself unless a bracket shares the line |
| IniAppends.AppendKeepsOthers | ikcc_service/src/src/xlinkgateway/inifile.c:71-310 | writing a key whose section is not there: every value found in any section stays; of the keys not found, those whose key and section begin with the new names get the value, if every header is closed |
| IniInserts.SharedLineHidesKey | ikcc_service/src/src/xlinkgateway/inifile.c:71-310 | a concrete file, with two headers on a line, on which writing one key hides another |
| IniOthers.ResumesOthers | ikcc_service/src/src/xlinkgateway/inifile.c:71-151 | the scans for two keys, each in its own loop, meet at every line and header up to the written line |
| IniOthers.PrefixIsOverwritten | ikcc_service/src/src/xlinkgateway/inifile.c:126 | a concrete file on which writing one key overwrites another whose name is a prefix of it |
| IniOthers.ScanShifts | ikcc_service/src/src/xlinkgateway/inifile.c:71-151 | texts with the same tail are scanned alike from there on |
| IniFile.ClosedTakesValue | ikcc_service/src/src/xlinkgateway/inifile.c:71-151 | a file whose headers are all closed takes every value |
| IniFile.ScanReplaced | ikcc_service/src/src/xlinkgateway/inifile.c:71-151 | replacing a value moves only its end |
| IniFile.ScanInserted | ikcc_service/src/src/xlinkgateway/inifile.c:71-151 | an entry inserted behind the header of its section is the one found |
| IniFile.ScanAppended | ikcc_service/src/src/xlinkgateway/inifile.c:71-151 | appending to a file without the section does not disturb the scan before it |
| IniFile.UnclosedHides | ikcc_service/src/src/xlinkgateway/inifile.c:71-151 | an unclosed header swallows what is appended behind it |
| IniFile.ScanBounds | ikcc_service/src/src/xlinkgateway/inifile.c:71-151 | the spans found lie in the text and in order |
| IniFile.ParseFile | ikcc_service/src/src/xlinkgateway/inifile.c:71-151 | the nested loops on one index refine the scan, of which `IniReading.ReadsFirst` says what it finds |
| IniFile.ReadProfileString | ikcc_service/src/src/xlinkgateway/inifile.c:164-210 | copies the value that `IniReading.ReadsFirst` gives, or the default, cut to the buffer, and pads with NUL |
| IniFile.WriteProfileString | ikcc_service/src/src/xlinkgateway/inifile.c:243-310 | assembles the new text in its buffer and writes it |
| IniReading.ReadsFirst | ikcc_service/src/src/xlinkgateway/inifile.c:71-210 | said of the lines of a file, which end with LF, CR or both, and in bytes: what is read is what stands behind the first `=` of the first line, behind a header that names the section, whose part before it is a prefix of the key, not the empty one, and which is no comment; the default if and only if there is none |
| IniLines.ReadsAny | ikcc_service/src/src/xlinkgateway/inifile.c:71-210 | and every text is such a file, so this is what is read from any text |
| IniReading.LinesRead | ikcc_service/src/src/xlinkgateway/inifile.c:103-139 | the lines of one section |
| IniReading.PartReads | ikcc_service/src/src/xlinkgateway/inifile.c:79-103 | one section: its header, the white space behind it, and its lines |
| IniWriting.WriteIsEdit | ikcc_service/src/src/xlinkgateway/inifile.c:71-310 | said of the lines of a file: the value of the first line that holds the key, in the first section that has one, is replaced; else a line is put behind the last header that names the section, unless that one is not closed; else a section is appended, on a line of its own; and every other byte stays |
| IniWriting.WritesAny | ikcc_service/src/src/xlinkgateway/inifile.c:71-310 | and every text is such a file |
| Base64.DecodeEncode | ikcc_service/src/src/xlinkgateway/base64.c:15-84 | decoding undoes encoding for every byte string (section 4 of RFC 4648) |
| Base64.EncodedIsPlain | ikcc_service/src/src/xlinkgateway/base64.c:15-48 | encoded text is printable, without blanks or NUL |
| Base64.CharInjective | ikcc_service/src/src/xlinkgateway/base64.c:13 | the 64 characters are different |
| Base64Table.EncodedInLetters | ikcc_service/src/src/xlinkgateway/base64.c:13-48 | in letters: every three bytes are a number of 24 bits of which every six bits give a letter of the alphabet, with zero bits and `=` for what is left over (section 4 of RFC 4648) |
| Base64Table.DecodedInLetters | ikcc_service/src/src/xlinkgateway/base64.c:50-84 | any four characters are decoded as four places in the alphabet, as one number of 24 bits; a character outside the alphabet counts as the last place |
| Base64.Base64Encode | ikcc_service/src/src/xlinkgateway/base64.c:15-48 | the loop with its three exits writes the encoded text and its terminator, and no more |
| Base64.Base64Decode | ikcc_service/src/src/xlinkgateway/base64.c:50-84 | the loop with its search per character writes the decoded bytes and returns their number |
| ByteQueue.Queue.Push | ikcc_service/src/src/xlinkgateway/src/XGByteQueue.c:58-77 | appends as much as fits; the indices run over 32 bits |
| ByteQueue.Queue.Peer | ikcc_service/src/src/xlinkgateway/src/XGByteQueue.c:79-92 | returns the first bytes and changes nothing |
| ByteQueue.Queue.Pop | ikcc_service/src/src/xlinkgateway/src/XGByteQueue.c:94-108 | drops the first bytes |
| ByteQueue.Queue.Size | ikcc_service/src/src/xlinkgateway/src/XGByteQueue.c:110-119 | the number of bytes stored, across the wrap of the indices |
| ByteQueue.RingAppend | ikcc_service/src/src/xlinkgateway/src/XGByteQueue.c:58-77 | writing behind the end of a ring extends its contents |
| ByteQueue.RingDrop | ikcc_service/src/src/xlinkgateway/src/XGByteQueue.c:94-108 | moving the start of a ring drops from its contents |
| Gateway.RunTracks | ikcc_service/src/src/xlinkgateway/src/XGProtocol.c:108-139 | for any cutting of the stream and any pace: the frames taken out are the first frames sent, byte for byte, and the ring holds exactly the unread bytes |
| Gateway.RoomToReceive | ikcc_service/src/src/xlinkgateway/src/XGCore.c:194-235 | after frames are taken out there is always room |
| Gateway.RecvNeverEmpty | ikcc_service/src/src/xlinkgateway/src/XGCore.c:194-235 | in no reachable state is `recv` called with length zero |
| Gateway.SettledLinksAgree | ikcc_service/src/src/xlinkgateway/src/XGProtocol.c:108-139 | two links that got the same bytes and have no complete frame left are equal, however the bytes came |
| Gateway.IdleTurnsDrain | ikcc_service/src/src/xlinkgateway/src/XGCore.c:286-298 | one turn per stored frame delivers the whole stream |
| Gateway.FirstIsFirst | ikcc_service/src/src/xlinkgateway/src/XGProtocol.c:118-130 | a stored prefix of the stream is cut at the frame boundary |
| GatewayFrames.WireIsWellFormed | ikcc_service/src/src/xlinkgateway/src/XGProtocol.c:118 | the type byte, the length of the body in four bytes with the highest first, and the body are a well-formed frame |
| GatewayFrames.WellFormedIsWire | ikcc_service/src/src/xlinkgateway/src/XGProtocol.c:118 | and every well-formed frame has that form |
| GatewayFrames.FirstMessage | ikcc_service/src/src/xlinkgateway/src/XGProtocol.c:113-132 | of a stream of messages, given in bytes, the first is taken out once its last byte is there, whole, and never before |
| GatewayFrames.GotMessages | ikcc_service/src/src/xlinkgateway/src/XGProtocol.c:108-139 | what has been taken out are the first messages |
| GatewayFrames.RelaysByType | ikcc_service/src/src/xlinkgateway/src/XGProtocol.c:140-269 | which messages go on, by their first byte |
| GatewayFrames.AnswersByType | ikcc_service/src/src/xlinkgateway/src/XGProtocol.c:140-229 | the answers in bytes, by the first byte of the message |
| GatewayFrames.AnswersAreWellFormed | ikcc_service/src/src/xlinkgateway/src/XGProtocol.c:160-229 | every frame the gateway sends of its own is well-formed |
| GatewayFrames.NumberOfLogin | ikcc_service/src/src/xlinkgateway/src/XGProtocol.c:62 | the device number in a login, the highest byte first |
| GatewayFrames.CloudGets | ikcc_service/src/src/xlinkgateway/src/XGProtocol.c:231-239 | the messages meant for the cloud go on, in order |
| Gateway.ExtractTracks | ikcc_service/src/src/xlinkgateway/src/XGProtocol.c:108-139 | taking a frame out keeps the link in step with the stream |
| Gateway.TurnTracks | ikcc_service/src/src/xlinkgateway/src/XGCore.c:286-298 | so does a turn of the loop |
| GatewayLoop.CoreThread | ikcc_service/src/src/xlinkgateway/src/XGCore.c:746-857 | the loop on one connection that gets two streams of messages, for any events: the first messages of both are taken out, whole and in order, those meant for the other side are queued for it, with the answers of the gateway to the device, and both links hold exactly the bytes behind them |
| GatewayLoop.Connection.Protocol | ikcc_service/src/src/xlinkgateway/src/XGProtocol.c:29-40 | both extractions, whatever the summed size test says |
| GatewayLoop.Connection.ProtocolClient | ikcc_service/src/src/xlinkgateway/src/XGProtocol.c:108-242 | takes out at most one frame of the device, answers it, and relays what is not for the gateway |
| GatewayLoop.Connection.DispatchClient | ikcc_service/src/src/xlinkgateway/src/XGProtocol.c:140-242 | the answer, the stored login and the new login state |
| GatewayLoop.Connection.DeviceConnectRequest | ikcc_service/src/src/xlinkgateway/src/XGProtocol.c:55-73 | a login needs ten bytes and a device id; a connection with the same id is closed |
| GatewayLoop.Connection.RemoveByDeviceId | ikcc_service/src/src/xlinkgateway/src/XGProtocol.c:42-53 | closes and logs out a connection with that id |
| GatewayLoop.Connection.ProtocolServer | ikcc_service/src/src/xlinkgateway/src/XGProtocol.c:271-323 | the same for frames of the cloud, of any size the ring holds |
| GatewayLoop.Connection.HandleServer | ikcc_service/src/src/xlinkgateway/src/XGProtocol.c:244-269 | relays a frame of the cloud, or leaves it to the callback |
| GatewayLoop.Connection.RecvClient | ikcc_service/src/src/xlinkgateway/src/XGCore.c:194-214 | offers the free room of the ring and stores what comes |
| GatewayLoop.Connection.RecvServer | ikcc_service/src/src/xlinkgateway/src/XGCore.c:216-235 | likewise |
| GatewayLoop.TakeFrame | ikcc_service/src/src/xlinkgateway/src/XGProtocol.c:108-139 | the oldest frame if it is complete, and nothing otherwise; which bytes that is says `GatewayFrames.FirstMessage` |
| GatewayLoop.RelayedFromDevice | ikcc_service/src/src/xlinkgateway/src/XGProtocol.c:132-242 | one frame of the device more: the send queues still hold the relayed frames and the answers, each in order |
| GatewayLoop.RelayedFromCloud | ikcc_service/src/src/xlinkgateway/src/XGProtocol.c:271-323 | one frame of the cloud more |
| Payment.RunKeeps | pos-salemachine/user_app-forUcos-saleOK/app/MFUN.C:308-647 | every run of the two loops, in any interleaving, with any commands and any replies: each act is right after what came before, and the shared variables say how things stand |
| Payment.PollKeeps | pos-salemachine/user_app-forUcos-saleOK/app/MFUN.C:323-368 | the wait for the reply, with its eight polls |
| Payment.HandleKeeps | pos-salemachine/user_app-forUcos-saleOK/app/MFUN.C:151-186 | a command of the vending machine |
| Payment.RequestKeeps | pos-salemachine/user_app-forUcos-saleOK/app/MFUN.C:498-549 | a request taken from the mailbox |
| Payment.ReceiveKeeps | pos-salemachine/user_app-forUcos-saleOK/app/MFUN.C:551-631 | a reply of the card reader; when it is accepted says `PaymentAnswers.AcceptedExactly` |
| Payment.RepeatKeeps | pos-salemachine/user_app-forUcos-saleOK/app/MFUN.C:632-641 | the repetition of a request |
| Payment.OneCorruptedByteIsRejected | pos-salemachine/user_app-forUcos-saleOK/app/MFUN.C:458-480 | any single changed byte behind the start byte is noticed |
| PaymentExactly.ReaderPass | pos-salemachine/user_app-forUcos-saleOK/app/MFUN.C:498-642 | in every run: which request, reply and repetition acts a pass of the reader loop appends, by the log so far and the bytes of the replies; those acts and no others |
| PaymentExactly.MachinePass | pos-salemachine/user_app-forUcos-saleOK/app/MFUN.C:151-368 | in every run: which reports, polls and charges a pass of the loop of the vending machine appends, and no others |
| PaymentAnswers.AcceptedExactly | pos-salemachine/user_app-forUcos-saleOK/app/MFUN.C:551-596 | a reply is accepted for a number if and only if the deduction of that number runs when the request has been taken, no reply is stored, and the reply confirms it: number, start, length, checksum and return code, in bytes |
| PaymentAnswers.ReportedExactly | pos-salemachine/user_app-forUcos-saleOK/app/MFUN.C:323-368 | success is reported if and only if somebody waits for a payment that runs and has its reply, and failure if and only if it is the eighth poll without |
| PaymentAnswers.PaidExactly | pos-salemachine/user_app-forUcos-saleOK/app/MFUN.C:323-596 | with a vending machine that waits for its answers, a request taken is reported paid if and only if a reply that confirms its deduction comes before the eighth poll, and else failed |
| PaymentReplies.HandedOverExactly | pos-salemachine/user_app-forUcos-saleOK/stm32f2xx_it.c:373-438 | which replies the receive interrupt can hand over, in bytes |
| PaymentReplies.AnsweringExactly | pos-salemachine/user_app-forUcos-saleOK/app/MFUN.C:557-565 | which of them carry a number and are sound, in bytes |
| PaymentReplies.ChecksumExactly | pos-salemachine/user_app-forUcos-saleOK/app/MFUN.C:458-480 | the checksum is the one byte with which every bit is set an even number of times |
| PaymentReplies.ShownInBytes | pos-salemachine/user_app-forUcos-saleOK/app/MFUN.C:409-456 | the bytes of the requests to the reader and of the reports to the vending machine |
| PaymentSafety.OkIsPaidExactly | pos-salemachine/user_app-forUcos-saleOK/app/MFUN.C:323-368 | every report of success uses up one accepted reply; it is the reply to the deduction reported if and only if nothing was cancelled since it was accepted |
| PaymentSafety.OkIsPaid | pos-salemachine/user_app-forUcos-saleOK/app/MFUN.C:323-368 | if nothing is charged for 0, requests refused or not: every report of success has the reply with the number of the deduction sent last |
| PaymentSafety.NothingIsCancelled | pos-salemachine/user_app-forUcos-saleOK/app/MFUN.C:499-514 | if nothing is charged for 0, no deduction is ever cancelled, and a full reply mailbox means the flag is up |
| PaymentSafety.OkIsOfDeduction | pos-salemachine/user_app-forUcos-saleOK/app/MFUN.C:323-368 | in any run every report of success is of a deduction that no other report and no cancellation ended before |
| PaymentSafety.OksAreDistinct | pos-salemachine/user_app-forUcos-saleOK/app/MFUN.C:323-368 | two reports of success are of two deductions, the later sent after the earlier report, and have two replies behind them |
| PaymentSafety.DeductionServes | pos-salemachine/user_app-forUcos-saleOK/app/MFUN.C:499-531 | every deduction is of one accepted request, which no other deduction is of, has its position as number in 16 bits, and takes the amount of that request if and only if the latest request refused in between, if any, was for the same amount |
| PaymentSafety.NobodyWaitsExactly | pos-salemachine/user_app-forUcos-saleOK/app/MFUN.C:323-368 | nobody waits exactly if the latest of accepted requests and reports of failure is a report |
| PaymentSafety.UnattendedExactly | pos-salemachine/user_app-forUcos-saleOK/app/MFUN.C:308-647 | a deduction runs unattended if and only if a request was in the mailbox when failure was last reported, none was accepted since, and one refused since was deducted |
| PaymentSafety.ReplyIsLeftExactly | pos-salemachine/user_app-forUcos-saleOK/app/MFUN.C:499-514 | a reply is in the mailbox with the flag down if and only if a deduction was cancelled while its reply was there, and none was sent since |
| PaymentSafety.Conservation | pos-salemachine/user_app-forUcos-saleOK/app/MFUN.C:308-647 | in every reachable state: accepted requests are ignored, deducted, cancelling or waiting; deductions are reported paid, reported failed, cancelled or running; accepted replies are reported or waiting |
| PaymentSafety.RightUnlessRefused | pos-salemachine/user_app-forUcos-saleOK/app/MFUN.C:308-647 | as long as no request is refused, no deduction runs unattended and no reply is left behind |
| PaymentSafety.OkIsPaidUnlessRefused | pos-salemachine/user_app-forUcos-saleOK/app/MFUN.C:323-368 | as long as no request is refused, every report of success has the reply to its own deduction |
| PaymentSafety.DeductedAsAsked | pos-salemachine/user_app-forUcos-saleOK/app/MFUN.C:499-531 | as long as no request is refused, every deduction takes the amount of its request |
| PaymentPace.PromptIsRight | pos-salemachine/user_app-forUcos-saleOK/app/MFUN.C:79-186 | if the reader loop comes round between two charges, no request is refused, and all of this holds whatever is charged and replied |
| PaymentPace.EndsWithinEight | pos-salemachine/user_app-forUcos-saleOK/app/MFUN.C:323-368 | a deduction that somebody waits for is reported or cancelled within eight passes of the loop of the vending machine |
| PaymentPace.PoliteIsServed | pos-salemachine/user_app-forUcos-saleOK/app/MFUN.C:151-186 | if the vending machine charges only when its last accepted request is answered, every request for something is deducted, once, next, with its own amount, none is refused or cancelled, and every deduction is waited for |
| PaymentPace.PoliteIsAnswered | pos-salemachine/user_app-forUcos-saleOK/app/MFUN.C:323-368 | there, once the reader loop comes round, the request is answered within eight passes |
| PaymentFailures.RefusedAmountIsDeducted | pos-salemachine/user_app-forUcos-saleOK/app/MFUN.C:175-184 | a run, with the reader task held up, in which the amount of a refused request is deducted |
| PaymentFailures.NobodyWaits | pos-salemachine/user_app-forUcos-saleOK/app/MFUN.C:323-368 | a run, with the reader task held up for a second, after which a refused request is deducted and nobody waits for its result |
| PaymentFailures.SuccessReplyIsValid | pos-salemachine/user_app-forUcos-saleOK/app/MFUN.C:458-480 | the reply of 34 bytes used in the next run is one the receive interrupt can hand over, and passes the check |
| PaymentFailures.ReplyIsLeft | pos-salemachine/user_app-forUcos-saleOK/app/MFUN.C:499-514 | that run goes on to a cancellation that leaves a reply behind |
| PaymentFailures.StaleReplyIsReported | pos-salemachine/user_app-forUcos-saleOK/app/MFUN.C:323-368 | and to a charge of any amount that is reported paid with no reply of its own |
| PosReceiver.CollectedIsWellBegun | pos-salemachine/user_app-forUcos-saleOK/stm32f2xx_it.c:373-438 | whatever comes over the line, what is collected starts with a start byte and never exceeds the length its own header gives it |
| PosReceiver.ReplyComesThrough | pos-salemachine/user_app-forUcos-saleOK/stm32f2xx_it.c:373-438 | a reply as long as its header says comes through whole, whatever noise without a start byte came before it and whatever comes after it |
| PosReceiver.Receiver.OnByte | pos-salemachine/user_app-forUcos-saleOK/stm32f2xx_it.c:373-438 | one interrupt keeps buffer, count, finish bit and return code those of the stream so far; the branch for a full buffer is never taken |
| PosReceiver.Receiver.Look | pos-salemachine/user_app-forUcos-saleOK/app/MFUN.C:552-556 | a reply is handed over exactly when it is complete, with the length and the code that its header determines |
| PaymentTasks.RunTasks | pos-salemachine/user_app-forUcos-saleOK/app/MFUN.C:308-647 | over any run the code on shared variables takes the steps of the model; the line to the reader carries exactly the deductions, repetitions and cancellations, and the line to the vending machine exactly the reports and refusals, each once and in order |
| PaymentTasks.Tasks.Pass | pos-salemachine/user_app-forUcos-saleOK/app/MFUN.C:308-647 | one pass of either loop is one step |
| PaymentTasks.Tasks.WaitForPos | pos-salemachine/user_app-forUcos-saleOK/app/MFUN.C:323-368 | the wait for the reply; a report goes out on the line to the vending machine and nothing on the other |
| PaymentTasks.Tasks.HandleCommand | pos-salemachine/user_app-forUcos-saleOK/app/MFUN.C:80-284 | the command handler, as far as the payment goes; a refusal is reported at once |
| PaymentTasks.Tasks.TakeRequest | pos-salemachine/user_app-forUcos-saleOK/app/MFUN.C:498-549 | the request branch; the message of a deduction or a cancellation goes out on the line to the reader |
| PaymentTasks.Tasks.TakeReply | pos-salemachine/user_app-forUcos-saleOK/app/MFUN.C:551-631 | the reply branch is the step of the model, of which `PaymentAnswers.AcceptedExactly` says when it accepts; nothing goes out |
| PaymentTasks.Tasks.RepeatRequest | pos-salemachine/user_app-forUcos-saleOK/app/MFUN.C:632-641 | the repetition branch; what goes out is the message of the running deduction, byte for byte |
| PaymentTasks.IsValidPosRet | pos-salemachine/user_app-forUcos-saleOK/app/MFUN.C:458-480 | accepts exactly the messages with the right start, length and checksum |
| PaymentTasks.PackageDeduct | pos-salemachine/user_app-forUcos-saleOK/app/MFUN.C:409-436 | builds the message with number, money and checksum |
| PaymentTasks.PackageCancel | pos-salemachine/user_app-forUcos-saleOK/app/MFUN.C:438-456 | turns the message of a deduction into its cancellation; without a start byte writes nothing |
| PaymentTasks.MessageIsReadable | pos-salemachine/user_app-forUcos-saleOK/app/MFUN.C:409-456 | a message determines command, number and money |
| Md5.DigestOf | ikcc_service/src/src/xlinkgateway/src/XGmd5.c:49-147 | however a message is cut into updates, the digest is that of padding, appending the length and folding the whole (sections 3.1 to 3.4 of RFC 1321) |
| Md5.Context.Update | ikcc_service/src/src/xlinkgateway/src/XGmd5.c:63-104 | the context stands for the message so far: whole blocks folded, the rest waiting, the bits counted modulo 2 to the 64 |
| Md5.Context.Final | ikcc_service/src/src/xlinkgateway/src/XGmd5.c:110-147 | the digest of the message so far, and the context cleared |
| Md5.Context.Pad | ikcc_service/src/src/xlinkgateway/src/XGmd5.c:111-133 | both cases of the padding |
| Md5.CountBits | ikcc_service/src/src/xlinkgateway/src/XGmd5.c:66-71 | the two words with their carry count bits modulo 2 to the 64 |
| Md5.Waiting | ikcc_service/src/src/xlinkgateway/src/XGmd5.c:73 | the counter tells how many bytes wait |
| Md5.PaddedIsInjective | ikcc_service/src/src/xlinkgateway/src/XGmd5.c:110-147 | no two messages are padded alike |
| Md5Bytes.PaddedInBytes | ikcc_service/src/src/xlinkgateway/src/XGmd5.c:110-133 | the byte 80 (hexadecimal), zeros, and the number of bits in eight bytes, the lowest first |
| Md5Bytes.InitInBytes | ikcc_service/src/src/xlinkgateway/src/XGmd5.c:49-57 | the first chaining words, in bytes (section 3.3 of RFC 1321) |
| Md5Bytes.OutputInBytes | ikcc_service/src/src/xlinkgateway/src/XGmd5.c:143-145 | the order of the bytes of the digest |
| Md5.FoldBlock | ikcc_service/src/src/xlinkgateway/src/XGmd5.c:94-99 | one more block |
| Crc32.Crc32 | net4g/src/crc32.c:69-82 | the unrolled loop computes the bitwise remainder of section 8 of RFC 1952, and zero without a buffer |
| Crc32.CrcComposes | net4g/src/crc32.c:69-82 | the value of a text from that of its first part |
| Crc32.BurstIsDetected | net4g/src/crc32.c:69-82 | texts of one length that differ only inside four bytes in a row get different values from the same start |
| Crc32.TableIsDivision | net4g/src/crc32.c:6-59 | each of the 256 entries is eight steps of the division |
| Crc32Check.CrcIsRunning | net4g/src/crc32.c:69-82 | the register starts inverted, takes the text byte by byte from the first on, and is inverted again |
| Crc32Check.ByteIsDivided | net4g/src/crc32.c:62 | for each byte eight bits fall out, and the polynomial EDB88320 is added for those that are set |
| Crc32Check.CheckValue | net4g/src/crc32.c:69-82 | the digits 1 to 9 have the usual check value CBF43926 |
| Crc32.TableLoopDivides | net4g/src/crc32.c:62-66 | table steps over a text are the bitwise division |
| Crc32.Do8 | net4g/src/crc32.c:62-66 | eight table steps |
| PolynomialDivision.TableDivides | net4g/src/crc32.c:62-66 | for any representation: a table of one-byte divisions divides a byte at a time |
| PolynomialDivision.BurstRemains | net4g/src/crc32.c:69-82 | for any representation: four bytes in a row decide the remainder |
| PolynomialDivision.DivideWord | net4g/src/crc32.c:69-82 | four bytes enter the remainder as one word |
| PolynomialDivision.BitsLinear | net4g/src/crc32.c:62-66 | division is linear |
| PolynomialDivision.DivideInjective | net4g/src/crc32.c:69-82 | the rest of a text keeps two remainders apart |
| Tea.TeaRestores | ikcc_service/src/src/xlinkgateway/xlink/tea.c:33-83 | decryption undoes encryption of every buffer under every key, the tail of up to seven bytes included, and the other way round |
| Tea.RoundTrip | ikcc_service/src/src/xlinkgateway/xlink/tea.c:33-83 | both calls in a row leave the buffer as it was |
| Tea.TeaEncrypt | ikcc_service/src/src/xlinkgateway/xlink/tea.c:33-59 | maps the whole blocks and keeps the rest |
| Tea.TeaDecrypt | ikcc_service/src/src/xlinkgateway/xlink/tea.c:61-83 | likewise |
| Tea.EncryptRounds | ikcc_service/src/src/xlinkgateway/xlink/tea.c:4-16 | the loop runs the eight rounds with the running sum |
| Tea.DecryptRounds | ikcc_service/src/src/xlinkgateway/xlink/tea.c:18-31 | the loop takes them back, the last one first |
| Feistel.DecryptEncrypt | ikcc_service/src/src/xlinkgateway/xlink/tea.c:4-31 | n rounds are undone, for any mixing function |
| Feistel.EncryptDecrypt | ikcc_service/src/src/xlinkgateway/xlink/tea.c:4-31 | and redone |
| Tea.SwapInvolution | ikcc_service/src/src/xlinkgateway/xlink/sdkDef.c:12-24 | swapping the bytes twice changes nothing |
| Tea.SwapLoad | ikcc_service/src/src/xlinkgateway/xlink/sdkDef.c:12-24 | whatever the byte order of the processor, a word is read with its first byte highest |
| Tea.StoreSwap | ikcc_service/src/src/xlinkgateway/xlink/sdkDef.c:12-24 | and written so |
| TeaBits.MixExactly | ikcc_service/src/src/xlinkgateway/xlink/tea.c:11-12 | what is mixed of a half, the sum and two words of the key, bit by bit |
| TeaBits.RoundInBits | ikcc_service/src/src/xlinkgateway/xlink/tea.c:9-13 | one round: the running sum, the two halves and the four words of the key |
| TeaBits.BytesInRounds | ikcc_service/src/src/xlinkgateway/xlink/tea.c:33-59 | a block of eight bytes, their first byte highest, goes through eight rounds |
| TeaBits.BufferInBlocks | ikcc_service/src/src/xlinkgateway/xlink/tea.c:33-59 | a buffer is mapped block by block, each by itself, and the rest not at all |
| TeaBits.KeyIsOneWord | ikcc_service/src/src/xlinkgateway/xlink/tea.c:33-83 | the four words of the key are the same word |
| NorFlash.SpiNorWrite | nor-spi-driver/spi-nor.c:775-821 | directly or over chunks of any size, also unlimited ones, on which it ends: every byte of the buffer is programmed once, at its place, and nothing else |
| NorFlash.WriteErased | nor-spi-driver/spi-nor.c:775-821 | on an erased range the flash then holds the buffer there and is unchanged elsewhere |
| NorFlash.WriteThenRead | nor-spi-driver/m25p80.c:162-215 | what was written to an erased range is read back |
| NorFlash.ChunkedWrite | nor-spi-driver/m25p80.c:162-187 | the chunks program a piece of a page byte for byte |
| NorFlash.SpiNorWriteEnds | nor-spi-driver/spi-nor.c:775-821 | the loops end on all pieces, for any chunk size and range, if and only if a message for the shorter of the first and last piece carries something, or nothing is to be written |
| NorChunks.SuitsExactly | nor-spi-driver/m25p80.c:162-185 | which is so with addresses of three bytes, with chunks of two bytes or more, and, unlimited and with four bytes, if at least two bytes lie on the first page and on the last |
| NorFlash.ChunkLoopEnds | nor-spi-driver/m25p80.c:176-185 | the chunk loop ends if and only if a message carries something or nothing is to be written |
| NorFlash.ChunkedRead | nor-spi-driver/m25p80.c:189-215 | reads the range into the buffer |
| NorFlash.SstWrite | nor-spi-driver/spi-nor.c:699-766 | bytes at odd ends, pairs only at even addresses, each byte once |
| NorFlash.RamtdWrite | nor-spi-driver/ralink_spi.c:1247-1380 | rejects what does not fit, else programs each byte once |
| NorFlash.Transmit | nor-spi-driver/ralink_spi.c:515-539 | the queue of 16 bytes is never overfilled and passes every byte once, in order, at any pace of the line |
| NorFlash.Fifo.Put | nor-spi-driver/ralink_spi.c:526-529 | a byte is queued |
| NorFlash.ErasedIsWritten | nor-spi-driver/spi-nor.c:775-821 | programming a flat range of erased bytes leaves the buffer, though programming can only clear bits |
| NorFlash.InsidePage | nor-spi-driver/spi-nor.c:795-816 | inside a page the address of a command does not run round |
| NorProtect.Nor.Lock | nor-spi-driver/spi-nor.c:333-378 | the level becomes the larger of the old one and the smallest region that covers the offset; no other bit changes |
| NorProtect.Nor.Unlock | nor-spi-driver/spi-nor.c:380-425 | the level becomes the smaller of the old one and the largest region that spares the range; no other bit changes |
| NorProtect.LockProtects | nor-spi-driver/spi-nor.c:333-378 | everything from the offset on is protected, and what was before |
| NorProtect.UnlockFrees | nor-spi-driver/spi-nor.c:380-425 | a range that starts below four gigabytes can be written afterwards, and nothing new is protected |
| NorProtect.UnlockFreesExactly | nor-spi-driver/spi-nor.c:380-384 | a range is freed, whatever was protected before, if and only if it was free already or no region that leaves the range at the cut offset alone reaches into it |
| NorProtect.FarRangeStaysLocked | nor-spi-driver/spi-nor.c:380-384 | a range that is not |
| NorProtect.StartFalls | nor-spi-driver/spi-nor.c:349-363 | higher levels protect more |
| NorProtect.SixtyFourths | nor-spi-driver/spi-nor.c:349-363 | how many 64ths of the chip each level protects |
| NorProtect.LevelInBits | nor-spi-driver/spi-nor.c:349-363 | the level is in the bits 2 to 4, and setting it leaves the others alone |
| NorProtect.LevelsCompare | nor-spi-driver/spi-nor.c:365-371 | comparing the masked bits compares the levels |
| ListHead.ListAdd | ikcc_service/src/include/common/list.h:77-80 | in front |
| ListHead.ListAddTail | ikcc_service/src/include/common/list.h:91-94 | at the end |
| ListHead.InsertBetween | ikcc_service/src/include/common/list.h:54-62 | between two neighbours |
| ListHead.Unlink | ikcc_service/src/include/common/list.h:103-119 | the neighbours of an entry are joined |
| ListHead.ListDel | ikcc_service/src/include/common/list.h:121-126 | removes, and poisons the links |
| ListHead.ListDelInit | ikcc_service/src/include/common/list.h:159-163 | removes, and leaves an empty list |
| ListHead.ListReplace | ikcc_service/src/include/common/list.h:139-146 | the new node takes the place of an entry or of the head, even of an empty list |
| ListHead.ListReplaceInit | ikcc_service/src/include/common/list.h:148-153 | and the old one is an empty list |
| ListHead.ListMove | ikcc_service/src/include/common/list.h:170-174 | from one list to the front of another |
| ListHead.ListMoveTail | ikcc_service/src/include/common/list.h:181-186 | or to the end |
| ListHead.ListMoveWithin | ikcc_service/src/include/common/list.h:170-174 | the same inside one list |
| ListHead.ListMoveTailWithin | ikcc_service/src/include/common/list.h:181-186 | the same inside one list |
| ListHead.ListRotateLeft | ikcc_service/src/include/common/list.h:231-239 | the first entry becomes the last |
| ListHead.ListEmpty | ikcc_service/src/include/common/list.h:203-206 | exactly for a list without entries |
| ListHead.ListIsSingular | ikcc_service/src/include/common/list.h:245-248 | exactly for a list of one entry |
| ListHead.ListIsLast | ikcc_service/src/include/common/list.h:193-197 | exactly for the last entry |
| ListHead.CutAfter | ikcc_service/src/include/common/list.h:250-260 | splits after an entry |
| ListHead.ListCutPosition | ikcc_service/src/include/common/list.h:276-288 | splits anywhere; an empty list leaves the other one untouched |
| ListHead.ListSplice | ikcc_service/src/include/common/list.h:309-314 | joins in front |
| ListHead.ListSpliceTail | ikcc_service/src/include/common/list.h:321-326 | joins behind |
| ListHead.ListSpliceInit | ikcc_service/src/include/common/list.h:335-342 | joins and empties |
| ListHead.ListSpliceTailInit | ikcc_service/src/include/common/list.h:352-359 | joins behind and empties |
| ListHead.CutAndSplice | ikcc_service/src/include/common/list.h:250-314 | cutting a list anywhere and splicing the part back restores it |
| ListHead.Inside | ikcc_service/src/include/common/list.h:22-45 | the links of a ring, position by position |
| HashNvram.PerformAll | net4g/src/hash_nvram.c:119-199 | after any sequence of operations a look-up finds what a finite map holds |
| HashNvram.Nvram.Set | net4g/src/hash_nvram.c:140-172 | changes one name, or nothing at all if the value does not fit |
| HashNvram.Nvram.Unset | net4g/src/hash_nvram.c:175-198 | removes one name; its tuple moves to the dead list |
| HashNvram.Nvram.Get | net4g/src/hash_nvram.c:119-137 | finds the value |
| HashNvram.Nvram.GetAll | net4g/src/hash_nvram.c:201-225 | a new list with every live name once, and its value |
| HashNvram.Bucket.Find | net4g/src/hash_nvram.c:149-150 | the search loop |
| HashNvram.Bucket.Set | net4g/src/hash_nvram.c:147-171 | in place for a name that is there, at the head for a new one |
| HashNvram.Bucket.Remove | net4g/src/hash_nvram.c:187-195 | unlinks the tuple |
| HashNvram.IndexOf | net4g/src/hash_nvram.c:19-27 | the hash loop over signed characters, and the bucket |
| HashPolynomial.HashIsPolynomial | net4g/src/hash_nvram.c:19-27 | the hash is a polynomial in 31 over the signed characters, to 32 bits, and the bucket its remainder by 65 |
| HashNvram.Nvram.CellsApart | net4g/src/hash_nvram.c:119-137 | a tuple is in one bucket only |
| HashNvram.Nvram.CoversMore | net4g/src/hash_nvram.c:208-222 | one more bucket listed |
| HashNvram.ChainWithout | net4g/src/hash_nvram.c:187-195 | what unlinking leaves is a chain |
| Clock.KeepTime | ikcc_service/src/src/xlinkgateway/xlink/xlink_system.c:182-237 | after the time is set, for every run of calls at most a minute apart, the clock shows that time advanced by the seconds passed, on the right weekday, in the Gregorian calendar written out: days by year, month and day, with a day more in years that divide by 4 but not by 100, or by 400 |
| Clock.DaysAreCounted | ikcc_service/src/src/xlinkgateway/xlink/xlink_system.c:137-180 | the days before a date by the rules for leap years and months are those of the closed formula |
| Clock.DatesAreDates | ikcc_service/src/src/xlinkgateway/xlink/xlink_system.c:137-180 | a date is one that lies before the first of the next month by that formula |
| Clock.StampUnique | ikcc_service/src/src/xlinkgateway/xlink/xlink_system.c:137-180 | which determines date, weekday and time |
| Clock.DateUnique | ikcc_service/src/src/xlinkgateway/xlink/xlink_system.c:137-180 | no two dates have the same number |
| Clock.TickIsRightExactly | ikcc_service/src/src/xlinkgateway/xlink/xlink_system.c:137-180 | one step is right if and only if the seconds come to less than two minutes |
| Clock.NextDayIsNext | ikcc_service/src/src/xlinkgateway/xlink/xlink_system.c:155-176 | the rollover is to the next date and weekday of the Gregorian calendar, by the closed formula too |
| Clock.SystemTime.SysTimeCount | ikcc_service/src/src/xlinkgateway/xlink/xlink_system.c:137-180 | the nested conditions refine the step, and the table of months follows the year |
| Clock.SystemTime.Loop | ikcc_service/src/src/xlinkgateway/xlink/xlink_system.c:182-195 | a call of the loop keeps the time right |
| Clock.SystemTime.SetSystemTime | ikcc_service/src/src/xlinkgateway/xlink/xlink_system.c:221-237 | sets the time, and the table of months to the twelve lengths of its year |
| Clock.SystemTime.RollDay | ikcc_service/src/src/xlinkgateway/xlink/xlink_system.c:155-176 | the rollover in the code |

## Left out

- Number printing for values that are not `int`, and the rounding of doubles: numbers are reals when read, integers when printed.
- CJsonNumber.ParseNumber: the value is an exact real; rounding and the conversion to `valueint` are not modelled.
- CJsonNumber.PrintNumber: numbers that are no `int`, which are printed in floating point formats, are excluded.
- CJsonPrint.PrintValue: numbers that are no `int` and strings left null are excluded.
- CJsonTree.AddItemToArray: the item comes without links; one that is still in another chain would bring its followers along.
- CJsonTree.AddItemToObject: the item comes without links.
- CJsonTree.UpdateItemDefAddNew: the item comes without links.
- CJsonTree.UpdateThenGet: the item comes without links.
- The error position that the parser keeps in a global variable.
- Trees built by the parser are values; that they are laid out as linked items is modelled only by the editing operations.
- Allocation failure in all programs, and freeing of memory: deleted items and tuples are just no longer reachable.
- Reference items of cJSON, except that a copy does not carry the mark.
- `%` in profile files: the text is used as a format there. Profile files longer than the buffer, and a default longer than the caller's buffer.
- IniFile.WriteProfileString: the file is the text read before, without `%`; opening and writing it cannot fail.
- IniFile.ReadProfileString: the default is there and fits the buffer.
- IniAppends.AppendKeepsOthers: on a file with an unclosed header, names of sections with a line feed in them are excluded.
- ConfigStore.WriteBase64Encode: the file text is without `%`.
- The gateway with several connections: closing a connection with the same device id is modelled on the connection itself.
- Sending from the queues, timers, connecting, reconnecting and the bodies of the callbacks of the gateway.
- Frames with a negative body length: `HeadIsFrame` excludes them, as the code does not check for them.
- GatewayLoop.Connection.ProtocolServer: the order in which relayed frames and answers mix in the send queue is any interleaving; a negative body length is excluded.
- GatewayLoop.Connection.ProtocolClient: a negative body length, and a login over 64 bytes, which the code copies behind `loginData`, are excluded.
- GatewayLoop.TakeFrame: a negative body length is excluded.
- GatewayLoop.CoreThread: one connection, without sending, timeouts, closing by the peer and reconnecting.
- GatewayLoop.Connection.DispatchClient: without the status, time and type fields and the callbacks for pipe data.
- GatewayLoop.Connection.DeviceConnectRequest: without other connections of the same id and the reason of a disconnect.
- GatewayLoop.Connection.RemoveByDeviceId: the walk over all connections is this one connection.
- GatewayLoop.Connection.RecvClient: a closed socket and an error of `recv` are not modelled.
- GatewayLoop.Connection.RecvServer: likewise.
- Payment steps are whole passes of a loop: a switch between the two loops inside a pass is not modelled. Time is, as far as it decides which passes come between two charges.
- PaymentTasks.Tasks.WaitForPos: the wait of one second is a single instant.
- PaymentTasks.Tasks.HandleCommand: the answers to commands other than a charge are not on the line.
- PosReceiver.Receiver.OnByte: an overrun of the receiver loses bytes and is not modelled.
- The decoding of the amount in a CW command, the balance in a reply and all commands that do not touch the payment.
- Md5.Context.Transform: the compression of a block is a parameter; its 64 operations are not written out.
- Big-endian builds of MD5, where the byte order of blocks is reversed.
- The write-enable latch in the SST and Ralink drivers, read-modify-write of status registers there, and the result of a busy line in `raspi_cmd`.
- NorFlash.SpiNorWrite: a range on which it does not end (`SpiNorWriteEnds`) is excluded. Addresses have at most four bytes there, so that no payload is negative; lengths stay below 2 to the 32.
- NorFlash.ChunkedWrite: the piece lies in one page, as `spi_nor_write` makes it.
- NorFlash.SstWrite: a length of zero, for which the loop bound wraps round, is excluded; the write-enable latch and leaving the address-increment mode are not modelled.
- NorFlash.RamtdWrite: without the write-enable latch, unprotecting, and short or failed commands.
- NorProtect.UnlockFrees: a range whose sum of offset and length wraps in 64 bits is excluded.
- Concurrent use of the list functions.
- ListHead.ListDel: the two poison values of deleted links are one null here.
- The unused path of `hash_nvram_set` that replaces a tuple by a reallocated one, and parsing the table from a file.
- Clock.KeepTime: times that run backwards, and times from the year 65535 on, the last of 16 bits.
- Clock.SystemTime.Loop: the network loop, resending and `isSystemInited` are not modelled.
- Sockets, serial ports, threads, Lua, databases, command dispatchers, chip tables and register layouts: input and output, or data without behaviour.
