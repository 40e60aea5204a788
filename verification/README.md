# Verified model of four C components

This project models four C programs in Dafny and proves what they are for.

* **cJSON 1.7.10** (`jsonRead/cJSON.c`): the parser, the printer, the minifier, the comparison, the
  sibling lists, duplication and deletion.
* **CRC-32** (`crc/crc32.c`): the bitwise reflected form, the table form and the forward MPEG-2 form.
* **Stop-and-wait file transfer** (`fileTransmit/fileTransmit.c`): both ends, and every interleaving
  of them over a channel that holds one frame and may lose it or change one byte of it.
* **getopt** (`getopt4windows/getopt.c`): the scanner with its persistent position.

The C code changes things in place, and so does the model: the parse buffer, the print buffer, the
nodes with their sibling pointers, the allocation hooks, the two ends of the transfer and the scanner
are classes, and the loops are loops. Each method is proved against a function on values, and the main
theorems are about those functions:

* A text is accepted, with a tree, if and only if it is the text of a syntax tree that denotes the tree, has
  numbers of at most 63 characters and nests at most 1000 levels deep (`JsonLanguage.LanguageIs`). The syntax
  trees are those of RFC 8259 with the leniencies of the parser written out: `JsonGrammar.Formed`. At every
  place in a text the same holds of a single value (`JsonLanguage.ValueIs`), and of the grammar proper
  nothing else is refused (`JsonAccepts.GrammarDecides`).
* A printed tree is accepted exactly when it nests no deeper than 1000 levels, and gives the tree back
  with every number as strtod reads what sprintf has made of it (`JsonRoundTrip.RoundTrip`); the tree is
  the same exactly when its numbers survive that (`JsonRoundTrip.RoundTripExactly`), as plain integers
  do. A parsed text can always be printed and parsed again (`JsonRoundTrip.Reprint`).
  `JsonPrintParse.PrintThenParse` is the same on the heap.
* Minifying a formatted print gives the unformatted print byte for byte
  (`JsonMinifyLaws.MinifyCommutesWithPrint`), and minifying an accepted text changes nothing about
  what it means (`JsonMinifyLaws.MinifyKeepsMeaning`). What it leaves of any text are its literals and
  its other bytes, without the blanks and comments (`JsonPieces.PiecesStripped`).
* Printing succeeds exactly when the text and two more bytes fit and no allocation fails, whatever
  the starting capacity; growth costs at most twice the capacity in copied bytes.
* A parse that fails at any point frees everything it has allocated; one that succeeds leaves exactly
  the nodes and strings of its tree, and deleting the tree frees exactly those.
* The decoding pass of a string literal never writes past the memory the scanning pass has asked for,
  even when malformed escapes put the two out of step.
* Pointer surgery on sibling lists acts as insertion, removal and update of sequences and keeps whole
  trees whole. So editing an array edits the sequence of its values, and editing an object by key edits
  the map it denotes: `JsonEdit` says how, with repeated keys and failing allocations.
* Comparison decides equality of what trees denote, objects being maps. It fails to be reflexive in
  exactly one case, which `JsonCompare.Reflexive` names and `JsonCompare.ContradictingKeys` shows. On
  nodes that share parts of their trees, what compares equal still denotes the same value.
* The table-driven CRC is the bitwise CRC, which is the mirror image of the forward CRC, which is the
  remainder of a polynomial division; every change within 32 consecutive bits is detected.
* In every run of the transfer the server holds the first chunks of the file exactly as long as no write
  of a good frame comes up short, and success means that it holds the whole file. After a loss nothing
  more is sent and success is out of reach.
* Calling getopt until EOF yields a reference parse. Written options are read back, illegal letters and a
  missing argument included, and every argument list is written that way (`GetOpt.EveryArgv`).

## Layout

| files | content |
|---|---|
| `Bytes`, `Json`, `Memory` | bytes and options; trees as values; the allocation hooks |
| `JsonNumber`, `Utf8`, `JsonString`, `JsonText`, `JsonParse` | numbers, escapes, literals, the printed text and the accepted language, as functions |
| `JsonGrammar` | the grammar of RFC 8259, and the lenient one, as syntax trees |
| `JsonAccepts`, `JsonLanguage`, `JsonRoundTrip`, `JsonPieces`, `JsonMinifyLaws`, `JsonCompare` | the laws between them |
| `JsonScan`, `JsonMinify` | scanner and minifier on buffers |
| `CJson` | nodes on the heap: ownership, building, freeing |
| `JsonParser`, `JsonPrint`, `JsonCompareNodes`, `JsonList`, `JsonDuplicate`, `JsonEdit`, `JsonPrintParse` | parser, printer, comparison, list surgery, copying and editing on nodes |
| `Crc32`, `Crc32Detection`, `Gf2Polynomial`, `Crc32Polynomial`, `Crc32Mirror`, `Crc32Burst`, `Crc32Check` | the CRCs |
| `FileTransmit`, `StopAndWait` | the two programs, and all their interleavings |
| `GetOpt` | the scanner |

A request for memory can fail at any time. `Hooks.live` is the set of blocks handed out and not yet
freed; `Hooks.exhausted` says whether a request has failed, and the entry points clear it.

The parser is more lenient than RFC 8259: every byte up to the blank is white space, control characters may
stand in literals, an escape \u with four bytes that are not all digits stands for a zero byte (and may hide a
quote from the decoding pass), numbers may start with zeros or lack the digits on one side of the point, and a
byte order mark may come first.

`sprintf` is a parameter of the printer: any function from numbers to tokens of at most 25 characters that
writes integers below 10^15 in decimal. What it writes of other numbers is left open, and the theorems
hold for each choice.

The source says that 5 spare bytes are enough for `cJSON_PrintPreallocated`; the code needs 2 (the
terminator and the one more byte that `ensure` asks for), and `JsonPrint.PrintPreallocated` states that.

## Model

| member | source | states |
|---|---|---|
| Crc32.ComputeReflected | crc/crc32.c:55-72 | the two nested loops return the bitwise reflected CRC of every buffer a 16-bit length can describe |
| Crc32.ComputeForward | crc/crc32.c:83-99 | the same for the forward CRC |
| Crc32.InitTable | crc/crc32.c:10-26 | every table entry is its index after eight shifts |
| Crc32.ComputeEntry | crc/crc32.c:16-24 | the inner loop leaves the index after eight shifts |
| Crc32.LookupIsEightSteps | crc/crc32.c:33-43 | for every register and byte, one table lookup leaves what eight shifts leave |
| Crc32.ComputeByTable | crc/crc32.c:33-43 | the table-driven loop returns the CRC of the bitwise one |
| Crc32.StepRLinear | crc/crc32.c:62-69 | one shift is linear over exclusive-or |
| Crc32Detection.UnstepStep | crc/crc32.c:62-69 | one shift can be undone |
| Crc32Detection.RegisterRInjective | crc/crc32.c:55-72 | different registers stay different whatever bytes follow |
| Crc32Detection.ShortBlockInjective | crc/crc32.c:55-72 | up to four bytes are determined by their effect on the register |
| Crc32Detection.DetectsBurst | crc/crc32.c:55-72 | messages of one length that differ only within four consecutive bytes have different CRCs |
| Crc32Detection.ReflectedResidue | crc/crc32.c:55-72 | a message followed by its CRC, low byte first, has CRC 0x2144DF1C |
| Gf2Polynomial.RemainderUnique | crc/crc32.c:74-82 | quotient and remainder by a monic polynomial over GF(2) are unique |
| Gf2Polynomial.Division | crc/crc32.c:83-99 | feeding message bits into a register is long division: what is left is the remainder |
| Crc32Polynomial.ForwardIsRemainder | crc/crc32.c:83-99 | the forward CRC of n bytes is the remainder of M(x) x^32 + (x^31 + ... + 1) x^(8n) by the generator |
| Crc32Polynomial.OnlyRemainder | crc/crc32.c:83-99 | no other word is that remainder |
| Crc32Mirror.MirrorBit | crc/crc32.c:46-54 | bit i of a mirrored word is bit 31 - i of the word |
| Crc32Mirror.MirrorByteBit | crc/crc32.c:46-54 | and bit i of a mirrored byte is bit 7 - i of the byte |
| Crc32Mirror.ReflectedMirrorsForward | crc/crc32.c:55-99 | the reflected CRC is the complement of the mirrored forward CRC of the mirrored bytes, for every message |
| Crc32Mirror.ForwardDetectsBurst | crc/crc32.c:83-99 | the forward CRC detects every change within four consecutive bytes |
| Crc32Mirror.ForwardResidue | crc/crc32.c:83-99 | a message followed by its forward CRC, high byte first, has CRC 0 |
| Crc32Burst.UnstepStepF | crc/crc32.c:90-96 | one forward shift can be undone |
| Crc32Burst.ShortWindowInjective | crc/crc32.c:83-99 | up to 32 bits are determined by their effect on the forward register |
| Crc32Burst.MessageBit | crc/crc32.c:83-99 | the bits fed into the forward register are those of the bytes, high bit first |
| Crc32Burst.ForwardDetectsBits | crc/crc32.c:83-99 | messages of one length that differ only within 32 consecutive bits, starting anywhere, have different forward CRCs |
| Crc32Burst.ReflectedDetectsBits | crc/crc32.c:55-72 | the same for the reflected CRC, which takes each byte low bit first |
| Crc32Check.ReflectedCheck | crc/crc32.c:46-72 | the reflected CRC of "123456789" is 0xCBF43926 |
| Crc32Check.ForwardCheck | crc/crc32.c:74-99 | the forward CRC of "123456789" is 0x0376E6E7 |
| Crc32Check.GeneratorIs | crc/crc32.c:74-82 | the generator is x^32 + x^26 + x^23 + x^22 + x^16 + x^12 + x^11 + x^10 + x^8 + x^7 + x^5 + x^4 + x^2 + x + 1 |
| FileTransmit.ComputeChecksum | fileTransmit/fileTransmit.c:82-91 | the loop returns the sum of the bytes modulo 2^32 |
| FileTransmit.ChecksumIs | fileTransmit/fileTransmit.c:82-91 | the checksum of one byte is the byte, and checksums of joined texts add up modulo 2^32 |
| FileTransmit.ChecksumDetectsByte | fileTransmit/fileTransmit.c:82-91 | one changed byte always changes the checksum |
| FileTransmit.ChunkCount | fileTransmit/fileTransmit.c:176-200 | size / 1488 + 1 chunks cover the file, the last one short, sizes 0 and multiples of 1488 included |
| FileTransmit.Chunk | fileTransmit/fileTransmit.c:176-185 | chunks have at most 1488 bytes, only the last is shorter, and each extends the prefix before it |
| FileTransmit.Stream.Read | fileTransmit/fileTransmit.c:176-178 | reading raises end-of-file only when it comes up short |
| FileTransmit.SendFileData | fileTransmit/fileTransmit.c:165-205 | with every send succeeding and every reply SUCCESS exactly the packets of the file are sent; otherwise those up to the first failing send or refusal, and -1 is returned |
| FileTransmit.Receiver.CreateFile | fileTransmit/fileTransmit.c:291-322 | the new state and result, whether or not the file opens |
| FileTransmit.Receiver.RecvFileData | fileTransmit/fileTransmit.c:324-355 | the new file, count and result for every frame and every short write |
| FileTransmit.Receiver.FileRecv | fileTransmit/fileTransmit.c:357-410 | the replies to a list of frames, unknown ones included, and the state after it |
| FileTransmit.ServeOne | fileTransmit/fileTransmit.c:373-394 | the reply to one frame of each kind, unknown ones included, and what it leaves behind |
| FileTransmit.ServeStops | fileTransmit/fileTransmit.c:362-396 | serving goes on exactly until a failure or the end frame; every reply before the last is SUCCESS |
| FileTransmit.PacketStored | fileTransmit/fileTransmit.c:324-355 | an untouched packet extends the stored prefix by its chunk, or reports a write error |
| FileTransmit.ChangedPacketRefused | fileTransmit/fileTransmit.c:324-355 | a packet with one payload byte changed is refused and leaves no trace |
| FileTransmit.WholeFileServed | fileTransmit/fileTransmit.c:165-410 | what the client sends is stored as the whole file, every reply is SUCCESS, and the count is size / 1488 + 1 |
| StopAndWait.NextKeepsInv | fileTransmit/fileTransmit.c:165-410 | every step of client, channel and server keeps the invariant of the protocol |
| StopAndWait.RunKeepsInv | fileTransmit/fileTransmit.c:165-410 | so it holds in every state of every run |
| StopAndWait.DataServed | fileTransmit/fileTransmit.c:324-355 | a data frame, changed in transit or not, adds exactly the expected chunk or is refused |
| StopAndWait.StoredIsPrefix | fileTransmit/fileTransmit.c:165-410 | in every state of every run the server's file is the first recvCount chunks if and only if no write of a good frame has come up short; the client's count is recvCount or one less, and after a short write the server leaves |
| StopAndWait.NoShortWrite | fileTransmit/fileTransmit.c:324-355 | so without a short write the file is a prefix in every state |
| StopAndWait.StepTears | fileTransmit/fileTransmit.c:324-355 | a step tears the file exactly when it writes part of a good frame |
| StopAndWait.TornPossible | fileTransmit/fileTransmit.c:340-346 | every file of two bytes or more can be torn: some run gets there |
| StopAndWait.SuccessMeansTransferred | fileTransmit/fileTransmit.c:207-284 | fileSend returns SUCCESS only if the server holds the whole file in size / 1488 + 1 chunks |
| StopAndWait.TransferPossible | fileTransmit/fileTransmit.c:207-410 | every file can be transferred: some run ends with SUCCESS |
| StopAndWait.LossIsFinal | fileTransmit/fileTransmit.c:134-151 | in every run, once the client waits for a reply that cannot come, nothing is ever sent again, the server's file stays as it is and fileSend does not return SUCCESS |
| StopAndWait.LosingSticks | fileTransmit/fileTransmit.c:134-151 | losing any frame or reply leads there |
| StopAndWait.LostNeverSucceeds | fileTransmit/fileTransmit.c:134-151 | so a run in which a frame or reply of a waiting client is lost never returns SUCCESS |
| GetOpt.KindIs | getopt4windows/getopt.c:45-55 | a letter is illegal if and only if it is a colon or not in the option string, and takes an argument if and only if a colon stands right behind its first occurrence |
| GetOpt.KindWritten | getopt4windows/getopt.c:45-55 | in an option string a, c, b with c not in a, option c takes an argument if and only if b starts with a colon |
| GetOpt.Scanner.constructor | getopt4windows/getopt.c:25-32 | what is to be delivered at first is the reference parse of the words behind the program name |
| GetOpt.Scanner.Next | getopt4windows/getopt.c:30-75 | each call delivers the next entry of the reference parse and moves on; at EOF sp is 1 and optind is at the first operand |
| GetOpt.Scanner.Advance | getopt4windows/getopt.c:49-52 | one character on in a group, and to the next word at its end |
| GetOpt.Scanner.TakeArgument | getopt4windows/getopt.c:55-66 | the argument is the rest of the word, or the next word, or missing |
| GetOpt.Scanner.Run | getopt4windows/getopt.c:30-75 | calling until EOF terminates on every argv and delivers the reference parse |
| GetOpt.ReadsBack | getopt4windows/getopt.c:30-75 | words written from groups of letters, legal or not, with attached, separate or missing arguments, with or without `--`, are read back as written: illegal letters and a missing argument give '?' and leave optarg alone |
| GetOpt.ScanWritten | getopt4windows/getopt.c:30-75 | scanning such an argv to its end returns the options and stops at the operands |
| GetOpt.EveryArgv | getopt4windows/getopt.c:30-75 | every argument list is written that way, so what is read back is said of all of them |
| Memory.Hooks.Allocate | jsonRead/cJSON.c:120-126 | a new block, or a failure that is remembered |
| Memory.Hooks.Reallocate | jsonRead/cJSON.c:423-435 | the old block goes and its contents stay, or nothing changes |
| JsonNumber.WindowIs | jsonRead/cJSON.c:280-312 | the longest run of number characters, of at most 63 |
| JsonNumber.ValueInt | jsonRead/cJSON.c:322-334 | valueint is the number without its fraction where that fits an int, INT_MAX above and INT_MIN below |
| JsonNumber.StrtodOfIntText | jsonRead/cJSON.c:314-318 | strtod reads the decimal form of every integer back, to its end |
| JsonNumber.StrtodOfToken | jsonRead/cJSON.c:314-318 | and every number of the grammar of section 6 of RFC 8259, with its value |
| JsonNumber.StrtodLongest | jsonRead/cJSON.c:314-318 | no number at the head of a text is longer than what strtod takes |
| JsonNumber.NatOfIs | jsonRead/cJSON.c:314-318 | the value of digits is their value by place |
| JsonNumber.Power10Sum | jsonRead/cJSON.c:314-318 | exponents scale by powers of ten: 10^1 is 10, and 10^(a + b) is 10^a 10^b for all integers |
| JsonNumber.ValueExamples | jsonRead/cJSON.c:314-318 | "-12.25e1" is -122.5, and "5E-1" is 0.5 |
| Utf8.EncodeDecodes | jsonRead/cJSON.c:640-687 | every scalar value is written in a well-formed form that decodes to it |
| Utf8.DecodeEncodes | jsonRead/cJSON.c:640-687 | that form is the only one, so the shortest |
| Utf8.HexDigitIs | jsonRead/cJSON.c:545-563 | a byte is a digit of value d if and only if it is character d of "0123456789abcdef" or of "0123456789ABCDEF" |
| Utf8.ReadEscape | jsonRead/cJSON.c:577-638 | what is accepted is a scalar value, never a surrogate, and takes six or twelve characters |
| Utf8.ReadsUnit | jsonRead/cJSON.c:587-638 | a \u escape outside the surrogates gives its code unit and takes six characters; a lone low surrogate is rejected |
| Utf8.ReadsPair | jsonRead/cJSON.c:603-633 | a surrogate pair gives the code point of section 2.2 of RFC 2781 and takes twelve |
| Utf8.RejectsLoneHigh | jsonRead/cJSON.c:603-628 | a high surrogate without a low one behind it is rejected |
| Utf8.EscapeToUtf8 | jsonRead/cJSON.c:577-695 | whatever escape is accepted, the bytes written decode to its code point |
| JsonString.EscapeIs | jsonRead/cJSON.c:893-939 | exactly 8, 9, 10, 12, 13, 34 and 92 are printed as a backslash and a letter, every other byte below 32 as \u00 and two lower-case digits, all else as it is |
| JsonString.QuoteIs | jsonRead/cJSON.c:827-946 | a string is printed byte by byte, in order, between quotes |
| JsonString.DecodeEscaped | jsonRead/cJSON.c:827-946 | reading what was escaped for printing gives the string back |
| JsonString.PieceFits | jsonRead/cJSON.c:746-799 | a turn of the decoding loop never writes more than the scanning pass has counted, in step with it or not |
| JsonString.DecodedFits | jsonRead/cJSON.c:711-802 | for every byte string the decoded literal and its terminator fit the memory asked for |
| JsonText.RenderCString | jsonRead/cJSON.c:461-471 | printed text has no zero byte, so strlen finds the end of it |
| JsonScan.SkipWhitespace | jsonRead/cJSON.c:963-981 | the offset moves to the next visible character and never off the terminator |
| JsonScan.CopyNumber | jsonRead/cJSON.c:282-311 | the copying loop yields the window |
| JsonScan.ScanLiteral | jsonRead/cJSON.c:711-733 | the scanning loop finds the closing quote and counts the skipped backslashes, or fails where there is none |
| JsonScan.ParseHex4 | jsonRead/cJSON.c:540-573 | the value of four hexadecimal digits, zero if one is not |
| JsonScan.WriteUtf8 | jsonRead/cJSON.c:672-689 | exactly the bytes of the code point are written, from the last to the first |
| JsonScan.Utf16LiteralToUtf8 | jsonRead/cJSON.c:577-695 | characters read and bytes written agree with the escape, and nothing else changes |
| JsonScan.DecodePiece | jsonRead/cJSON.c:748-798 | one turn of the decoding loop: what is read and written, or that it fails |
| JsonScan.DecodeLiteral | jsonRead/cJSON.c:744-799 | the decoding loop stays inside the memory asked for and leaves the decoded literal, or fails exactly where it is malformed |
| JsonParse.SkipWs | jsonRead/cJSON.c:963-981 | what is left starts with a visible character or is the last byte |
| JsonParse.ParseValue | jsonRead/cJSON.c:1212-1264 | accepting a value consumes at least one byte, so parsing ends on every input |
| JsonParse.ParsedNesting | jsonRead/cJSON.c:1346-1350 | no accepted tree nests deeper than the limit |
| JsonAccepts.NumberRead | jsonRead/cJSON.c:266-340 | a number of at most 63 characters is read with its value, and a longer one is cut short |
| JsonAccepts.StringRead | jsonRead/cJSON.c:698-824 | a literal is read as the bytes its characters and escapes stand for, malformed ones included |
| JsonAccepts.ValueRead | jsonRead/cJSON.c:1212-1603 | a value is accepted within the limits and gives its tree, whatever may follow it; outside them it is not read to its end |
| JsonGrammar.FitsMeans | jsonRead/cJSON.c:1346-1350 | the limits, checked on the way down, are short numbers and the nesting of the whole tree |
| JsonAccepts.GrammarDecides | jsonRead/cJSON.c:1000-1603 | a text of RFC 8259, with white space around it, is accepted if and only if its numbers have at most 63 characters and it nests at most 1000 levels, and gives the tree it denotes |
| JsonAccepts.TextRead | jsonRead/cJSON.c:1000-1603 | the same of every lenient text |
| JsonAccepts.StrictUnclosed | jsonRead/cJSON.c:711-733 | in a literal of RFC 8259 the scanning pass finds no earlier quote |
| JsonLanguage.StringParsed | jsonRead/cJSON.c:698-824 | an accepted literal is made of characters and escapes, and gives the bytes they stand for |
| JsonLanguage.NumberParsed | jsonRead/cJSON.c:266-340 | an accepted number is the longest numeral of at most 63 characters, and gives its value |
| JsonLanguage.ValueParsed | jsonRead/cJSON.c:1212-1603 | an accepted value is the text of a syntax tree within the limits, and gives the tree it denotes |
| JsonLanguage.ValueIs | jsonRead/cJSON.c:1212-1603 | a value is accepted, with a tree and a rest, if and only if the text is that of a syntax tree within the limits that denotes the tree, followed by the rest, and a number runs on as far as it can |
| JsonLanguage.LanguageIs | jsonRead/cJSON.c:1000-1077 | a C string is accepted to its end, with a tree, if and only if it is the text of a document within the limits that denotes the tree |
| JsonLanguage.DocumentRead | jsonRead/cJSON.c:1000-1077 | a document, byte order mark and white space included, is accepted if and only if it is within the limits |
| JsonLanguage.AcceptedPrefix | jsonRead/cJSON.c:1030-1062 | without the demand for a terminator the end of parsing is right behind the value |
| JsonLanguage.MarkedAlike | jsonRead/cJSON.c:984-997 | a text and the same text behind a byte order mark parse alike, unless it starts with another mark |
| JsonRoundTrip.WrittenText | jsonRead/cJSON.c:1267-1717 | a print is a text of RFC 8259 with the white space of the layout: a blank behind a comma in an array; in an object a line feed and tabs in front of each key and of the closing brace, and a tab behind the colon |
| JsonRoundTrip.ValueBack | jsonRead/cJSON.c:1212-1717 | a printed value is parsed back, its numbers reread, whatever depth it is at and whatever follows it |
| JsonRoundTrip.TooDeep | jsonRead/cJSON.c:1346-1350 | a printed tree that nests too deeply is rejected |
| JsonRoundTrip.RoundTrip | jsonRead/cJSON.c:1000-1717 | either print of any tree is accepted if and only if it nests at most 1000 levels, and then gives the tree back with its numbers reread |
| JsonRoundTrip.RoundTripExactly | jsonRead/cJSON.c:1000-1717 | and exactly the tree if and only if, besides, strtod reads back every number that sprintf has written |
| JsonRoundTrip.PlainIsFaithful | jsonRead/cJSON.c:474-537 | which integers below 10^15 always satisfy |
| JsonRoundTrip.Reprint | jsonRead/cJSON.c:1000-1717 | every accepted text, printed either way, is accepted again and gives the same tree with its numbers reread, so the same tree when they are plain integers |
| JsonMinify.SkipBlock | jsonRead/cJSON.c:2669-2677 | the loop over a block comment stops at its end |
| JsonMinify.SkipLine | jsonRead/cJSON.c:2661-2668 | the loop over a line comment stops at the line feed or the terminator |
| JsonMinify.Step | jsonRead/cJSON.c:2644-2696 | each turn drops or keeps exactly the token at the read cursor and leaves the unread text alone |
| JsonMinify.CopyString | jsonRead/cJSON.c:2678-2691 | a literal is copied whole, escaped quotes included |
| JsonMinify.Minify | jsonRead/cJSON.c:2633-2701 | rewriting in place leaves exactly the stripped text, and the write cursor never overtakes the read cursor |
| JsonPieces.PiecesStripped | jsonRead/cJSON.c:2633-2701 | of a text made of blanks, comments, literals and other bytes the literals and other bytes are left, in order |
| JsonPieces.PiecesOf | jsonRead/cJSON.c:2633-2701 | every text without an open comment or string is made of such pieces |
| JsonMinifyLaws.MinifyCommutesWithPrint | jsonRead/cJSON.c:2633-2701 | minifying the formatted print of any tree gives its unformatted print, however numbers are written |
| JsonMinifyLaws.ValueAlike | jsonRead/cJSON.c:2633-2701 | a value and its stripped text parse to the same tree and leave the same rest |
| JsonMinifyLaws.MinifyKeepsMeaning | jsonRead/cJSON.c:2633-2701 | the minified form of an accepted text is accepted and gives the same tree |
| JsonCompareNodes.CaseInsensitiveStrcmp | jsonRead/cJSON.c:97-118 | the loop returns zero exactly when both strings are there and agree in lower case |
| JsonCompareNodes.Strcmp | jsonRead/cJSON.c:2854-2857 | zero exactly when the strings in the two buffers are the same |
| JsonCompareNodes.GetObjectItem | jsonRead/cJSON.c:1772-1802 | the node of the first member whose key is the name itself, or without case sensitivity differs from it at most in the case of ASCII letters; null when there is none |
| JsonCompareNodes.PlaceAgrees | jsonRead/cJSON.c:1772-1802 | the place of a key is the first that agrees, in these terms |
| JsonCompareNodes.FindIsFirst | jsonRead/cJSON.c:1772-1802 | that node stands for what the look-up by key finds in the tree |
| JsonCompareNodes.Compare | jsonRead/cJSON.c:2803-2926 | for any two nodes: trees that are Equal compare equal, what compares equal denotes the same value, and a node equals itself; for two that share nothing it is exactly Equal |
| JsonCompareNodes.CompareItems | jsonRead/cJSON.c:2861-2883 | the loop over two arrays stops at the first difference, in length too; sharing as for Compare |
| JsonCompareNodes.CompareMembers | jsonRead/cJSON.c:2889-2918 | one pass over an object: every member finds its equal in the other; sharing as for Compare |
| JsonCompare.AgreeIs | jsonRead/cJSON.c:97-118 | two keys agree if and only if they are equal, or without case sensitivity have the same length and differ at most in the case of ASCII letters |
| JsonCompare.LowerByteIs | jsonRead/cJSON.c:110-117 | lower case takes 'A' to 'Z' to 'a' to 'z' and leaves every other byte |
| JsonCompare.EqualDecides | jsonRead/cJSON.c:2803-2926 | two trees compare equal if and only if they denote the same value, objects being maps, and neither contradicts itself |
| JsonCompare.Symmetric | jsonRead/cJSON.c:2803-2926 | comparison is symmetric on all trees, in both case modes |
| JsonCompare.Transitive | jsonRead/cJSON.c:2803-2926 | and transitive |
| JsonCompare.Reflexive | jsonRead/cJSON.c:2803-2926 | a tree equals itself copied if and only if repeated keys agree on their values, so whenever keys are distinct |
| JsonCompare.ContradictingKeys | jsonRead/cJSON.c:2876-2919 | an object that gives one key two values does not equal its own copy |
| JsonCompare.MutuallyCovered | jsonRead/cJSON.c:2889-2918 | two objects each of whose members are found with the same value in the other denote the same map |
| JsonPrint.PrintBuffer.constructor | jsonRead/cJSON.c:1093-1103 | a buffer with nothing written |
| JsonPrint.PrintBuffer.Ensure | jsonRead/cJSON.c:373-458 | room is made, with the text and the byte behind it kept and the capacity at least doubled, exactly when the limit allows it and no allocation fails; bytes copied stay below twice the capacity |
| JsonPrint.PrintBuffer.Resize | jsonRead/cJSON.c:423-457 | the move to a bigger block, or the loss of the buffer |
| JsonPrint.PrintBuffer.UpdateOffset | jsonRead/cJSON.c:461-471 | strlen from anywhere in the text finds its end |
| JsonPrint.PrintBuffer.PrintLiteral | jsonRead/cJSON.c:1278-1303 | the literal and its terminator are appended, or there is no room |
| JsonPrint.PrintBuffer.PrintNumber | jsonRead/cJSON.c:474-537 | what sprintf makes of the number is appended, or there is no room |
| JsonPrint.PrintBuffer.CountEscapes | jsonRead/cJSON.c:854-878 | the counting pass finds the length of the string and how much longer its escaped form is |
| JsonPrint.PrintBuffer.WriteCharacters | jsonRead/cJSON.c:886-941 | the writing pass leaves the escaped string in the room counted for it, by copying when there is nothing to escape |
| JsonPrint.PrintBuffer.PrintString | jsonRead/cJSON.c:827-946 | the quoted string is appended, or there is no room |
| JsonPrint.PrintBuffer.PrintValue | jsonRead/cJSON.c:1267-1338 | exactly the text of the value is appended, and the depth is restored |
| JsonPrint.PrintBuffer.PrintArray | jsonRead/cJSON.c:1435-1494 | the same for an array |
| JsonPrint.PrintBuffer.PrintElements | jsonRead/cJSON.c:1458-1482 | the walk along the elements, separators between them |
| JsonPrint.PrintBuffer.PrintElement | jsonRead/cJSON.c:1460-1481 | one element, with a separator unless it is the last |
| JsonPrint.PrintBuffer.PrintObject | jsonRead/cJSON.c:1606-1717 | the same for an object, with its tabs and line feeds |
| JsonPrint.PrintBuffer.PrintMembers | jsonRead/cJSON.c:1633-1697 | the walk along the members |
| JsonPrint.PrintBuffer.PrintName | jsonRead/cJSON.c:1635-1668 | indentation, quoted key and colon |
| JsonPrint.PrintBuffer.PrintMember | jsonRead/cJSON.c:1635-1696 | one member, with its comma unless it is the last |
| JsonPrint.Print | jsonRead/cJSON.c:1087-1149 | a block holding just the text and its terminator, exactly when text and two bytes fit an int and no allocation fails; nothing else stays allocated |
| JsonPrint.Trim | jsonRead/cJSON.c:1112-1140 | a block of just the right size takes the place of the buffer, with `realloc` or without |
| JsonPrint.PrintBuffered | jsonRead/cJSON.c:1162-1190 | the same from any starting capacity |
| JsonPrint.PrintPreallocated | jsonRead/cJSON.c:1192-1209 | succeeds if and only if the buffer is two bytes longer than the text; the promised five are enough |
| CJson.NewItem | jsonRead/cJSON.c:202-211 | a blank node, or a failure |
| CJson.Delete | jsonRead/cJSON.c:214-235 | a chain of siblings with everything below it is freed, each block once, and nothing else |
| CJson.Append | jsonRead/cJSON.c:1378-1396 | a new node at the end of a chain |
| CJson.Adopt | jsonRead/cJSON.c:1415-1423 | a finished chain becomes the children of a container, which stays a tree |
| JsonParser.ParseBuffer.ParseNumber | jsonRead/cJSON.c:266-340 | accepts what JsonParse.ParseNumber accepts, and the node holds the number |
| JsonParser.ParseBuffer.ReadLiteral | jsonRead/cJSON.c:706-823 | a new terminated block with the decoded literal, or nothing left allocated |
| JsonParser.ParseBuffer.ParseString | jsonRead/cJSON.c:698-824 | the same, in a node |
| JsonParser.ParseBuffer.ParseValue | jsonRead/cJSON.c:1212-1264 | success exactly when the text is accepted and no allocation fails; then the offset has moved forward inside the text, the depth is restored and the node holds the tree; otherwise nothing is left allocated |
| JsonParser.ParseBuffer.ParseElement | jsonRead/cJSON.c:1378-1406 | one turn of the loop over elements: the chain grows by a node that holds the next tree, or by one to be freed |
| JsonParser.ParseBuffer.ParseElements | jsonRead/cJSON.c:1375-1431 | the loop over elements builds a linked chain of the trees in the text, or frees all of it |
| JsonParser.ParseBuffer.ParseArray | jsonRead/cJSON.c:1341-1432 | the same as ParseValue, for arrays |
| JsonParser.ParseBuffer.ParseName | jsonRead/cJSON.c:1554-1574 | the key with its colon; what it allocates belongs to the node even when it fails |
| JsonParser.ParseBuffer.ParseMember | jsonRead/cJSON.c:1532-1582 | one turn of the loop over members, the same for a key and a tree |
| JsonParser.ParseBuffer.ParseMembers | jsonRead/cJSON.c:1530-1602 | the loop over members builds a linked chain of keys and trees, or frees all of it |
| JsonParser.ParseBuffer.ParseObject | jsonRead/cJSON.c:1497-1603 | the same as ParseValue, for objects |
| JsonParser.SkipUtf8Bom | jsonRead/cJSON.c:984-997 | a byte order mark at the start is skipped |
| JsonParser.ParseWithOpts | jsonRead/cJSON.c:1000-1077 | every C string is accepted or rejected as JsonParse.Parse says unless an allocation fails; afterwards exactly the tree is allocated, or nothing new |
| JsonPrintParse.PrintThenParse | jsonRead/cJSON.c:1000-1149 | printing and parsing rebuild the tree on the heap, its numbers reread, and leave nothing else allocated; failure means no memory, too deep or too long |
| JsonList.LinkedDistinct | jsonRead/cJSON.c:1820-1824 | nodes linked in a chain are all different: it has no cycle |
| JsonList.GetArrayItem | jsonRead/cJSON.c:1743-1770 | the child at the index, or null outside the list |
| JsonList.AddItemToArray | jsonRead/cJSON.c:1848-1875 | the item goes to the end, all links are right, and trees stay whole with every value kept |
| JsonList.LinkBefore | jsonRead/cJSON.c:2160-2171 | the pointers of an insertion: the chain is the old one with the new node in front of the given one |
| JsonList.InsertItemInArray | jsonRead/cJSON.c:2145-2172 | the item goes to the index, to the end when that is too large, nowhere when negative |
| JsonList.Unlink | jsonRead/cJSON.c:2082-2100 | the pointers of a removal: the chain is the old one without the node |
| JsonList.DetachItemViaPointer | jsonRead/cJSON.c:2075-2103 | the child is taken out and left without siblings; parent and child are trees with nothing in common |
| JsonList.DetachItemFromArray | jsonRead/cJSON.c:2105-2113 | the same by index, and nothing outside the list |
| JsonList.DeleteItemFromArray | jsonRead/cJSON.c:2115-2118 | the child is taken out and exactly what belongs to it is freed; the other children stand for what they stood for |
| JsonList.LinkInstead | jsonRead/cJSON.c:2186-2203 | the pointers of a replacement: the chain is the old one with one node exchanged |
| JsonList.ReplaceItemViaPointer | jsonRead/cJSON.c:2174-2207 | the replacement takes the place of the child, and exactly what belongs to the child is freed |
| JsonEdit.InsertedValue | jsonRead/cJSON.c:2145-2172 | with a new child at an index the array stands for the old values with the new one at that index |
| JsonEdit.RemovedValue | jsonRead/cJSON.c:2075-2103 | without a child, for the values without that one |
| JsonEdit.ReplacedValue | jsonRead/cJSON.c:2174-2207 | with a child exchanged, for the values with that one changed |
| JsonEdit.AddToArray | jsonRead/cJSON.c:1878-1881 | after adding an item the array stands for its values and then the new one |
| JsonEdit.InsertIntoArray | jsonRead/cJSON.c:2145-2172 | after inserting, for its values with the new one at the index, or at the end when that is too large |
| JsonEdit.DeleteFromArray | jsonRead/cJSON.c:2115-2118 | after deleting, for its values without that one; what is freed is what the array no longer owns |
| JsonEdit.ReplaceItemInArray | jsonRead/cJSON.c:2209-2217 | after replacing, for its values with that one changed; outside the list nothing happens |
| JsonEdit.DetachItemFromObject | jsonRead/cJSON.c:2120-2132 | the first member with the key is taken out as a tree of its own; the object stands for the other members |
| JsonEdit.DeleteItemFromObject | jsonRead/cJSON.c:2134-2142 | the same, and exactly what belonged to the member is freed |
| JsonEdit.AddItemToObject | jsonRead/cJSON.c:1899-1934 | the object gains a last member with a copy of the key, or nothing changes because memory ran out |
| JsonEdit.Rekey | jsonRead/cJSON.c:1908-1931 | the item gets a copy of the key and its old key is freed |
| JsonEdit.ReplaceItemInObject | jsonRead/cJSON.c:2219-2237 | the first member with the key is exchanged and freed; without such a member only the key of the new item changes; when the key cannot be copied, the new item is linked without one and the parent is no object any more |
| JsonEdit.AddedMeaning | jsonRead/cJSON.c:1899-1934 | a new last member adds its entry to the map, unless its key is there already: then nothing can be seen of it |
| JsonEdit.ReplacedMeaning | jsonRead/cJSON.c:2219-2237 | replacing changes the entry under the key and no other, and nothing where the key is missing |
| JsonEdit.RemovedMeaning | jsonRead/cJSON.c:2120-2142 | removing takes the entry under the key away, or uncovers the next member with that key; no other entry changes |
| JsonEdit.AddThenRemove | jsonRead/cJSON.c:1899-2142 | adding under a new key and removing under it leads back to the same members |
| JsonDuplicate.Strdup | jsonRead/cJSON.c:149-168 | a new block of just the length of the string, with the same characters |
| JsonDuplicate.DuplicateFields | jsonRead/cJSON.c:2560-2591 | a new childless node with the same fields and its own strings, or nothing left allocated |
| JsonDuplicate.DuplicateList | jsonRead/cJSON.c:2597-2620 | the loop over children builds a linked chain of copies |
| JsonDuplicate.Duplicate | jsonRead/cJSON.c:2554-2631 | a new tree that is the same node for node and shares no memory with the original, or nothing left allocated |
| JsonDuplicate.SameHolds | jsonRead/cJSON.c:2554-2631 | a copy stands for whatever the original stands for |
| CJson.HoldsOne | jsonRead/cJSON.h:103-123 | a node stands for one tree at most |
| JsonDuplicate.CopyComparesEqual | jsonRead/cJSON.c:2554-2926 | a tree and its copy compare equal exactly when repeated keys agree, so whenever keys are distinct |

## Left out

- Rounding: numbers are exact reals. `strtod` is modelled on the exact value of its token, without rounding, overflow or locales. `sprintf` is any function that writes number tokens of at most 25 characters and integers below 10^15 in decimal; the failure of `print_number` on a longer text, and infinities and NaN, which it prints as null, are not part of the model.
- JsonAccepts.GrammarDecides: the grammar is that of RFC 8259 except that bytes from 128 on are not checked to be UTF-8, and that an escaped lone surrogate, which denotes no character, is no character; a string stands for its bytes up to an escaped zero, as C strings do.
- Raw items, reference items, constant keys and null strings or keys: the parser never builds them.
- The creation and type-test families, and creating an item while adding it: thin wrappers around the members above.
- Hooks as function pointers, and allocating from one set of hooks while freeing with another: there is one set of hooks.
- The error pointer, and where `return_parse_end` points after a failure.
- Null arguments of the parser, printer and lookup functions, and null containers and items in the edits.
- JsonCompareNodes.Compare: for two trees that share some nodes and not all, equality lies between Equal and the same denoted value; which one depends on which nodes are shared.
- JsonEdit.ReplaceItemInObject: takes a new item that is not part of the object, and a key that is not the buffer of the new item's own, which the source frees before reading it.
- JsonPrint.PrintBuffered: leaves out a prebuffer of 0 without `realloc`, where the source copies one byte out of an empty block.
- Memory.Hooks.Reallocate: always yields a new block; a block that grows where it is differs only in its address.
- JsonMinify.Minify: requires that no comment or string is left open, because the source then runs past the terminator.
- JsonList.AddItemToArray: takes an item without siblings; the source would drag the siblings along.
- JsonList.InsertItemInArray: recomputes the memory owned by the list's own container, not by containers around it, whose record of owned memory (a ghost field) the caller has to renew.
- CJson.Adopt: sets the child pointer when the chain is finished, where `cJSON_Duplicate` sets it at the first child; nothing reads it in between.
- Sockets, Ethernet headers, address lookup, file paths, byte order and timing of the transfer. The channel does not duplicate frames, the frames carry no sequence number to tell duplicates apart, and 32-bit counters do not wrap.
- FileTransmit.Receiver.RecvFileData: a data frame longer than its buffer is not modelled, because the source would overrun the buffer.
- `opterr` messages of getopt, an empty argv, and resetting `optind` from outside.
- The other programs of the repository, which are short demonstrations of system calls.
