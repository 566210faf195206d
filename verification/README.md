# The stream, codec and text algorithms of the Gno virtual machine module

A Cosmos SDK module hosts the Gno virtual machine. The module itself is mostly wiring; its
algorithms are in the part of the Gno standard library it ships (`bufio`, `bytes`, `html`,
`chain`) and in the Protocol Buffers codec of its messages. This project models those
algorithms in their own form, buffers, cursors and loops included, and proves what they are for.

* **Scanner** (`Io`, `SplitFunc`, `Scanner`, `Splits`, `ScanClients`). A reader hands out its
  data in any pieces, with empty reads in between. One law about split functions is stated,
  a Scanner is proved chunk independent for every split function that obeys it, and ScanLines,
  ScanWords, ScanBytes and ScanRunes are proved to obey it. What they yield is then compared with
  definitions that know no buffer: the lines and the fields of the whole input.
* **Buffered reader and writer** (`BufioReader`, `ReadingClients`, `BufioWriter`). What is buffered
  followed by what is still to come is the stream; the sink followed by what is buffered is
  everything accepted, also when the sink takes only part of a write and fails.
* **Codec** (`WireFormat`, `Skipping`, `Decoding`, `Messages`, `Layout`, `Codec`). Encoders fill a buffer
  from back to front, decoders move a cursor and update the message. The laws of decoding, merge and
  indifference to unknown fields, are proved once for any message schema, errors included; the language the
  skipper accepts is proved to be exactly the well-formed fields; every modelled message round trips, its bytes
  are laid out field by field, and what any list of fields makes of it is said without the codec's own terms.
  The wire format is that of the Protocol Buffers encoding guide ("Base 128 Varints",
  "Message Structure", "Last One Wins", "Groups").
* **HTML** (`Html`, `HtmlLaws`). Unescaping rewrites a string in place behind its own read cursor; it is proved
  to be the left-to-right rewriting of the original, and to undo escaping. Numeric references follow
  section 13.2.5.80 of the WHATWG HTML standard, encoding section 3 of RFC 3629 (`Utf8`).
* **Byte algorithms** (`ByteSearch`, `ByteSplit`, `ByteFields`, `Texts`). Rolling hashes modulo 2^32, skip loops,
  splitting, joining and replacing into buffers of a length computed in advance, a fast ASCII path.
* **Buffer** (`Queue`, `Buffer`). A growable array that refines an abstract queue over any run of
  calls, with an amortised bound on what it copies.
* **Coins** (`Coins`, `CoinOverflow`). Sorting, merging and cancelling in place, with a conservation law for each
  denomination and the exact condition for an overflow, given the order the sort leaves and over all orders.

Bytes are the integers 0 to 255 and a rune is an integer; bit operations are written as `/`, `%` and `*`.
Go's `int` is unbounded here except where the code depends on its width, and there its largest value and the
wrap-around to 32 or 64 bits are written out. What Go returns as an error is an `Option<Error>`; where Go
panics, the method returns `panicked` or `ok`.

## Where the code and what is said about it differ

* `ReadLine` says that a following `UnreadByte` always puts back the last byte read. After a
  carriage return has been put back it puts that one back a second time (`ReadingClients.ReadLineThenUnread`,
  `ReadingClients.DoubledReturn`).
* `UnreadRune` and `UnreadByte` after `Grow` may report success and put back nothing
  (`Buffers.GrowThenUnread`, `Buffers.LostRune`).
* `UnreadByte` is said to refuse after a read that returned an error or no byte. After a `ReadBytes` that
  found nothing it succeeds, and puts back an earlier byte or nothing (`Queues.StaleUnread`).
* A numeric character reference of more than 32 bits wraps around (`Html.NumericStandard`,
  `Html.WrapsToAmpersand`); "&#7" without a semicolon stays as it is and "&#x;" is replaced
  (`Html.NumericLeftAlone`). `Html.NumericMeetsStandard` says exactly when the code follows the standard.
* `ReadLine` keeps a carriage return at the very end of the input, `ScanLines` drops it
  (`ReadingClients.ReadLineMeetsScanLines`).
* Decoding two parts and decoding them joined may report different errors (`Messages.ErrorsCanDiffer`);
  `Decoding.DecodeConcat` says exactly when.

## Model

| member | source | states |
|---|---|---|
| `Utf8.DecodeEncode` | x/gnovm/keeper/stdlibs/unicode/utf8/utf8.gno:151-189 | Decoding an encoded rune gives the rune and the length of its encoding, whatever bytes follow |
| `Utf8.DecodeStable` | x/gnovm/keeper/stdlibs/unicode/utf8/utf8.gno:104-189 | Once a prefix holds a full rune, more input never changes how it decodes |
| `Utf8.CutRune` | x/gnovm/keeper/stdlibs/unicode/utf8/utf8.gno:104-121 | A prefix that is no full rune decodes as one invalid byte, is shorter than four bytes, and goes on with continuation bytes only |
| `Utf8.EncodeRune` | x/gnovm/keeper/stdlibs/unicode/utf8/utf8.gno:342-370 | Writes exactly the encoding of the rune at the cursor and nothing else, runes that cannot be encoded as U+FFFD |
| `Utf8.EncodeBits` | x/gnovm/keeper/stdlibs/unicode/utf8/utf8.gno:342-370 | The bytes of a scalar value are those of the table in RFC 3629, and their bits are its bits |
| `Utf8.EncodeOthers` | x/gnovm/keeper/stdlibs/unicode/utf8/utf8.gno:342-370 | What is no scalar value is written as the bytes of U+FFFD |
| `Utf8.DecodeExact` | x/gnovm/keeper/stdlibs/unicode/utf8/utf8.gno:151-189 | Decoding finds the scalar value whose encoding comes first, and reports one invalid byte if and only if there is none |
| `Utf8.FullRuneExact` | x/gnovm/keeper/stdlibs/unicode/utf8/utf8.gno:104-121 | A prefix is a full rune if and only if nothing that may follow changes how it decodes |
| `Texts.TextRoundTrip` | x/gnovm/keeper/stdlibs/unicode/utf8/utf8.gno:151-370 | Of any scalar values written one after the other decoding finds exactly these |
| `Io.Reader.Read` | x/gnovm/keeper/stdlibs/bufio/scan.gno:213-233 | The io.Reader contract every claim below is relative to: any count that fits, scratch use of the target, at most maxEmpty idle reads in a row, an error only with the stream used up; a reader that is not honest may also report an impossible count |
| `Scanning.Scanner.constructor` | x/gnovm/keeper/stdlibs/bufio/scan.gno:87-93 | A new Scanner has everything the reader holds still to split |
| `Scanning.Scanner.Buffer` | x/gnovm/keeper/stdlibs/bufio/scan.gno:267-273 | Installs buffer and limit before the first Scan and loses nothing; panics, changing nothing, afterwards |
| `Scanning.Scanner.SetErr` | x/gnovm/keeper/stdlibs/bufio/scan.gno:252-256 | The first error sticks, except that EOF gives way to a later error |
| `Scanning.Scanner.Advance` | x/gnovm/keeper/stdlibs/bufio/scan.gno:238-249 | Moves the cursor exactly when the split function advances within the buffer; otherwise does not move it and records which of the two errors it was, unless an earlier one stands |
| `Scanning.Scanner.MakeRoom` | x/gnovm/keeper/stdlibs/bufio/scan.gno:181-209 | Sliding or doubling keeps the pending input, makes room to read, never exceeds the limit, and fails only with a full buffer that may not grow |
| `Scanning.Scanner.Fill` | x/gnovm/keeper/stdlibs/bufio/scan.gno:210-233 | Pending input is kept over any sequence of short and empty reads; ends with data, or with the error of the reader at the end of its data, with no progress only after more than 100 empty reads in a row, or with a bad count only from a reader that gave one |
| `Scanning.Scanner.TrySplit` | x/gnovm/keeper/stdlibs/bufio/scan.gno:142-172 | For any split function: what its answer does to token, cursor, error and outcome, its errors and the final-token mark included. For a lawful one: what it finds in the buffer is the first token of the whole pending input |
| `Scanning.Scanner.Scan` | x/gnovm/keeper/stdlibs/bufio/scan.gno:135-235 | For any split function and any reader: terminates; what is pending is a suffix of what was; every token is what the split function answered for a stretch of the pending input, and what it did not advance over is still pending; after the final token scanning stays stopped. For a lawful split function and a well-behaved reader: delivers the first token of the pending input, or stops because there is none, or with a full buffer that shows none; never panics |
| `Scanning.Scanner.AnsweredEarlier` | x/gnovm/keeper/stdlibs/bufio/scan.gno:141-172 | An answer given for a stretch of a later rest was given for that stretch of the whole |
| `Scanning.TokenShrinks` | x/gnovm/keeper/stdlibs/bufio/scan.gno:135-235 | A delivered token uses up input, so scanning to the end terminates |
| `Scanning.StoppedIsFinished` | x/gnovm/keeper/stdlibs/bufio/scan.gno:135-235 | When Scan stops, either the input is used up or a stretch of it blocks a buffer of the permitted size |
| `Scanning.ScanAll` | x/gnovm/keeper/stdlibs/bufio/scan.gno:135-235 | Chunk independence for every lawful split function: the tokens are those of the whole input, up to a rest that blocks a buffer of the permitted size |
| `SplitFunc.SameFirstTokens` | x/gnovm/keeper/stdlibs/bufio/scan.gno:135-235 | Dropping a prefix that leaves the first token as it is changes no token |
| `SplitFunc.SplitStep` | x/gnovm/keeper/stdlibs/bufio/scan.gno:135-235 | One call of a lawful split function on a prefix yields what splitting the whole input yields |
| `Splits.LinesLawful` | x/gnovm/keeper/stdlibs/bufio/scan.gno:337-364 | ScanLines obeys the split law at every input and every prefix of it |
| `Splits.BytesLawful` | x/gnovm/keeper/stdlibs/bufio/scan.gno:289-294 | ScanBytes obeys the split law at every input and every prefix of it |
| `Splits.RunesLawful` | x/gnovm/keeper/stdlibs/bufio/scan.gno:304-334 | ScanRunes obeys the split law, although a prefix may cut a rune in two |
| `Splits.WordsLawful` | x/gnovm/keeper/stdlibs/bufio/scan.gno:395-419 | ScanWords obeys the split law, although a prefix may cut a rune, or the space after a word, in two |
| `Splits.ScanWords` | x/gnovm/keeper/stdlibs/bufio/scan.gno:395-419 | The two cursor loops compute the first run of non-space and the space after it |
| `Splits.LineTokens` | x/gnovm/keeper/stdlibs/bufio/scan.gno:350-364 | Scanning by lines yields the input cut at every newline, one carriage return stripped from each piece, an empty last piece ignored |
| `Splits.LineEnds` | x/gnovm/keeper/stdlibs/bufio/scan.gno:337-364 | In bytes: a line ends at 0x0A, loses one 0x0D in front of it, and the rest makes the other lines |
| `Splits.LinesNotBlocked` | x/gnovm/keeper/stdlibs/bufio/scan.gno:350-364 | Only a line that, with its terminator, does not fit can block the buffer |
| `Splits.WordTokens` | x/gnovm/keeper/stdlibs/bufio/scan.gno:395-419 | Scanning by words yields exactly the fields of the input |
| `Splits.SpacesAre` | x/gnovm/keeper/stdlibs/bufio/scan.gno:366-393 | A space is one of the 25 code points with the Unicode property White_Space |
| `Texts.RuneTokens` | x/gnovm/keeper/stdlibs/bufio/scan.gno:304-334 | Scanning any bytes by runes yields the encoding of each rune, U+FFFD for each invalid byte |
| `Texts.ByteTokens` | x/gnovm/keeper/stdlibs/bufio/scan.gno:289-294 | Scanning by bytes yields each byte |
| `Texts.FieldsAreWords` | x/gnovm/keeper/stdlibs/bytes/bytes.gno:468-513 | The fields of any bytes are the stretches between the runes that satisfy f, empty ones left out |
| `Splits.WordsNotBlocked` | x/gnovm/keeper/stdlibs/bufio/scan.gno:395-419 | Only a word longer than the buffer less three bytes can block it |
| `Splits.SpacePrefix` | x/gnovm/keeper/stdlibs/bufio/scan.gno:397-405 | Leading space found in a prefix is leading space of the whole |
| `Splits.WordPrefix` | x/gnovm/keeper/stdlibs/bufio/scan.gno:407-412 | A space found in a prefix is found in the whole at the same place |
| `ScanClients.ScanAllLines` | x/gnovm/keeper/stdlibs/bufio/scan.gno:135-256 | For every finite input and every way a reader chops it up, if every line and one more byte fit, Scan with ScanLines yields exactly the lines and Err is nil at the end of the input |
| `ScanClients.ScanAllWords` | x/gnovm/keeper/stdlibs/bufio/scan.gno:135-235 | For every finite input and every way a reader chops it up, if every word and three more bytes fit, Scan with ScanWords yields exactly the fields FieldsFunc finds in the whole input |
| `BufferedReading.Reader.constructor` | x/gnovm/keeper/stdlibs/bufio/bufio.gno:49-84 | An empty buffer of at least 16 bytes in front of the whole stream |
| `BufferedReading.Reader.Fill` | x/gnovm/keeper/stdlibs/bufio/bufio.gno:89-117 | The stream is kept while the buffer slides and fills; ends with more data or an error; no complaint of no progress unless the reader was idle 100 times in a row |
| `BufferedReading.Reader.Peek` | x/gnovm/keeper/stdlibs/bufio/bufio.gno:132-159 | Returns the next bytes without taking them: as many as asked for, unless the buffer or the stream is shorter; errors exactly then |
| `BufferedReading.Reader.Read` | x/gnovm/keeper/stdlibs/bufio/bufio.gno:200-245 | What is returned is taken off the front of the stream, through the buffer or past it: as much as is buffered and fits; from an empty buffer the pending error, or what one Read of the reader gives, nothing only if that was idle |
| `BufferedReading.Reader.ReadByte` | x/gnovm/keeper/stdlibs/bufio/bufio.gno:249-261 | Takes exactly the first byte, or reports an error with nothing left to take |
| `BufferedReading.Reader.UnreadByte` | x/gnovm/keeper/stdlibs/bufio/bufio.gno:268-283 | Puts the last byte back in front of the stream, and refuses exactly when there is none or no room for it |
| `BufferedReading.FindFrom` | x/gnovm/keeper/stdlibs/bufio/bufio.gno:336-342 | Not rescanning what was scanned before misses no delimiter |
| `BufferedReading.Reader.ReadSlice` | x/gnovm/keeper/stdlibs/bufio/bufio.gno:333-372 | Takes the prefix through the first delimiter, or a full buffer without one, or everything with the error |
| `BufferedReading.Reader.ReadLine` | x/gnovm/keeper/stdlibs/bufio/bufio.gno:390-423 | Takes exactly a line with its end off the stream, or a fragment without one, at most a buffer full, in front of a carriage return if that may belong to the end; never both a line and an error |
| `BufferedReading.Reader.CollectFragments` | x/gnovm/keeper/stdlibs/bufio/bufio.gno:432-455 | The fragments, all but the last a full buffer, are end to end the prefix through the first delimiter, or everything up to the error, and totalLen is their length |
| `BufferedReading.JoinFragments` | x/gnovm/keeper/stdlibs/bufio/bufio.gno:464-475 | Copying the fragments fills a buffer of totalLen bytes exactly |
| `BufferedReading.Reader.ReadBytes` | x/gnovm/keeper/stdlibs/bufio/bufio.gno:464-475 | For every buffer size and chunking, returns the prefix of the stream through the first delimiter, or everything up to the error; the error is nil exactly when the delimiter was reached, and for a reader not idle 100 times in a row it is its own, with the stream used up |
| `BufferedReading.Reader.ThroughDelim` | x/gnovm/keeper/stdlibs/bufio/bufio.gno:457-463 | What ReadBytes may return is unique: it is fixed by where the first delimiter stands |
| `BufferedReading.FoundAt` | x/gnovm/keeper/stdlibs/bufio/bufio.gno:457-463 | A prefix that ends in its only delimiter ends in the first one of the stream |
| `BufferedReading.ConcatPrefix` | x/gnovm/keeper/stdlibs/bufio/bufio.gno:464-475 | Any number of leading fragments make a prefix of the whole line |
| `ReadingClients.LastFragment` | x/gnovm/keeper/stdlibs/bufio/bufio.gno:390-423 | A line cut into fragments ends, joined, without "\n" and without the "\r" before it, even when a buffer boundary parts the two |
| `ReadingClients.ReadWholeLine` | x/gnovm/keeper/stdlibs/bufio/bufio.gno:390-423 | Joined fragments are the first line of the stream without its end, whatever the buffer size and the chunks |
| `ReadingClients.ReadAllLines` | x/gnovm/keeper/stdlibs/bufio/bufio.gno:390-423 | Reading to the end yields every line of the stream |
| `ReadingClients.ReadLineMeetsScanLines` | x/gnovm/keeper/stdlibs/bufio/bufio.gno:390-423 | ReadLine and ScanLines see the same lines if and only if the input does not end in a carriage return |
| `ReadingClients.ReadThenUnread` | x/gnovm/keeper/stdlibs/bufio/bufio.gno:262-283 | UnreadByte after Read, ReadByte or ReadBytes that returned data restores exactly the last byte |
| `ReadingClients.ReadLineThenUnread` | x/gnovm/keeper/stdlibs/bufio/bufio.gno:386-403 | UnreadByte after ReadLine restores exactly the last byte if and only if ReadLine did not put a carriage return back itself, or the byte before that one is a carriage return too. On the stream, for a buffer of N bytes: it fails if byte N is the first of a run of carriage returns, no newline comes before it and more follows; and it fails only if byte N is such a return |
| `ReadingClients.DoubledReturn` | x/gnovm/keeper/stdlibs/bufio/bufio.gno:386-403 | The failure occurs: fifteen bytes and a line end through a buffer of 16 leave the carriage return doubled |
| `BufferedWriting.Writer.constructor` | x/gnovm/keeper/stdlibs/bufio/bufio.gno:570-583 | An empty buffer of the size asked for, or of 4096 bytes |
| `Io.Writer.Write` | x/gnovm/keeper/stdlibs/bufio/bufio.gno:609-622 | The io.Writer contract: any part of what is offered, with an error if it is not all, or, from a writer that is not honest, without; what the last call reported is recorded |
| `BufferedWriting.Writer.Flush` | x/gnovm/keeper/stdlibs/bufio/bufio.gno:602-623 | What the sink and the buffer hold together does not change, also when the sink takes only a part; a nil result means the sink holds everything; after an error nothing changes; an error has its cause in the sink: what its last Write reported in this call, or ShortWrite if that took less without an error |
| `BufferedWriting.Writer.Write` | x/gnovm/keeper/stdlibs/bufio/bufio.gno:635-657 | Exactly the bytes reported are accepted, in order, behind everything accepted before; fewer than all only with an error; the error is the one the sink reported |
| `BufferedWriting.Writer.WriteByte` | x/gnovm/keeper/stdlibs/bufio/bufio.gno:660-670 | Accepts the byte or reports an error and accepts nothing; the error is that of a Flush |
| `BufferedWriting.Writer.WriteString` | x/gnovm/keeper/stdlibs/bufio/bufio.gno:706-722 | Exactly the bytes reported are accepted, in order, by way of the buffer only; fewer than all only with an error; the error is that of a Flush |
| `BufferedWriting.Writer.ReadFrom` | x/gnovm/keeper/stdlibs/bufio/bufio.gno:727-771 | Accepts exactly the bytes it takes off the reader; a nil error means the reader ended with EOF, any other is the one of the sink, the one of the reader at the end of its data, or no progress after 100 empty reads in a row |
| `BufferedWriting.Writer.ReadSome` | x/gnovm/keeper/stdlibs/bufio/bufio.gno:745-757 | One round of reading into the free part of the buffer: nothing lost; a zero count only from a reader that was idle 100 times |
| `BufferedWriting.Run` | x/gnovm/keeper/stdlibs/bufio/bufio.gno:602-771 | After any sequence of Write, WriteString, WriteByte, Flush and buffered ReadFrom, the sink followed by the buffer is every byte reported as accepted, in order; a call that reports no error accepted all it was offered; after an error of the writer every call reports it and accepts nothing; if a final Flush returns nil the sink holds all of it; with a sink that takes all it is offered no call fails but a ReadFrom whose reader fails |
| `BufferedWriting.Do` | x/gnovm/keeper/stdlibs/bufio/bufio.gno:602-771 | Any one call accepts exactly what it reports, and nothing once the writer has failed |
| `WireFormat.SovIsLength` | x/gnovm/types/genesis.pb.go:315-317 | The size computed from the bit length is the number of bytes of the varint |
| `WireFormat.EncodeVarint` | x/gnovm/types/genesis.pb.go:266-276 | Writes the varint so that it ends just before the offset, touching nothing else |
| `WireFormat.CutVarintLeaves` | x/gnovm/types/query.pb.go:1735-1752 | A varint cut off after k bytes leaves exactly its low 7k bits |
| `WireFormat.DecodeVarint` | x/gnovm/types/genesis.pb.go:327-341 | The decoding loop, with its shift limit and its loss of bits past the 64th |
| `WireFormat.VarintRoundTrip` | x/gnovm/types/genesis.pb.go:266-341 | Every 64-bit value reads back, wherever it stands and whatever follows |
| `WireFormat.VarintBytes` | x/gnovm/types/genesis.pb.go:266-276 | Byte k of a varint holds bits 7k to 7k + 6 of the value, with the top bit set in all bytes but the last, and there is no byte too many |
| `WireFormat.VarintExact` | x/gnovm/types/genesis.pb.go:327-341 | Reading succeeds exactly on at most ten bytes with the top bit set in all but the last, for the value of their low seven bits modulo 2^64; which of the two errors there is otherwise |
| `WireFormat.ToInt32Wraps` | x/gnovm/types/genesis.pb.go:342-342 | A field number is the int32 with the same low 32 bits |
| `WireFormat.WordSizes` | x/gnovm/types/genesis.pb.go:327-341 | The bounds in use are those of 32, 63 and 64 bits |
| `Skipping.SkipField` | x/gnovm/types/genesis.pb.go:590-667 | The skipper terminates on every byte string, indexes nothing outside it, and moves forward on every turn, with wrap-around of the cursor an error |
| `Skipping.TakeTurn` | x/gnovm/types/genesis.pb.go:594-664 | One turn of the skipper, wire type by wire type, moves the cursor forward |
| `Skipping.SkipsItem` | x/gnovm/types/genesis.pb.go:590-667 | At any depth, one well-formed field, with groups nested as deep as one likes, is stepped over exactly |
| `Skipping.SkipsExactlyOneField` | x/gnovm/types/genesis.pb.go:590-667 | Skipping n bytes that are there succeeds if and only if those n bytes are one well-formed field |
| `Skipping.SkipEmbeds` | x/gnovm/types/genesis.pb.go:590-667 | A skip that succeeds inside a part of a buffer goes the same way in the whole |
| `Skipping.SkipsEachType` | x/gnovm/types/genesis.pb.go:590-667 | In bytes, for each wire type: what is stepped over, and the errors for an end tag and for the types 6 and 7 |
| `Decoding.DecodeConcat` | x/gnovm/types/genesis.pb.go:321-471 | Decoding is a merge: decoding a followed by b into m is decoding b into the result of decoding a into m, for every message schema, if and only if no length in b reaches past the end of b and, behind a, past the largest int; where one does, both fail, with different errors |
| `Decoding.LeftConcat` | x/gnovm/types/genesis.pb.go:321-471 | Where decoding fails, what it leaves in the message is the same for the two parts as for the whole |
| `Decoding.UnknownIgnored` | x/gnovm/types/genesis.pb.go:451-464 | An unknown well-formed field, of any nesting, between two fields changes nothing, message or error, if and only if no length behind it overruns just because of the bytes inserted; a decoding that succeeds without it always gives the same message with it |
| `Decoding.UnknownAlone` | x/gnovm/types/genesis.pb.go:451-464 | An unknown field by itself leaves the message as it is |
| `Decoding.DecodeReaches` | x/gnovm/types/genesis.pb.go:321-471 | Decoding goes on behind a part that was decoded without error |
| `Decoding.DecodeShifts` | x/gnovm/types/genesis.pb.go:321-471 | A rest decodes behind other bytes as it does alone, but that a length that overruns there is an invalid length instead of unexpected EOF |
| `Decoding.NoFieldBegins` | x/gnovm/types/genesis.pb.go:342-349 | In bytes: an end tag and field number 0 are refused, each with its error |
| `Layout.DecodeFolds` | x/gnovm/types/genesis.pb.go:321-471 | Decoding is doing what the schema says for one field after the other, unknown ones left out |
| `Messages.ErrorsCanDiffer` | x/gnovm/types/genesis.pb.go:472-589 | Such a length: two parts decoded one after the other and joined report different errors |
| `Messages.RecordSets` | x/gnovm/types/genesis.pb.go:383-416 | A written length-delimited field sets its field to its payload |
| `Messages.ParamsRoundTrip` | x/gnovm/types/params.pb.go:186-486 | Unmarshalling the marshalled bytes of any Params gives it back |
| `Messages.KVPairRoundTrip` | x/gnovm/types/genesis.pb.go:244-589 | Unmarshalling the marshalled bytes of any KVPair gives it back |
| `Messages.PairsAppend` | x/gnovm/types/genesis.pb.go:417-450 | A repeated field is appended in order to what the message already holds |
| `Messages.GenesisRoundTrip` | x/gnovm/types/genesis.pb.go:190-471 | Any GenesisState, nested Params and any list of pairs included, reads back as it was, in order |
| `Messages.CutGasLeaves` | x/gnovm/types/query.pb.go:1733-1752 | A QueryEvalRequest cut off within its gas limit fails with unexpected EOF and holds the low 7k bits of the limit |
| `Messages.EvalRoundTrip` | x/gnovm/types/query.pb.go:944-1774 | Any QueryEvalRequest reads back as it was, over the full 64-bit range of the gas limit |
| `Messages.ArgsAppend` | x/gnovm/types/query.pb.go:1918-1949 | Repeated strings are appended in order |
| `Messages.RenderRoundTrip` | x/gnovm/types/query.pb.go:1016-1970 | Any QueryRenderRequest reads back as it was, its arguments in order |
| `Layout.KVPairLayout` | x/gnovm/types/genesis.pb.go:244-264 | The bytes of a KVPair are field 1, the key, then field 2, the value, empty ones left out |
| `Layout.ParamsLayout` | x/gnovm/types/params.pb.go:186-227 | The bytes of a Params are fields 1 to 5 in order, empty ones left out |
| `Layout.EvalLayout` | x/gnovm/types/query.pb.go:944-977 | The bytes of a QueryEvalRequest are the path, the expression and the gas limit, as fields 1 to 3, empty and zero ones left out |
| `Layout.RenderLayout` | x/gnovm/types/query.pb.go:1016-1038 | The bytes of a QueryRenderRequest are the path, unless it is empty, as field 1 and each argument, empty or not, as field 2, in order |
| `Layout.GenesisLayout` | x/gnovm/types/genesis.pb.go:190-227 | The bytes of a GenesisState are the parameters, present even if empty, the realm parameters and the pairs in order, as fields 1 to 3, each nested message laid out as by itself |
| `Layout.KVPairReads` | x/gnovm/types/genesis.pb.go:472-589 | From any list of fields, in any order, repeated or missing, among unknown ones: the key is the last payload of field 1, the value that of field 2, and what was there stays if there is none |
| `Layout.ParamsReads` | x/gnovm/types/params.pb.go:275-486 | The same for fields 1 to 5 of Params |
| `Layout.EvalReads` | x/gnovm/types/query.pb.go:1642-1774 | The same for the three fields of a QueryEvalRequest; a field of the wrong type is an error |
| `Layout.RenderReads` | x/gnovm/types/query.pb.go:1857-1970 | The path is the last payload of field 1, and the payloads of field 2 are appended to the arguments in order |
| `Layout.GenesisReads` | x/gnovm/types/genesis.pb.go:321-471 | All parameters read, in any number of parts, are merged field by field into those that were there; each payload of field 3 is one more pair, read by itself |
| `Codec.ReadPayload` | x/gnovm/types/genesis.pb.go:387-411 | A length is accepted exactly when it does not overflow and the payload is there |
| `Codec.PassUnknown` | x/gnovm/types/genesis.pb.go:451-464 | What is stepped over is exactly one well-formed field; it fails exactly when no well-formed field starts there |
| `Codec.PutRecord` | x/gnovm/types/genesis.pb.go:249-262 | Writes a length-delimited field so that it ends where the last one starts, in bounds and touching nothing else |
| `Codec.PutPair` | x/gnovm/types/genesis.pb.go:196-207 | Writes a nested pair with its tag and length so that it ends where the part after it starts, touching nothing else |
| `Codec.PutParams` | x/gnovm/types/genesis.pb.go:216-225 | Writes the nested parameters with tag and length so that they end where the part after them starts, touching nothing else |
| `Codec.KVPair.Size` | x/gnovm/types/genesis.pb.go:298-313 | The size of any KVPair, added up in advance, is the length of its encoding |
| `Codec.KVPair.MarshalToSizedBuffer` | x/gnovm/types/genesis.pb.go:244-264 | Writes the encoding of any KVPair so that it ends at the end of the buffer, exactly Size bytes, every write in bounds and nothing else touched; cut into fields it is the key as field 1 and the value as field 2, empty ones left out |
| `Codec.KVPair.Unmarshal` | x/gnovm/types/genesis.pb.go:472-589 | The cursor loop computes the decoding, field by field into the message, on every byte string; where it fails, the message holds what had been decoded until then |
| `Codec.Params.Size` | x/gnovm/types/params.pb.go:240-267 | The size of any Params, added up in advance, is the length of its encoding |
| `Codec.Params.MarshalToSizedBuffer` | x/gnovm/types/params.pb.go:186-227 | Writes the encoding of any Params so that it ends at the end of the buffer, exactly Size bytes, every write in bounds and nothing else touched; cut into fields it is fields 1 to 5 in order, empty ones left out |
| `Codec.Params.Unmarshal` | x/gnovm/types/params.pb.go:275-486 | The cursor loop computes the decoding, into what the message holds, on every byte string; where it fails, the message holds what had been decoded until then |
| `Codec.QueryEvalRequest.Size` | x/gnovm/types/query.pb.go:1123-1141 | The size of any QueryEvalRequest, added up in advance, is the length of its encoding |
| `Codec.QueryEvalRequest.MarshalToSizedBuffer` | x/gnovm/types/query.pb.go:944-977 | Writes the encoding of any QueryEvalRequest so that it ends at the end of the buffer, exactly Size bytes, every write in bounds and nothing else touched; cut into fields it is fields 1 to 3 in order, empty and zero ones left out |
| `Codec.QueryEvalRequest.ReadMaxGas` | x/gnovm/types/query.pb.go:1735-1752 | The gas limit is gathered in the message itself: on failure it holds the bits read so far |
| `Codec.QueryEvalRequest.UnmarshalField` | x/gnovm/types/query.pb.go:1645-1771 | One turn of the loop decodes one field, or fails with its error and leaves what the failed field leaves |
| `Codec.QueryEvalRequest.Unmarshal` | x/gnovm/types/query.pb.go:1642-1774 | The cursor loop computes the decoding, into what the message holds, on every byte string; where it fails, the message holds what had been decoded until then, the bits of a gas limit cut short included |
| `Codec.QueryRenderRequest.Size` | x/gnovm/types/query.pb.go:1156-1173 | The size of any QueryRenderRequest, added up in advance, is the length of its encoding |
| `Codec.QueryRenderRequest.MarshalToSizedBuffer` | x/gnovm/types/query.pb.go:1016-1038 | Writes the encoding of any QueryRenderRequest so that it ends at the end of the buffer, exactly Size bytes, every write in bounds and nothing else touched; cut into fields it is the path and the arguments in order |
| `Codec.QueryRenderRequest.Unmarshal` | x/gnovm/types/query.pb.go:1857-1970 | The cursor loop computes the decoding, into what the message holds, on every byte string; where it fails, the message holds what had been decoded until then |
| `Codec.GenesisState.Size` | x/gnovm/types/genesis.pb.go:277-296 | The size of any GenesisState, added up in advance, is the length of its encoding |
| `Codec.GenesisState.MarshalToSizedBuffer` | x/gnovm/types/genesis.pb.go:190-227 | Writes the encoding of any GenesisState so that it ends at the end of the buffer, exactly Size bytes, every write in bounds and nothing else touched; cut into fields it is laid out as GenesisLayout says |
| `Codec.GenesisState.Marshal` | x/gnovm/types/genesis.pb.go:175-183 | A buffer of Size bytes holds the encoding and nothing else |
| `Codec.GenesisState.Unmarshal` | x/gnovm/types/genesis.pb.go:321-471 | The cursor loop computes the decoding, parameters merged in place, pairs appended, on every byte string; where it fails, the message holds what had been decoded until then |
| `Codec.GenesisState.UnmarshalField` | x/gnovm/types/genesis.pb.go:324-464 | One turn of the field loop: one field decoded into the message, or its error and what that leaves |
| `Codec.GenesisState.AppendPair` | x/gnovm/types/genesis.pb.go:446-449 | One more pair, decoded in place behind those already there |
| `Codec.WriteAndRead` | x/gnovm/types/genesis.pb.go:175-471 | Marshalling and unmarshalling into a zero message gives an equal one |
| `Html.ReferenceShrinks` | x/gnovm/keeper/stdlibs/html/escape.gno:56-164 | What a reference is replaced by never outgrows it, for any table meeting the length assumption and any digits |
| `Html.ReadDigits` | x/gnovm/keeper/stdlibs/html/escape.gno:82-105 | The int32 accumulator is the exact number wrapped, however long the digit string |
| `Html.FindPrefixEntity` | x/gnovm/keeper/stdlibs/html/escape.gno:150-158 | Finds an entity without a semicolon among the prefixes of two to six bytes, and no longer prefix is one |
| `Html.UnescapeEntity` | x/gnovm/keeper/stdlibs/html/escape.gno:56-164 | Rewrites one reference in place: output grows by its replacement, the rest of the input is untouched |
| `Html.CopyAndUnescape` | x/gnovm/keeper/stdlibs/html/escape.gno:194-212 | One turn of the rewriting loop keeps "written so far, then the rest unescaped" equal to the whole unescaped, with dst never past src |
| `Html.UnescapeString` | x/gnovm/keeper/stdlibs/html/escape.gno:187-213 | The in-place rewriting is the pure left-to-right rewriting of the original string, and never longer |
| `Html.UnescapeEscape` | x/gnovm/keeper/stdlibs/html/escape.gno:166-213 | Unescaping undoes escaping, for every string, whatever entities it seems to hold |
| `HtmlLaws.EscapeOne` | x/gnovm/keeper/stdlibs/html/escape.gno:166-172 | The five texts, in bytes, that the five special bytes are replaced by; every other byte stays as it is |
| `HtmlLaws.EscapeConcat` | x/gnovm/keeper/stdlibs/html/escape.gno:166-180 | Escaping goes byte by byte |
| `HtmlLaws.EscapedIsSafe` | x/gnovm/keeper/stdlibs/html/escape.gno:166-180 | In an escaped text there is no angle bracket and no quote, and every ampersand starts one of the five texts |
| `HtmlLaws.NumeralUnescapes` | x/gnovm/keeper/stdlibs/html/escape.gno:69-120 | Any decimal or hexadecimal numeral below 2^32, in either case, with leading zeros, with or without a semicolon, is replaced by its code point; zero, surrogates and what is beyond the last code point by U+FFFD, the C1 controls by what the standard says |
| `HtmlLaws.NameUnescapes` | x/gnovm/keeper/stdlibs/html/escape.gno:122-161 | A name is replaced by its one or two code points, or else the longest of its proper prefixes of two to six bytes that is a name by its code point; otherwise it stays |
| `Html.ReplacementsAgree` | x/gnovm/keeper/stdlibs/html/escape.gno:14-52 | The replacement table is the one of the standard |
| `Html.NumericStandard` | x/gnovm/keeper/stdlibs/html/escape.gno:112-120 | The code point written is the one of the HTML standard if and only if the value fits in 32 bits, or its remainder modulo 2^32 is 0, U+FFFD or no code point |
| `Html.WrapsToAmpersand` | x/gnovm/keeper/stdlibs/html/escape.gno:82-120 | The text "&#4294967334;" unescapes to an ampersand, where the standard has U+FFFD |
| `Html.NumericLeftAlone` | x/gnovm/keeper/stdlibs/html/escape.gno:69-110 | A numeric reference is left as text as the standard has it if and only if it is neither a single decimal digit without semicolon nor "&#x;" |
| `Html.NumericMeetsStandard` | x/gnovm/keeper/stdlibs/html/escape.gno:69-120 | A numeric reference is read as the standard reads it, text and length, if and only if it is neither of those two and, if it has digits, its value fits in 32 bits or its remainder modulo 2^32 is 0, U+FFFD or no code point |
| `ByteSearch.HashStrRevBytes` | x/gnovm/keeper/stdlibs/internal/bytealg/bytealg.gno:68-81 | The hash is the reverse polynomial of the bytes, and pow the prime to the length, modulo 2^32 |
| `ByteSearch.HashStrBytes` | x/gnovm/keeper/stdlibs/internal/bytealg/bytealg.gno:34-47 | The hash is the polynomial of the bytes, and pow the prime to the length, modulo 2^32 |
| `ByteSearch.PowerOf` | x/gnovm/keeper/stdlibs/internal/bytealg/bytealg.gno:39-45 | Squaring computes the prime to the n-th power modulo 2^32 |
| `ByteSearch.RollLeft` | x/gnovm/keeper/stdlibs/bytes/bytes.gno:131-134 | How the reverse polynomial of a window follows from the next one |
| `ByteSearch.RollRight` | x/gnovm/keeper/stdlibs/internal/bytealg/bytealg.gno:113-117 | How the polynomial of a window follows from the one before |
| `ByteSearch.HashFilters` | x/gnovm/keeper/stdlibs/bytes/bytes.gno:128-137 | Windows that match have equal hashes, so filtering by the hash skips no match |
| `ByteSearch.LastIndexByte` | x/gnovm/keeper/stdlibs/bytes/bytes.gno:142-149 | The last occurrence of a byte, or -1 |
| `ByteSearch.IndexOfByte` | x/gnovm/keeper/stdlibs/bytes/bytes.gno:95-102 | The first occurrence of a byte, or -1, by one pass |
| `ByteSearch.LastIndex` | x/gnovm/keeper/stdlibs/bytes/bytes.gno:105-139 | The last occurrence of sep, or -1, for all inputs |
| `ByteSearch.IndexRabinKarpBytes` | x/gnovm/keeper/stdlibs/internal/bytealg/bytealg.gno:102-123 | The first occurrence of sep, or -1, an empty sep included |
| `ByteSearch.NextStart` | x/gnovm/keeper/stdlibs/bytes/bytes.gno:1119-1127 | Skipping to the next first byte of sep passes no match |
| `ByteSearch.IndexSmall` | x/gnovm/keeper/stdlibs/bytes/bytes.gno:1113-1142 | The first occurrence, with a switch to another search whenever the cutover says so |
| `ByteSearch.IndexLarge` | x/gnovm/keeper/stdlibs/bytes/bytes.gno:1144-1178 | The first occurrence, with a switch to Rabin-Karp after too many failures |
| `ByteSearch.Index` | x/gnovm/keeper/stdlibs/bytes/bytes.gno:1094-1179 | The first occurrence of sep, or -1, in every branch and for any MaxLen, MaxBruteForce and Cutover |
| `ByteSplit.RuneCount` | x/gnovm/keeper/stdlibs/unicode/utf8/utf8.gno:400-434 | The number of runes, in one pass that decodes none of them |
| `ByteSplit.RuneWidth` | x/gnovm/keeper/stdlibs/unicode/utf8/utf8.gno:404-431 | The width found from the tables is the width decoding gives, for valid, short and invalid sequences |
| `ByteSplit.CountByte` | x/gnovm/keeper/stdlibs/bytes/bytes.gno:61-63 | The number of occurrences of one byte |
| `ByteSplit.Count` | x/gnovm/keeper/stdlibs/bytes/bytes.gno:56-73 | The number of non-overlapping occurrences counted from the left; runes and one more for an empty sep |
| `ByteSplit.Explode` | x/gnovm/keeper/stdlibs/bytes/bytes.gno:33-52 | At most n pieces of one rune each, the last one holding the rest |
| `ByteSplit.GenSplit` | x/gnovm/keeper/stdlibs/bytes/bytes.gno:342-367 | The pieces between occurrences, for every n, every slot of the preallocated slice written once |
| `ByteSplit.JoinSplit` | x/gnovm/keeper/stdlibs/bytes/bytes.gno:342-403 | Joining the pieces with what was left out between them gives the input, for every n and every amount of sep kept |
| `ByteSplit.JoinExploded` | x/gnovm/keeper/stdlibs/bytes/bytes.gno:33-52 | Joining the pieces of a split at the empty string gives the input |
| `ByteSplit.NoPieceContains` | x/gnovm/keeper/stdlibs/bytes/bytes.gno:369-395 | When all occurrences are cut, no piece contains sep |
| `ByteSplit.PieceCount` | x/gnovm/keeper/stdlibs/bytes/bytes.gno:342-367 | There is one piece more than there are occurrences, but at most n |
| `ByteSplit.CutsLeftmost` | x/gnovm/keeper/stdlibs/bytes/bytes.gno:342-367 | Every cut is at the first occurrence of sep |
| `Texts.RunesCounts` | x/gnovm/keeper/stdlibs/unicode/utf8/utf8.gno:400-434 | RuneCount counts the runes that decoding finds |
| `Texts.ExplodedGlyphs` | x/gnovm/keeper/stdlibs/bytes/bytes.gno:33-52 | Exploding without a limit cuts the text into the bytes of its runes, one piece each |
| `ByteSplit.Join` | x/gnovm/keeper/stdlibs/bytes/bytes.gno:517-537 | Fills a buffer of the length computed in advance with the pieces and separators |
| `ByteSplit.JoinedLength` | x/gnovm/keeper/stdlibs/bytes/bytes.gno:525-528 | The length computed before joining is the length of the result |
| `ByteSplit.JoinedSnoc` | x/gnovm/keeper/stdlibs/bytes/bytes.gno:531-535 | One more piece joins behind a separator |
| `ByteSplit.Replace` | x/gnovm/keeper/stdlibs/bytes/bytes.gno:992-1026 | Replacing is splitting at the first n occurrences and joining with the new text; an empty old text inserts between runes |
| `ByteSplit.ReplacedLength` | x/gnovm/keeper/stdlibs/bytes/bytes.gno:1007-1007 | The length computed before replacing is the length of the result |
| `ByteSplit.InterleavedLength` | x/gnovm/keeper/stdlibs/bytes/bytes.gno:1007-1007 | The length computed before inserting between runes is the length of the result |
| `ByteSplit.InterleavedIsJoined` | x/gnovm/keeper/stdlibs/bytes/bytes.gno:992-1026 | With an empty old text the new one goes in front of each of the first runes, and of what is left |
| `ByteSplit.PiecesEnough` | x/gnovm/keeper/stdlibs/bytes/bytes.gno:992-1026 | More cuts than occurrences make no difference |
| `ByteFields.FieldsFunc` | x/gnovm/keeper/stdlibs/bytes/bytes.gno:468-513 | The maximal runs of runes on which f is false, for any f |
| `ByteFields.StartsIsFieldCount` | x/gnovm/keeper/stdlibs/bytes/bytes.gno:412-424 | On ASCII input the bit-trick count is the number of fields |
| `ByteFields.Survey` | x/gnovm/keeper/stdlibs/bytes/bytes.gno:412-424 | Counts field starts and tells whether the input is ASCII, in one pass |
| `ByteFields.AsciiFields` | x/gnovm/keeper/stdlibs/bytes/bytes.gno:431-459 | The fast path fills each of the counted slots once, with the fields in order |
| `ByteFields.FieldsOf` | x/gnovm/keeper/stdlibs/bytes/bytes.gno:411-459 | Fields is FieldsFunc with the space predicate, by either path |
| `Coins.LessTotal` | x/gnovm/keeper/stdlibs/chain/coins.gno:215-217 | The order of denominations is total |
| `Coins.LessTransitive` | x/gnovm/keeper/stdlibs/chain/coins.gno:215-217 | The order of denominations is transitive |
| `Coins.LessIsBefore` | x/gnovm/keeper/stdlibs/chain/coins.gno:215-217 | One denomination is less than another if and only if it is a proper prefix or has the smaller byte at the first difference |
| `Coins.RangeOfInt64` | x/gnovm/keeper/stdlibs/chain/coins.gno:129-133 | Amounts are in the range of an int64 |
| `Coins.SumPermutation` | x/gnovm/keeper/stdlibs/chain/coins.gno:121-121 | Sorting keeps the total of every denomination |
| `Coins.Sort` | x/gnovm/keeper/stdlibs/chain/coins.gno:121-121 | The contract of sort.Sort: sorted, and a permutation; not necessarily stable |
| `Coins.Cut` | x/gnovm/keeper/stdlibs/chain/coins.gno:134-142 | Removing from the slice in place |
| `Coins.JoinKeepsWorth` | x/gnovm/keeper/stdlibs/chain/coins.gno:126-141 | Merging or cancelling two neighbours keeps every total |
| `Coins.OverflowShows` | x/gnovm/keeper/stdlibs/chain/coins.gno:129-133 | A step that overflows shows in the totals of the input |
| `Coins.SortAndJoin` | x/gnovm/keeper/stdlibs/chain/coins.gno:120-147 | Strictly ascending denominations, every total kept; fails if and only if an addition does not fit in 64 bits in the order the sort left |
| `Coins.NewCoins` | x/gnovm/keeper/stdlibs/chain/coins.gno:115-118 | Strictly ascending denominations, every total that of the arguments; no zero amount appears that was not there; fails if and only if an addition does not fit in 64 bits in the order the sort left; ascending in those terms |
| `CoinOverflow.OverflowsInSomeOrder` | x/gnovm/keeper/stdlibs/chain/coins.gno:120-192 | Whatever order an unstable sort leaves, joining can overflow in one of them if and only if the gains alone or the losses alone of some denomination do not fit in 64 bits |
| `CoinOverflow.MisfitCanOverflow` | x/gnovm/keeper/stdlibs/chain/coins.gno:124-141 | An addition that does not fit shows in the gains or the losses of the denomination |
| `CoinOverflow.ArrangedMisfits` | x/gnovm/keeper/stdlibs/chain/coins.gno:124-141 | Where they do not fit, the order that adds them up first overflows |
| `Coins.RestAfterJoin` | x/gnovm/keeper/stdlibs/chain/coins.gno:124-141 | Merging or cancelling two neighbours leaves the later additions as they were |
| `Coins.Add` | x/gnovm/keeper/stdlibs/chain/coins.gno:193-199 | Each total is the sum of the operands', which stay as they are; on sorted operands it fails if and only if some sum does not fit in 64 bits |
| `Coins.SetIsCanonical` | x/gnovm/keeper/stdlibs/chain/coins.gno:105-113 | A strictly sorted zero-free set is fixed by its totals |
| `Coins.AddCommutes` | x/gnovm/keeper/stdlibs/chain/coins.gno:193-199 | Add is commutative |
| `Coins.AddAssociates` | x/gnovm/keeper/stdlibs/chain/coins.gno:193-199 | Add is associative where no partial sum overflows |
| `Coins.AddBothWays` | x/gnovm/keeper/stdlibs/chain/coins.gno:193-199 | Both orders of the operands succeed or fail together, and give the same set |
| `Coins.AmountOf` | x/gnovm/keeper/stdlibs/chain/coins.gno:167-175 | The total of a denomination, or 0 |
| `Buffers.Buffer.Truncate` | x/gnovm/keeper/stdlibs/bytes/buffer.gno:84-94 | Keeps the first n unread bytes; panics exactly when there are not so many |
| `Buffers.Buffer.Reset` | x/gnovm/keeper/stdlibs/bytes/buffer.gno:99-103 | Empties the queue |
| `Buffers.Buffer.TryGrowByReslice` | x/gnovm/keeper/stdlibs/bytes/buffer.gno:108-114 | Makes room exactly when the array has it |
| `Buffers.Buffer.GrowSlow` | x/gnovm/keeper/stdlibs/bytes/buffer.gno:119-152 | Keeps the contents and makes room behind them, or panics when the array would be too large; a nil buffer asked for 1 to 64 bytes gets an array of 64; says when the bytes behind the contents are gone; the copying is paid for by earlier room asked for |
| `Buffers.Buffer.Slide` | x/gnovm/keeper/stdlibs/bytes/buffer.gno:134-151 | Sliding keeps the contents and costs no more than the credit saved up |
| `Buffers.Buffer.Reallocate` | x/gnovm/keeper/stdlibs/bytes/buffer.gno:142-151 | Moving the contents to a larger array keeps them and costs no more than the credit saved up |
| `Buffers.Buffer.Grow` | x/gnovm/keeper/stdlibs/bytes/buffer.gno:159-165 | Guarantees room without changing the contents; says exactly what becomes of a pending read and of the bytes it would take back |
| `Buffers.Buffer.Write` | x/gnovm/keeper/stdlibs/bytes/buffer.gno:170-177 | Appends all of p, or panics, which takes a buffer too large, and keeps the contents; the first array has 64 bytes if p fits |
| `Buffers.Buffer.WriteByte` | x/gnovm/keeper/stdlibs/bytes/buffer.gno:265-273 | Appends the byte |
| `Buffers.Buffer.WriteRune` | x/gnovm/keeper/stdlibs/bytes/buffer.gno:279-293 | Appends the encoding of the rune and gives back the room it did not need |
| `Buffers.Buffer.Read` | x/gnovm/keeper/stdlibs/bytes/buffer.gno:299-315 | Takes up to n bytes off the front; EOF exactly at the end |
| `Buffers.Buffer.Next` | x/gnovm/keeper/stdlibs/bytes/buffer.gno:321-333 | Takes up to n bytes off the front; a negative n panics |
| `Buffers.Buffer.ReadByte` | x/gnovm/keeper/stdlibs/bytes/buffer.gno:337-347 | Takes one byte off the front |
| `Buffers.Buffer.ReadRune` | x/gnovm/keeper/stdlibs/bytes/buffer.gno:354-370 | Takes one rune off the front and decodes it |
| `Buffers.Buffer.UnreadRune` | x/gnovm/keeper/stdlibs/bytes/buffer.gno:377-386 | Puts back the rune read last, if all its bytes are still there; otherwise reports success and puts back nothing; refused after anything but ReadRune |
| `Buffers.Buffer.UnreadByte` | x/gnovm/keeper/stdlibs/bytes/buffer.gno:394-403 | Puts back the byte read last, if there is one |
| `Buffers.Buffer.ReadBytes` | x/gnovm/keeper/stdlibs/bytes/buffer.gno:411-431 | Takes everything through the first delimiter, or everything with EOF |
| `Buffers.Buffer.ReadFrom` | x/gnovm/keeper/stdlibs/bytes/buffer.gno:201-220 | Appends the whole stream of the reader, in order, whatever its chunks; panics only for an impossible count or a buffer too large, with what was read until then appended; asks for 512 bytes for each Read and for the bytes read, and calls Read no more often than the idleness of the reader allows |
| `Buffers.SlideCost` | x/gnovm/keeper/stdlibs/bytes/buffer.gno:134-139 | The credit max(0, 2*len - cap) and three units for each byte asked for pay for sliding |
| `Buffers.ReallocCost` | x/gnovm/keeper/stdlibs/bytes/buffer.gno:142-151 | The same credit pays for moving the contents to an array of 2*cap + n bytes |
| `Buffers.Buffer.TooMuchAsked` | x/gnovm/keeper/stdlibs/bytes/buffer.gno:140-141 | The array is too large only once six times the bytes asked for exceed the largest int |
| `Buffers.Do` | x/gnovm/keeper/stdlibs/bytes/buffer.gno:84-431 | Every call, ReadFrom included, does to the buffer, and to the bytes behind its contents, what it does to an abstract queue, asks for exactly the room RoomOf says, and panics only for its arguments, its reader, or after 10^18 bytes and more have been asked for |
| `Buffers.Run` | x/gnovm/keeper/stdlibs/bytes/buffer.gno:84-431 | Any run of calls, ReadFrom included, on a zero buffer is a run of the queue; all copying moves at most three bytes for each byte of room asked for, which ReadFrom does 512 bytes for each Read, and for each byte written where nothing but Write, WriteString and WriteByte asks for room; no call panics for want of room before about 10^18 bytes have been asked for |
| `Buffers.RunOneWay` | x/gnovm/keeper/stdlibs/bytes/buffer.gno:170-431 | What comes out of a buffer and what is left in it is what went in, in order |
| `Buffers.ReadThenUnread` | x/gnovm/keeper/stdlibs/bytes/buffer.gno:299-431 | After any read that returned data UnreadByte restores exactly the last byte, and UnreadRune after ReadRune exactly the rune |
| `Buffers.GrowThenUnread` | x/gnovm/keeper/stdlibs/bytes/buffer.gno:119-165 | A rune read and then Grow: UnreadRune brings the rune back, and UnreadByte its last byte, if and only if more was buffered and the array already had the room; they report an error if the rune was all there was, and otherwise report success although nothing comes back |
| `Buffers.LostRune` | x/gnovm/keeper/stdlibs/bytes/buffer.gno:377-386 | On a zero buffer: Write("ab"), ReadRune, Grow(100), UnreadRune reports success and leaves "b" |
| `Queues.FirstInFirstOut` | x/gnovm/keeper/stdlibs/bytes/buffer.gno:170-442 | First in, first out, over any run without unreading, truncating and resetting |
| `Queues.TakenBack` | x/gnovm/keeper/stdlibs/bytes/buffer.gno:372-403 | On the queue: what UnreadByte and UnreadRune bring back after each kind of read, and what stays behind it |
| `Queues.StaleUnread` | x/gnovm/keeper/stdlibs/bytes/buffer.gno:394-431 | A ReadBytes that finds nothing counts as a read: UnreadByte then takes back the byte read before it, if that is still there |
| `Queues.StepHoldsRune` | x/gnovm/keeper/stdlibs/bytes/buffer.gno:119-386 | Every call but Grow keeps the bytes of a rune that may be unread; Grow keeps them exactly if it moves nothing |
| `Queues.RuneIsThere` | x/gnovm/keeper/stdlibs/bytes/buffer.gno:377-386 | In any run without Grow the bytes of a rune that may be unread are still there |
| `Queues.RoomIsInput` | x/gnovm/keeper/stdlibs/bytes/buffer.gno:170-189 | Where only Write and WriteByte ask for room, it is the number of bytes written, writes that panicked not counted |

## Left out

- Io.Reader.Read: a reader reports an error only with its stream used up; one that reports an error and has more data later, which bufio.Reader would clear and read on from, is outside every claim about bufio.Reader, bufio.Writer.ReadFrom and bytes.Buffer.ReadFrom.
- Scanning.Scanner.Scan: for a split function that breaks the law, the tokens are tied to the split function's answers one by one, not to the whole input.
- BufferedReading.Reader.constructor: the reader keeps the io.Reader contract and does not itself report the buffer-full error, which ReadLine could not tell from its own; a reader with an impossible count panics in the code and is not modelled here.
- BufferedWriting.Writer.ReadFrom: the reader keeps the io.Reader contract, and the hand-off to an underlying io.ReaderFrom is left out.
- BufferedWriting.Writer.ReadSome: the reader keeps the io.Reader contract.
- Buffers.Buffer.Grow: a failed allocation is not modelled; the only panics are those of a negative and of a too large size.
- ReadingClients.ReadLineThenUnread: when the input is exactly as long as the buffer, whether the failure occurs depends on whether the reader reports the end together with the last bytes.
- ByteSearch.Index: bytealg.Index is used by its contract, first occurrence or -1; the body in the repository panics, and its MaxLen of 0 keeps Index from calling it.
- Coins.Sort: stands for sort.Sort by its contract.
- Html.UnescapeString: the entity tables are a parameter with the length property their own test checks and the three names EscapeString relies on.
- Slices are compared by content: aliasing of a returned token, line or Peek result with the buffer, and nil against empty, are not modelled.
- ScanWords is given to a Scanner as the function its loops are proved to compute, since a split function is a function value.
- bufio: ReadRune, UnreadRune, Discard, WriteTo, Writer.WriteRune, Reset and the fast hand-offs through io.WriterTo and io.ReaderFrom.
- bytes: IndexAny and its relatives, case mapping, trimming, Map, Repeat and bytes.Reader.
- bytes.Buffer: WriteTo, NewBuffer and NewBufferString.
- Codec: the remaining messages of query.pb.go and tx.pb.go, which have the same shape, reflection, gRPC and the gateway.
- chain: Coin's own comparisons, String and IsZero.
- The keeper, the ante handler, the module, the application, the command line, store access and everything that calls the virtual machine.
