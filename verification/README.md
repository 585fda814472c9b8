# Verification of the kdb+ IPC libraries

A Dafny model of the parts of the repository that read, write, scan and copy kdb+ messages incrementally,
and of the smaller algorithms around them, with proofs of what they promise.

The heart is the IPC codec of `src/ipc++`.  Its writer and its reader handle a recursive value tree in whatever
pieces a caller has room for: every call replays the tree with a cursor that starts at minus the number of bytes
done, skips what earlier calls did, and goes on from there.  That is right only because no call stops inside an
indivisible unit, and because the units a call stops between are the ones the next call skips by.  The project makes
those units explicit and proves, for all values, all capacities and all chunkings, that the pieces add up.

| file | what it holds |
|---|---|
| `Bytes.dfy`, `KdbValue.dfy` | little-endian integers; values, their encoding and announced size |
| `Cursors.dfy`, `Units.dfy` | indivisible units and what one pass of a resumable cursor does with them |
| `Writer.dfy`, `MessageWriter.dfy` | the resumable writer; runs of its calls |
| `Partial.dfy`, `Reader.dfy`, `TreeReader.dfy` | objects under construction and the resumable reader |
| `MessageReader.dfy`, `ResumedParse.dfy` | framed messages, plain and compressed; a compressed atom in two pieces |
| `ResponseLoop.dfy`, `EndToEnd.dfy` | the small-buffer driver; writer to reader |
| `Decode.dfy` | one-shot decoding, the inverse of the encoding |
| `Lz.dfy`, `Decompressor.dfy` | the meaning of a compressed payload and the streaming decompressor |
| `Scanner.dfy`, `UpdFilter.dfy` | payload lengths and the update filter, by bytes alone |
| `Journal.dfy`, `Replay.dfy` | walking a journal and copying it in several goes |
| `TornMessages.dfy` | journals that end within a message |
| `CircularBuffers.dfy`, `StreamLoop.dfy` | the doubled ring buffer and the steady-state receive loop |
| `KnownAnswers.dfy` | concrete messages, byte by byte |
| `SymbolVectors.dfy`, `Calendar.dfy`, `Base64.dfy`, `LogFilter.dfy`, `BootOrder.dfy`, `FreeLists.dfy` | smaller algorithms of the repository |

`dafny verify dfyconfig.toml` checks everything.

Conventions.  Numbers, reals and floats are bit patterns.  Integers are unbounded unless a width matters, and then the
wrap-around is written out (`AsInt32`, `ToInt32`, `% TWO_64`, `Up` and `Down`).  Input that a source function gets as a
address and a length is a sequence; sockets and files are parameters that say what each read delivers and how many bytes
each write takes.  A vector's announced count is an explicit field where the source relies on `capacity()`.  Where a
ghost parameter names a value or message, the contract says what happens if the bytes are those of that value.  On other
bytes the readers end in one of their results, `RD_THROWN` where an exception escapes and `RD_UNDEFINED` where the source
goes on through a pointer that is null or was never set; a compressed payload must be well formed.

Where the code and what it says of itself differ, the model follows the code:

- A step dictionary is read as a dictionary; it is never written.  `Partial.AsRead` says what becomes of a value, and the
  theorems about reading hold for values with step dictionaries at any depth.
- A message whose first byte is of no known type is reported as incomplete, on every call
  (`MessageReader.KdbIpcMessageReader.ReadMsgData`).
- The length scanner documents -1 and -2 for incomplete and unknown input.  A table adds 2 to these codes, so an unknown
  element in a table is reported as a length, that of everything before the table; from there the walk reports 0
  (`Scanner.ScanReports`).  The walk does not look at the bytes of an atom, so a torn one is not noticed
  (`Scanner.TruncationDetectedIffGuarded`).  Primitives are listed among the atoms but never reach that branch.
- A journal that ends within a message: every cut is reported where the message begins if and only if the message has no
  fixed-width atom, no table and only known types (`TornMessages.EveryCutReportedIff`).  The update a tickerplant sends
  ends in a table; a cut of it is reported there if and only if the table has not begun (`TornMessages.CutReportedIff`).
  If its columns are vectors, a later cut that leaves more than one byte of the table is taken for a message that ends
  one byte into the table, and if the update is wanted that piece is copied (`TornMessages.TornUpdate`,
  `TornMessages.SmallCutIsCopied`); if the announced count includes the torn message the replay succeeds and the copy is
  in step with no journal any more (`Replay.TornUpdateReplay`).
- A replay that does report a torn message has copied what came before it but leaves the counts alone, so the next one
  copies those messages again (`Replay.TornReplay`); a replay whose write fails counts the message it lost, and a write
  that takes only part of a message counts as one that took it all (`Replay.Counts.Subscribe`).
- Once a call has parsed the beginning of a compressed payload, the next one goes on with the object but reads from the
  first byte of the payload.  An atom is then right if and only if every byte of its value is its type byte
  (`MessageReader.ShiftedRightIff`), and may be reported as complete with its last byte still to come;
  `ResumedParse.OneInTwoCalls` is a long 1 that is read as 505.
- A compressed header with a decompressed length below eight makes the allocation fail.  The comment there says that the
  same bytes may be offered again, but the announced length stays set, so that the next call would skip the header and
  go on with a decompressor that is not there (`MessageReader.KdbIpcMessageReader.ReadMsgHdr`).
- The small-buffer driver gives up after eleven reads and shows the response without asking whether there is one
  (`ResponseLoop.ShowResponse`).
- The depth test of the q extension also lets through a dictionary whose value is one of the names
  (`LogFilter.HitsIffWanted`, `LogFilter.DictGetsThrough`); its replay loop tests for the end only after a message, so
  that a journal without any is not replayed (`LogFilter.MgReplayMsgs`).
- The C++ dates use truncating division.  From 0000-03-01 on they are those of the JavaScript library.  On a day before,
  they are if and only if the day lies in the year, counted from March, of a leap year and the estimated year is not two
  years ahead, which it can be on the last days of a February only (`Calendar.AgreeIff`, `Calendar.OnlyLastDays`,
  `Calendar.TwoFebruaries`); not all of what they make of the other days are dates (`Calendar.TruncIsDateIff`).
- The date of a timestamp before 2000 is that of the next day unless it is a midnight (`Calendar.DateIsRightIff`).
- A frame whose header announces fewer than eight bytes reverses the sign of the filter's result
  (`UpdFilter.SignIsVerdictIff`).
- The guard of `FreeList::release` compares with the capacity, which the index only reaches in the one case that
  `FreeLists.FreeList.Release` states.

## Model

| member | source | states |
|---|---|---|
| Cursors.GreedyResume | src/ipc++/src/KdbType.C:586-668 | What makes resuming sound for every chunking: two calls that together have some room move as far as one call with all of it, provided the first stopped between two indivisible units |
| Cursors.GreedyIsLargestBoundary | src/ipc++/src/KdbType.C:605-637 | A call that takes whole units while they fit stops at the largest unit boundary within its room |
| Cursors.PassConcat | src/ipc++/src/KdbType.C:968-985 | Replaying a negative cursor over two pieces in a row is replaying it over both at once: if the first piece is not finished the second is not begun, and the cursor that the first leaves is right for the second |
| Cursors.PassRepsInside | src/ipc++/src/KdbType.C:605-668 | Within a vector the byte offset to resume at is a whole number of elements, and the number that fits is the division the code computes |
| Cursors.PassFromStart | src/ipc++/src/KdbType.C:2483-2504 | A call with a fresh buffer moves the greedy number of bytes and leaves the cursor at that number |
| Bytes.FromToLE | src/ipc++/include/MgKdbType.H:438-446 | A number of the given width survives the trip through its little-endian bytes |
| Bytes.Int32RoundTrip | src/ipc++/src/KdbType.C:373-385 | A count below 2^31 survives the trip through a signed 32-bit field; a larger one comes back less 2^32, negative |
| KdbValue.WireSzIsLength | src/ipc++/src/KdbType.C:933-940 | wireSz of any value is the number of bytes its encoding has, for all types and any nesting; it follows the per-type formulas of the source |
| KdbValue.EncodeElemsSlice | src/ipc++/src/KdbType.C:347-362 | The bytes of a run of vector elements are a slice of the bytes of the vector |
| KdbValue.Kinds | src/ipc++/src/KdbType.C:387-451 | The type byte tells the kind of a value apart; dictionaries have two, one of which a step dictionary has |
| Units.WUnitsSum | src/ipc++/src/KdbType.C:586-668 | The pieces a writer puts out whole cut the encoding of any value into non-empty parts |
| Units.RUnitsSum | src/ipc++/src/KdbType.C:569-637 | The pieces a reader takes whole cut the same encoding differently, into non-empty parts |
| Writer.WriteBuf.Put | src/ipc++/src/KdbType.C:317-345 | The bytes land behind those already written, both cursors move by their number, and nothing after them changes |
| Writer.WriteBuf.WriteAry | src/ipc++/src/KdbType.C:347-362 | As many whole elements as there is room for are appended |
| Writer.WriteUnit | src/ipc++/src/KdbType.C:586-604 | An atom, symbol or head is passed over, written whole, or refused with nothing changed |
| Writer.WriteElems | src/ipc++/src/KdbType.C:639-668 | Elements written by earlier calls are skipped and as many as fit are appended; WR_OK exactly at the end |
| Writer.WritePair | src/ipc++/src/KdbType.C:1685-1708 | Table and dictionary: the second half is begun only when the first is finished, in this call or an earlier one |
| Writer.WriteSeq | src/ipc++/src/KdbType.C:968-985 | List and projection: children go out one after the other across calls, none twice, none skipped |
| Writer.WriteVal | src/ipc++/src/KdbType.C:791-804 | Any value, any capacity, any resume point between units: exactly the part of the encoding from where earlier calls stopped to the last unit that fits is appended, and WR_OK is returned exactly when that is the end |
| MessageWriter.KdbIpcMessageWriter.Write | src/ipc++/src/KdbType.C:2483-2504 | One call appends the greedy slice of the frame, counts it off the remaining bytes, keeps the resume point on a unit boundary, leaves the rest of the buffer alone, and returns WR_OK exactly when nothing remains |
| MessageWriter.MessageLength | src/ipc++/src/KdbType.C:2475-2481 | The announced frame length is the length of the frame and the sum of its units |
| MessageWriter.HeaderFields | src/ipc++/src/KdbType.C:2486-2495 | The header says little-endian, then the message type the writer was made with, then uncompressed, then the length |
| MessageWriter.RunWritesPrefix | src/ipc++/src/KdbType.C:2483-2504 | For every sequence of capacities the outputs of successive calls concatenate to a prefix of the one-shot frame, and the run stops between units |
| MessageWriter.RunCompletesIff | src/ipc++/src/KdbType.C:2483-2504 | With a buffer of fixed size the whole frame gets out if and only if its largest unit fits in it; no more calls are needed than there are units |
| MessageWriter.RunStuck | src/ipc++/src/KdbType.C:2483-2504 | A unit that is larger than the buffer is never passed, however many calls are made |
| Partial.ValueOfWhole | src/ipc++/src/KdbType.C:387-451 | The finished object that a reader hands over stands for exactly the value whose encoding was read, with dictionaries in place of step dictionaries at any depth |
| Partial.AsReadIff | src/ipc++/src/KdbType.C:438-442 | A value is read as it was sent if and only if there is no step dictionary in it |
| Partial.WholeShape | src/ipc++/src/KdbType.C:569-637 | With the last byte read every field, element and child of the object is there |
| Partial.SymbolsOfLocs | src/ipc++/src/KdbType.C:256-276 | Locations that tile the character data give back exactly the symbols |
| Partial.SymsResume | src/ipc++/src/KdbType.C:1359-1376 | At a resume point the symbols done are those wholly before it, and reading goes on with the next |
| Partial.SymsGreedy | src/ipc++/src/KdbType.C:256-276 | Taking symbols as long as their NUL is there is the greedy choice among units |
| Partial.DecodeEncodeElems | src/ipc++/src/KdbType.C:605-637 | Vector elements come back from their bytes |
| Reader.FeedsSplit | src/ipc++/src/KdbType.C:942-966 | A buffer that goes on with two pieces goes on with the second once the first is done, wherever the call began |
| Reader.ReadBuf.ReadSym | src/ipc++/src/KdbType.C:242-254 | A string is taken with its NUL or not at all |
| Reader.ReadIntAtom | src/ipc++/src/KdbType.C:569-584 | An atom whose type byte an earlier call read is skipped, read whole, or left for the next call |
| Reader.ReadSymAtom | src/ipc++/src/KdbType.C:779-789 | The same for symbols and exceptions |
| Reader.ReadIntVector | src/ipc++/src/KdbType.C:605-637 | Elements of earlier calls are kept, as many whole ones as have arrived are added in order |
| Reader.ReadFunction | src/ipc++/src/KdbType.C:1829-1847 | The same for the text of a function |
| Reader.ReadSyms | src/ipc++/src/KdbType.C:256-276 | Whole symbols are appended to the data and located, on any input |
| Reader.ReadSymVector | src/ipc++/src/KdbType.C:1359-1376 | Symbols of earlier calls are kept, whole ones that have arrived are added |
| Reader.StrNLenAgrees | src/ipc++/src/KdbType.C:242-276 | A terminated string is found whole, or its terminator is seen to be missing |
| TreeReader.NewInstance | src/ipc++/src/KdbType.C:387-451 | On any bytes it ends in an object or an error, and in undefined behaviour if and only if the cursor is inactive; what each first byte creates, how much of the head that takes, and what it refuses, written out against the bytes alone, a step dictionary included; at the start of an encoding it creates the right object from its head, or takes nothing if the head has not all arrived |
| TreeReader.NewVec32 | src/ipc++/src/KdbType.C:373-385 | The announced count becomes the capacity; a negative one throws |
| TreeReader.ReadChild | src/ipc++/src/KdbType.C:1652-1683 | At a resume point between units a child is created or found again, then read on; a child of the wrong type is refused, and a first byte that makes no object, with the results for each |
| TreeReader.ReadPair | src/ipc++/src/KdbType.C:1735-1762 | Keys, then values, across any number of calls |
| TreeReader.ReadSeq | src/ipc++/src/KdbType.C:942-966 | Children that exist are read on, missing ones are created, up to the announced count, across any number of calls |
| TreeReader.ReadVal | src/ipc++/src/KdbType.C:1652-1762 | From what earlier calls made of any value, a call with any more bytes makes exactly the object for the longest unit-aligned part that has arrived; RD_OK exactly at the end; on any other input the object stays sane and no byte is read beyond the buffer |
| MessageReader.KdbIpcMessageReader.ReadMsgHdr | src/ipc++/src/KdbType.C:2132-2185 | Header handling on every input: too short, wrong byte order, plain, compressed with or without its second length, an allocation that fails and what it leaves set, and resumed; on a well-formed compressed frame the decompressor is ready for its payload |
| MessageReader.KdbIpcMessageReader.ReadMsgData | src/ipc++/src/KdbType.C:2187-2218 | The payload is read on where it stopped; the object is handed over exactly when it is whole; a first byte of which no object can be made is reported as incomplete |
| MessageReader.KdbIpcMessageReader.Inflate | src/ipc++/src/KdbType.C:2220-2240 | All whole blocks at hand are decompressed; if nothing had been parsed before, the object is what all bytes so far make, complete exactly when they are all of the payload; if the type byte of an atom had been parsed, the atom read from the first byte on |
| MessageReader.KdbIpcMessageReader.ReadMsg | src/ipc++/src/KdbType.C:2220-2240 | For a plain frame in any pieces, followed by anything: the bytes used are the largest unit boundary within what has arrived, the call is complete exactly when that is the whole frame, and the message is then the object for the value; for a compressed frame the same by blocks as long as nothing has been parsed; for a compressed atom also after that: complete as soon as there are as many bytes as its value has, with the type byte taken for the first of them; a complete message has the type that was sent, whatever its form |
| MessageReader.ShiftedRightIff | src/ipc++/src/KdbType.C:2220-2240 | The atom so read is the one sent if and only if every byte of its value is its type byte |
| MessageReader.KdbIpcMessageReader.CanGoOn | src/ipc++/src/KdbType.C:2054-2099 | After any calls on a compressed frame the decompressor can go on with the bytes of the frame that come next |
| ResumedParse.AtomInTwoCalls | src/ipc++/src/KdbType.C:2220-2240 | Any atom of eight bytes, sent in two blocks and offered block by block, is completed by the second call with the shifted value |
| ResumedParse.OneInTwoCalls | src/ipc++/src/KdbType.C:2220-2240 | The long 1 is read as 505 |
| MessageReader.PassAfterHeader | src/ipc++/src/KdbType.C:2132-2185 | A call that reads the header and one that skips it come to the same count for the whole frame |
| MessageReader.KdbIpcMessageReader.Reset | src/ipc++/src/KdbType.C:2121-2130 | After a reset the reader has begun no message |
| ResponseLoop.Compact | src/examples/src/connect_to_kdb_app.C:79-82 | What was not used moves to the front, in place |
| ResponseLoop.ReadResponse | src/examples/src/connect_to_kdb_app.C:56-92 | For every sequence of read sizes: it completes if and only if those reads bring the whole frame; what is used is then exactly the frame, whatever follows it, with the value in hand; it can only if every unit fits in the buffer, and then does within as many reads as the frame has bytes; the more-used-than-there exit is never taken; the type of a complete message is the one that was sent |
| ResponseLoop.FullReadsSuffice | src/examples/src/connect_to_kdb_app.C:62-90 | With reads that fill the buffer and no unit above m, k reads bring every frame of at most k * (capacity - m + 1) bytes |
| ResponseLoop.NoMoreThan | src/examples/src/connect_to_kdb_app.C:62-90 | So many reads never bring more than so many buffers |
| ResponseLoop.ShowResponse | src/examples/src/connect_to_kdb_app.C:58-92 | The driver as written, eleven reads into 24 bytes and then the response without a test: which frames are shown, and which end in a null dereference |
| ResponseLoop.Moves | src/ipc++/src/KdbType.C:2132-2185 | After a call the unused bytes are fewer than the next unit, so there is always room for more when all units fit |
| EndToEnd.SendAll | src/ipc++/src/KdbType.C:2483-2504 | Calling the writer until it is done delivers the frame if and only if its largest unit fits in the buffer |
| EndToEnd.Transfer | src/ipc++/src/KdbType.C:2220-2240 | Written through any buffer and read through any other in any pieces, a value arrives as it was sent, with the message type it was sent with, if and only if the units of the writer fit and the reads bring the frame; with enough reads, if and only if the units of both sides fit |
| Decode.RoundTrip | src/ipc++/src/KdbType.C:387-451 | Decoding the encoding of any value gives that value and leaves whatever follows alone |
| Decode.PrefixFree | src/ipc++/src/KdbType.C:387-451 | No encoding is the beginning of another |
| Decode.ReaderAgrees | src/ipc++/src/KdbType.C:2187-2210 | The object of the chunked reader stands for what one-shot decoding gives |
| Lz.HashBits | src/ipc++/src/KdbType.C:2089-2090 | A bit of the hash is set if and only if it differs in the two bytes, in powers of two |
| Lz.HashUndone | src/ipc++/src/KdbType.C:2089-2090 | Equal bytes have hash 0, and hashing with the same byte again gives back the other |
| Lz.RunConcat | src/ipc++/src/KdbType.C:2054-2099 | Decoding tokens in two goes is decoding them in one |
| Lz.ReferenceRepeats | src/ipc++/src/KdbType.C:2071-2081 | A reference appends the pair last noted with its hash and the bytes after it, also where the copy runs into itself |
| Lz.BlockLensSum | src/ipc++/src/KdbType.C:2034-2052 | The blocks, the last one short, make up the payload |
| Lz.PopCountControl | src/ipc++/src/KdbType.C:2045-2049 | The population count of a control byte is the number of references in its block |
| Decompressor.KdbIpcDecompressor.NotePairs | src/ipc++/src/KdbType.C:2089-2094 | Each pair of bytes is noted once, in order; every slot in use then holds the last position of its hash, inside the output |
| Decompressor.KdbIpcDecompressor.CopyTail | src/ipc++/src/KdbType.C:2079-2081 | Bytes are copied one by one, so overlapping copies repeat |
| Decompressor.KdbIpcDecompressor.BlockReadSz | src/ipc++/src/KdbType.C:2034-2052 | The size asked for is that of the next block, the truncated last one included, and exceeds what is there exactly when the block is not all there |
| Decompressor.KdbIpcDecompressor.TableInvariant | src/ipc++/src/KdbType.C:2059-2102 | Whenever the decompressor is in a valid state, every slot in use holds an earlier position whose pair has its hash, and pairs are noted up to the last but one byte |
| Decompressor.KdbIpcDecompressor.OneToken | src/ipc++/src/KdbType.C:2066-2107 | One step of the loop decodes one token: output, table and bookkeeping follow the pure decoder, and only bytes already produced are copied |
| Decompressor.KdbIpcDecompressor.Uncompress | src/ipc++/src/KdbType.C:2054-2099 | For every chunking a call decodes exactly the whole blocks that have arrived and stops between blocks, with the output of the pure decoder; the table invariant holds throughout |
| Scanner.IpcPayloadLen | src/ipc++/src/KdbType.C:2445-2468 | The walk over any bytes, its loops included, against its recursive specification |
| Scanner.MsgLenList | src/ipc++/src/KdbType.C:2348-2362 | The element loop of the walk |
| Scanner.MsgLenSymVec | src/ipc++/src/KdbType.C:2329-2346 | The symbol loop of the walk |
| Scanner.ScanSizes | src/ipc++/src/KdbType.C:2384-2443 | The sizes the walk goes by, its own two tables, are those of the values the classes write |
| Scanner.HeadReports | src/ipc++/src/KdbType.C:2297-2468 | What a first byte and a count alone decide, on any bytes: unknown types, headers that are not all there, negative counts, a table of one byte |
| Scanner.DictWalk | src/ipc++/src/KdbType.C:2297-2316 | The walk over a dictionary ends as the walks over its halves do: unknown stays unknown, a place where it is stuck moves by what precedes it, and otherwise the lengths add up |
| Scanner.TableWalk | src/ipc++/src/KdbType.C:2297-2316 | The same for a table, except that an unknown element makes the walk report the length of everything before the table |
| Scanner.ScanReports | src/ipc++/src/KdbType.C:2297-2468 | For every value and suffix the exact report: the length, -2, or the offset of the table that hides an unknown element, from which the walk then reports 0 |
| Scanner.LengthIffScannable | src/ipc++/src/KdbType.C:2297-2468 | The report is the encoded length if and only if all types are ones the walk knows |
| Scanner.TornShort | src/ipc++/src/KdbType.C:2318-2390 | A guarded value of which bytes are missing is reported as incomplete |
| Scanner.TruncationDetectedIffGuarded | src/ipc++/src/KdbType.C:2413-2444 | Every truncation is reported as incomplete if and only if the value has no fixed-width atom, no table and no unknown type |
| UpdFilter.FilterDecides | src/ipc++/src/KdbType.C:2516-2556 | On every complete message the byte filter decides exactly what matching the decoded value decides |
| UpdFilter.FilterFrames | src/ipc++/src/KdbType.C:2558-2585 | On a frame: -1 while bytes are missing, then the frame length with the sign of the verdict |
| UpdFilter.HeadersRefused | src/ipc++/src/KdbType.C:2558-2585 | A header that is short or announces more than there is gives -1, a first byte other than 1 or a negative length -2, written against the bytes |
| UpdFilter.VerdictStands | src/ipc++/src/KdbType.C:2516-2556 | A verdict rests on no byte that is not there: it stands whatever follows |
| UpdFilter.SignIsVerdictIff | src/ipc++/src/KdbType.C:2558-2585 | On any bytes with a header that the filter accepts: the result is the announced length signed by the verdict if and only if that length is more than the header, or equal to it with a favourable verdict |
| UpdFilter.ShortHeaderGetsThrough | src/ipc++/src/KdbType.C:2558-2585 | A header that announces fewer than eight bytes turns the sign around: a concrete frame that matches nothing gives a positive result |
| Journal.CopyIfUpd | src/ipc++/src/KdbType.C:2596-2610 | The callback copies the messages after the skipped ones that match, as much of them as the write takes, and reports a failed write; on other bytes what it copies, and when it would take bytes that are not there |
| Journal.FilterMsgs | src/ipc++/src/KdbType.C:2613-2666 | On any bytes the loop is the walk of its specification; on a header and whole messages the callback gets exactly the first min(n, max_count) of them in order, and what comes after max_count is not touched; with a failing write the exact stop |
| Journal.WholeJournal | src/ipc++/src/KdbType.C:2613-2666 | What the walk makes of a header and whole messages: the matching ones after the skipped ones are copied, up to the first for which there is no write |
| Journal.JournalAndMore | src/ipc++/src/KdbType.C:2613-2666 | When it is to go over more messages than there are whole ones it goes on with the bytes after them, whatever they are |
| Journal.CutIsWholeIff | src/tpmux/src/mg_coro_kdb_subscribe_replay.cpp:181-187 | The copy is that of the whole messages if and only if every write takes the whole message |
| TornMessages.EveryCutReportedIff | src/ipc++/src/KdbType.C:2630-2646 | Every cut of the message after the whole ones is reported as incomplete where that message begins if and only if it has no fixed-width atom, no table and only known types |
| TornMessages.CutReportedIff | src/ipc++/src/KdbType.C:2630-2646 | Of a message that ends in a table, a cut is reported there if and only if the table has not begun |
| TornMessages.TornReport | src/ipc++/src/KdbType.C:2297-2362 | What the scanner says of such a cut: incomplete up to the beginning of the table, and from there on what it says of the piece of the table, which is never incomplete |
| TornMessages.ReportBounds | src/ipc++/src/KdbType.C:2297-2468 | For any bytes at all the scanner reports -1, -2, a length that exceeds what is there by less than an atom, or one that has wrapped around |
| TornMessages.TornOffer | src/ipc++/src/KdbType.C:2596-2610 | Whether a torn message would be copied depends on its first two elements alone |
| TornMessages.TornUpdate | src/ipc++/src/KdbType.C:2630-2660 | An update cut within its table, exactly: one byte of it makes the scanner leave the journal; with more the bytes up to the table and one more are copied as a message, which they are not, and the walk goes on after them |
| TornMessages.TornIsNoMessage | src/ipc++/src/KdbType.C:387-451 | The beginning of an encoding is no encoding |
| TornMessages.SmallCutIsCopied | src/ipc++/src/KdbType.C:2630-2660 | The first 14 bytes of a concrete update: 13 of them are copied, and a replay of one message succeeds |
| Journal.Splice | src/tpmux/src/mg_coro_kdb_subscribe_replay.cpp:188-200 | Replaying to n1 and then to n2 with the first n1 skipped copies what one replay to n2 does |
| Replay.Counts.Subscribe | src/tpmux/src/mg_coro_kdb_subscribe_replay.cpp:140-205 | On any journal the counts and the copy follow the walk from the messages counted before; if the journal has as many messages as announced, or ends with one, the copy stays in step with it if and only if every write takes its whole message, and a failed write loses the message it failed at |
| Replay.TornReplay | src/tpmux/src/mg_coro_kdb_subscribe_replay.cpp:190-203 | A subscription that meets a torn guarded message fails, and the copy stays in step if and only if there was nothing to copy before it |
| Replay.TornUpdateReplay | src/tpmux/src/mg_coro_kdb_subscribe_replay.cpp:190-203 | One whose announced count includes an update torn within its table succeeds, and the copy is then in step with no journal, however it is counted |
| Replay.TornSubscription | src/tpmux/src/mg_coro_kdb_subscribe_replay.cpp:190-203 | That happening on a concrete journal of 14 bytes after its header |
| Replay.Grown | src/tpmux/src/mg_coro_kdb_subscribe_replay.cpp:188-200 | A journal that has grown leaves the copy in step |
| CircularBuffers.WindowKept | src/core/include/MgCircularBuffer.H:85-106 | Writing behind the readable bytes, round the end or not, does not change them |
| CircularBuffers.CircularBuffer.Append | src/core/include/MgCircularBuffer.H:79-106 | What is read into the buffer appears behind what was there |
| CircularBuffers.CircularBuffer.SetConsumed | src/core/include/MgCircularBuffer.H:94-101 | Consuming drops bytes from the front, round the end or not |
| CircularBuffers.CircularBuffer.Clear | src/core/include/MgCircularBuffer.H:90-93 | Clearing empties the buffer |
| StreamLoop.Drain | src/examples/src/subscribe_to_tp.C:256-285 | Frames that have arrived whole are consumed one by one, matching ones are decoded first, until the next is not complete or the limit is reached |
| StreamLoop.Receive | src/examples/src/subscribe_to_tp.C:237-289 | For any sequence of read sizes and any stream of frames: the frames consumed are all those whose bytes the reads have brought, each read filling what is left of the buffer as far as it can, or those up to the one with the last message that is to be delivered; delivered are exactly the matching messages of the frames consumed, in order, as the decoder gives them; the parse-error and not-decoded exits are never taken, the full-buffer exit exactly when a read comes up with the next frame larger than the buffer; given enough reads all is delivered, or all before the first such frame |
| StreamLoop.WholeFramesLargest | src/examples/src/subscribe_to_tp.C:256-285 | The number of frames whose bytes have arrived is the largest whose lengths add up to no more |
| StreamLoop.OneReadSuffices | src/examples/src/subscribe_to_tp.C:246-285 | One read that offers as much as all frames have brings them all |
| StreamLoop.FrameNext | src/examples/src/subscribe_to_tp.C:260-283 | The filter and the reader agree on the frame at the front of the buffer |
| Calendar.YearFound | src/ipcjs/src/ipc.js:223-229 | For every day number the estimated year is the right one or the next, so one correction is enough |
| Calendar.DatesAreValid | src/ipcjs/src/ipc.js:217-239 | For every day number the formula gives a valid Gregorian date |
| Calendar.DatesFollow | src/ipcjs/src/ipc.js:217-239 | The day after is the date after, across months, leap years and centuries |
| Calendar.CountBegins | src/ipcjs/src/ipc.js:217-239 | Day 0 is 2000-01-01 |
| Calendar.FormulaCounts | src/ipcjs/src/ipc.js:217-239 | For every day number, before and after 2000, the closed formula gives the date that counting day by day gives |
| Calendar.LibrariesAgree | src/ipc++/src/KdbType.C:138-157 | The C++ formula, with truncating division, agrees from 0000-03-01 on |
| Calendar.AgreeFromIff | src/ipc++/src/KdbType.C:138-157 | They agree from a day on if and only if that day is not before 0000-03-01 |
| Calendar.AgreeIff | src/ipc++/src/KdbType.C:138-157 | On a day before they agree if and only if it lies in the year, counted from March, of a leap year and the truncated estimate is not two years ahead |
| Calendar.OnlyLastDays | src/ipc++/src/KdbType.C:143-150 | The estimate is two years ahead on the last days of February only |
| Calendar.TruncIsDateIff | src/ipc++/src/KdbType.C:138-157 | What the C++ formula makes of such a day is a date if and only if the estimate is not two years ahead and the day is not March 1st of a common year |
| Calendar.TwoFebruaries | src/ipc++/src/KdbType.C:138-157 | The last days of two Februaries, one of which the formula gets wrong and one right |
| Calendar.DaysOfDate | src/ipc++/src/KdbType.C:130-136 | getDays inverts the formula |
| Calendar.DateOfDays | src/ipc++/src/KdbType.C:130-136 | The formula inverts getDays on every valid date |
| Calendar.PartsMakeTimestamp | src/ipc++/src/KdbType.C:74-109 | getUTC rebuilds any timestamp from the parts it is written with, those before 2000 included |
| Calendar.TimePartIs | src/ipc++/src/KdbType.C:101-109 | The parts are hours, minutes, seconds and nanoseconds: sixty, sixty and a thousand million of each add up to what the truncated division by a day leaves |
| Calendar.TimePartUnique | src/ipc++/src/KdbType.C:101-109 | From 2000 on no other time of day stands for the same rest of the day |
| Calendar.GetUTCIs | src/ipc++/src/KdbType.C:74-80 | A date and a time make that many days, hours, minutes, seconds and nanoseconds since 2000 |
| Calendar.KnownTimes | src/ipc++/test/src/KdbTypeTest.C:360-371 | One minute past midnight, and the timestamp of the test, both ways |
| Calendar.DateIsRightIff | src/ipc++/src/KdbType.C:82-99 | From 0000-03-01 on the date part is the date of the day the timestamp lies in if and only if it is not before 2000 or falls on a midnight |
| Calendar.TimeIsValidIff | src/ipc++/src/KdbType.C:101-109 | The time part is a time of day if and only if the timestamp is not before 2000 or falls on a midnight |
| SymbolVectors.KdbSymbolVector.constructor | src/ipc++/src/KdbType.C:1291-1316 | The two passes locate and copy every symbol |
| SymbolVectors.KdbSymbolVector.Push | src/ipc++/src/KdbType.C:1345-1352 | A symbol is added at the end and located |
| SymbolVectors.KdbSymbolVector.ReadMore | src/ipc++/src/KdbType.C:256-276 | Symbols read from a chunk are added, whole ones only, on any bytes |
| SymbolVectors.KdbSymbolVector.GetString | src/ipc++/src/KdbType.C:1327-1332 | After any mix of these, element i is the i-th symbol, or there is none |
| SymbolVectors.KdbSymbolVector.IndexOf | src/ipc++/src/KdbType.C:1334-1343 | The first place of a symbol, or -1 if it does not occur |
| Base64.LettersAre | src/krb5/src/mg_krb5.c:47-48 | The alphabet, letter by letter |
| Base64.KnownEncodings | src/krb5/src/mg_krb5.c:63-116 | The encodings of nothing and of the first one to four letters of foob |
| Base64.RoundTrip | src/krb5/src/mg_krb5.c:63-186 | Decoding undoes encoding for every non-empty byte string, line breaks and padding notwithstanding; the encoding of the empty string is refused |
| Base64.EncodedLinesFit | src/krb5/src/mg_krb5.c:89-110 | No line has more than 72 letters |
| Base64.RoomIsEnough | src/krb5/src/mg_krb5.c:70-77 | All that is written, the line breaks and the NUL included, fits in what is allocated |
| Base64.OverflowFound | src/krb5/src/mg_krb5.c:70-75 | The overflow test fails exactly for the lengths whose product wraps around |
| Base64.Encode | src/krb5/src/mg_krb5.c:63-116 | The loop writes that encoding and a NUL, inside the buffer |
| Base64.FillTable | src/krb5/src/mg_krb5.c:135-138 | The decoding table, filled by a loop over the alphabet |
| Base64.Decode | src/krb5/src/mg_krb5.c:129-186 | The loop writes that decoding inside the buffer, and gives up exactly where it is undefined, on any input |
| LogFilter.SameSizes | src/log_filter/src/log_filter.c:272-482 | The walk that decides and the walk that builds know the same types and give them the same sizes, each by its own switches |
| LogFilter.ReifyEncoded | src/log_filter/src/log_filter.c:387-482 | Building from the encoding of any value, followed by anything, gives that value and uses exactly its bytes if all its types are known, and gives up otherwise |
| LogFilter.DatetimeEncoded | src/log_filter/src/log_filter.c:393-420 | A datetime, of which the C++ library has no class, takes eight bytes |
| LogFilter.VecEncoded | src/log_filter/src/log_filter.c:151-210 | Reading a vector from its encoding gives its elements or symbols and uses exactly its bytes |
| LogFilter.MgReadVecOld | src/log_filter/src/log_filter.c:212-270 | Vectors, only counted, by a switch of its own: the same number of bytes |
| LogFilter.HitsIffWanted | src/log_filter/src/log_filter.c:312-327 | What the depth and index tests look for in a whole message: element 1 of a list, and also the value of a dictionary |
| LogFilter.MgChkMsg | src/log_filter/src/log_filter.c:272-385 | On the encoding of every value of known types the counting walk uses exactly its bytes and finds it relevant if and only if it is wanted; so on everything else that can be built |
| LogFilter.MgReplayMsgs | src/log_filter/src/log_filter.c:493-514 | Of a header and encodings of messages exactly the wanted ones are evaluated, in order; it succeeds if and only if there is a message |
| LogFilter.EncodedMessages | src/log_filter/src/log_filter.c:493-514 | A header and encodings are walked as those messages |
| LogFilter.DictGetsThrough | src/log_filter/src/log_filter.c:312-327 | A concrete dictionary that is no call and is wanted, as the only message of a journal |
| LogFilter.ReplayDict | src/log_filter/src/log_filter.c:493-514 | Replaying that journal evaluates the dictionary |
| BootOrder.PlotIsClosure | src/mgq/src/boot.q:81-85 | The closure is exactly what can be reached along dependencies |
| BootOrder.StepRows | src/mgq/src/boot.q:100-104 | Deleting the rows of the leaves and those that depend on them leaves the rows of what is not started |
| BootOrder.CycleChk | src/mgq/src/boot.q:106-122 | Doubling the walks until there are none, or one repeats a namespace, ends, and tells cyclic dependencies from others exactly |
| BootOrder.WalksJoin | src/mgq/src/boot.q:114-122 | Joining all walks of n steps where they meet gives all walks of twice as many |
| BootOrder.StartedIffGrounded | src/mgq/src/boot.q:100-104 | When no registered namespace is left that needs only started ones, exactly those are started that reach registered ones only and no cycle |
| BootOrder.StartAll | src/mgq/src/boot.q:100-104 | Exactly the namespaces that reach registered ones only and no cycle are started, also when something is missing; nothing is started twice or before what it depends on; the table ends empty if and only if all dependencies are registered and none goes round |
| BootOrder.Boot | src/mgq/src/boot.q:140-155 | For a root: an error before anything is started if and only if what it needs goes round; otherwise exactly it and what it reaches are started, in order, if and only if that much is registered; if not, still all that reach registered ones only |
| FreeLists.FreeList.constructor | src/core/src/FreeList.C:22-48 | All slots are free, stacked so that slot 0 goes first |
| FreeLists.FreeList.Alloc | src/core/src/FreeList.C:22-48 | A list of capacity 0 is refused with -1, any other is made |
| FreeLists.FreeList.FirstCome | src/core/src/FreeList.C:61-72 | The slots of a new list of four go out as 0, 1, 2, 3, and then none |
| FreeLists.FreeList.NextSlot | src/core/src/FreeList.C:61-72 | A free slot becomes handed out; exhaustion is reported if and only if all are; free and handed-out slots partition the range |
| FreeLists.FreeList.Release | src/core/src/FreeList.C:50-60 | A slot comes back on top of the stack; the guard refuses it if and only if the list has the largest capacity there is and is exhausted |
| FreeLists.FreeList.Size | src/core/include/MgFreeList.H:32-33 | The number of slots handed out, in spite of the wrap-around |
| KnownAnswers.MixedList | src/ipc++/test/src/KdbTypeTest.C:504-508 | The bytes kdb+ sends for a sorted list of a character vector and a symbol |
| KnownAnswers.LeapDay | src/ipc++/test/src/KdbTypeTest.C:385-391 | For 2024.02.29 |
| KnownAnswers.CharsToLongs | src/ipc++/test/src/KdbTypeTest.C:528-534 | For a dictionary from characters to longs |
| KnownAnswers.StepDict | src/ipc++/test/src/KdbTypeTest.C:562-568 | For a step dictionary of integers, and that a dictionary is made of them |
| KnownAnswers.StepDictsAreRead | src/ipc++/src/KdbType.C:438-442 | For any keys and values: the step dictionary of them is read whole or in pieces as the dictionary, decoded in one shot, and measured by the scanner |
| KnownAnswers.EmptyTable | src/ipc++/test/src/KdbTypeTest.C:585-600 | For a table of four columns without rows |
| KnownAnswers.PlusFunction | src/ipc++/test/src/KdbTypeTest.C:614-620 | For a function |
| KnownAnswers.Projected | src/ipc++/test/src/KdbTypeTest.C:658-663 | For a projection with an argument left out |
| KnownAnswers.Failed | src/ipc++/test/src/KdbTypeTest.C:666-671 | For an exception |
| KnownAnswers.SyncTrue | src/ipc++/src/KdbType.C:2486-2495 | The frame of a request for true |
| KnownAnswers.WriteSyncTrue | src/examples/src/connect_to_kdb_app.C:35-47 | The writer puts out exactly those ten bytes |
| KnownAnswers.Hello | src/ipc++/test/src/KdbIpcMessageReaderTest.C:66-87 | The frame of a character vector, as a message of any type |
| KnownAnswers.ReadHello | src/ipc++/test/src/KdbIpcMessageReaderTest.C:66-87 | The reader makes the vector of it in one call, and knows the type |
| KnownAnswers.CompressedTrue | src/ipc++/test/src/KdbIpcMessageReaderTest.C:91-97 | The compressed frame of true |
| KnownAnswers.PackedVector | src/ipc++/src/KdbType.C:2054-2099 | A compressed vector with a reference: the bytes of its blocks and what they decompress to |
| KnownAnswers.RepeatedPair | src/ipc++/src/KdbType.C:2054-2099 | Two references, which tell the order of the control bits and which pairs are noted after a reference |

## Left out

- MessageReader.KdbIpcMessageReader.ReadMsg: of a compressed frame, calls after one that has parsed something are described for atoms only; for other values a later call reads the decompressed bytes again from the first one (`KdbType.C:2116-2119`), and what that makes of them is not stated. Compressed input must be well formed, since a reference to a slot never set reads an uninitialised table.
- Decompressor.KdbIpcDecompressor.Uncompress: the table slots that a well-formed payload does not use are arbitrary, as in the source, where they are not initialised.
- TreeReader.ReadVal: objects under construction are values that a call returns changed, not heap objects updated in place; so in all the readers. Sharing between objects is not modelled.
- Reader.ReadIntVector: the number of elements is the announced count; that `capacity()` may be larger is not modelled. The same holds for the other containers and for the function text in the writer.
- TreeReader.NewInstance: with an inactive cursor the source reads on through a pointer that its callers never set (`KdbType.C:448-450`), and `ReadChild` without a child dereferences a null `m_cols` or `m_keys` (`KdbType.C:1668`, `1749`); both end in `RD_UNDEFINED` here, and what happens then is not modelled.
- MessageReader.KdbIpcMessageReader.ReadMsgHdr: an allocation fails only for lengths below the header size; that memory may run out is not modelled.
- MessageWriter.RunWritesPrefix: lengths of 2^31 and more, which wrap in the header field, are outside the model's reader; the writer is modelled with unbounded lengths.
- UpdFilter.FilterFrames: compressed frames, which the source does not tell from plain ones either.
- Scanner.ScanReports: encodings of 2^31 bytes and more, whose lengths are truncated to 32 bits.
- TornMessages.TornUpdate: how the walk goes on in the rest of a torn table when it is to go over more messages than that; a walk over an update whose columns hold atoms or tables is described up to what the scanner says of the piece of its table (`TornMessages.TornReport`, `TornMessages.TornOffer`).
- ResponseLoop.ShowResponse: a read that fails, where the program ends with an error.
- Replay.Counts.Subscribe: failures to open or map the journal.
- Calendar.DaysOfDate: the 32-bit overflow of getDays for the last two thousand years of its range; null dates, which are handled before the formula.
- StreamLoop.Receive: the one-response loop before it, which passes the cumulative count to set_consumed.
- BootOrder.Boot: the deletion of unused namespaces and start functions that fail; walks that end in the null symbol, which stands for no dependency, are left out of the cycle check since they repeat nothing.
- LogFilter.MgReplayMsgs: the evaluation of a message; what becomes of the process after an unknown type, where the program aborts. Journals are encodings of values of the C++ library, which has no datetimes; those have lemmas of their own (`LogFilter.DatetimeEncoded`, `LogFilter.DatetimesEncoded`).
- Base64.Encode: a failing allocation.
- FreeLists.FreeList.Release: the release of a slot that is not handed out, which the source does not detect.
- The tpmux steady-state loop, coroutines, sockets, epoll, memory mapping and file handling: foreign calls.
- Text formatters, the JavaScript value classes and serialiser, the React and WebSocket code, GSSAPI and the web code of q: presentation or thin plumbing.
- Convenience constructors, setters and accessors of the value classes: they would only add easy members.
