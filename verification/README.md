# A verified model of xrdp's core data handling

This project models the parts of xrdp in which one mistake in a branch or an
index corrupts what a user sees or what travels between its processes, and proves
what those parts are for. `dafny verify dfyconfig.toml` verifies the whole project
(Dafny 4.11).

The code of xrdp works by changing things in place, so the model does too: a
struct is a class with the struct's fields, its procedures are methods with the
same branches, loops and edge cases, and each method is proved against a function
on plain values. The laws are then proved about those functions, for all inputs
and all runs.

**Regions** (`RegionSpans`, `RegionBands`, `RegionSweep`, `RegionBoxes`, `Region`,
`RegionLaws`).
A region is an array of rectangles in the y-x-banded form that
`common/pixman-region.c` documents. Its meaning is a set of integer points.
`RegionSpans` has the merges of one band, `RegionBands` the banded form and its
uniqueness, `RegionSweep` the band sweep as a function, `RegionBoxes` the facts
about rectangle arrays, and `Region` the class whose methods run that sweep on
blocks of memory, coalescing as they go. The operands are read where they are, in
blocks that the destination may own, while the result is written; that the two
never meet is proved. An allocation may fail where the program runs on scarce
memory. `RegionLaws` has the algebra, and runs of any program over a pool of
regions, with any aliasing of the three regions of an operation.

**Unicode** (`Unicode`, `Transcoding`, `Characters`, `Utf8Calls`, `Streams`,
`UnicodeEdit`).
UTF-8 (section 3 of RFC 3629) and UTF-16LE (sections 2.1 and 2.2 of RFC 2781), in
both directions, for any bytes and any buffer size, and editing of UTF-8 strings
in place. Other than in the RFCs, non-characters are replaced by U+FFFD. `Characters`
states all of it in the numbers of the RFCs.

**Dechunkers** (`DechunkerRuns`, `DynamicRuns`, `Dechunker`). Reassembly of chunks
of static channels (sections 3.1.5.2.1 and 3.1.5.2.2.1 of [MS-RDPBCGR]) and of
dynamic channels (section 2.2.3 of [MS-RDPEDYC]), over every history of chunks, in
terms of the flag bits and sizes on the wire.

**Transports** (`Sockets`, `WaitQueues`, `Transport`, `Accounting`). The output
queue of a transport against a socket that may take any part of what it is given,
refuse or fail, and the counts that several transports share to hold back inputs
whose output is queued: which bytes are charged to which source, byte by byte.

**Messages** (`MessageRuns`, `Frames`, `LibipmSend`, `LibipmRecv`). The framing of
libipm messages over receives of any size, for well-formed and malformed streams, down
to the bytes of the header, at the sender and at the receiver.

**Small codecs and containers** (`Base64`, `Base64Calls`, `Base64Text`, `Fifo`,
`BitWords`, `SetInt`). Section 4 of RFC 4648 with the liberties of the decoder, a queue in a
chain of chunks, and a set of integers as a bitmap.

## What the proofs found

- `common/parse.c:172` tests the wrong variable, so a plane-end non-character
  written as a surrogate pair passes `get_c32_from_stream`. `Transcoding.NextC32Invalid`
  says exactly when; `Transcoding.Utf16ToUtf8Valid` says that no such character
  reaches the UTF-8 output, because the encoder replaces it.
- `utf8_remove_char_at` with the index just past the last character removes the
  terminator and joins the string to what follows it in the buffer, although its
  header says that a result of 0 means that nothing was removed. At or past that
  index the string is unchanged if and only if the index is further on, or an empty
  string follows (`UnicodeEdit.NothingRemoved`, and `UnicodeEdit.RemoveJoins` for an
  input). If no NUL follows the terminator in the buffer, the call at that index runs
  past the end of the buffer, and it does so in no other case
  (`UnicodeEdit.Utf8RemoveCharAt`, `UnicodeEdit.RemoveRunsOut`).
- A dynamic channel's PDU that is ready but has not been taken is overwritten by the
  next fragment, unless that fragment is empty, too large, or the same bytes
  (`DynamicRuns.ReadySurvives`, `DynamicRuns.ReadyOverwritten`). What the buffer
  holds over any history is what came last (`DynamicRuns.ReadySound`).
- `set_int_get_next` answers with the least int for an empty set if bits above the
  maximum are set, the maximum is the greatest int, and there is a bit for the value
  after it. `SetInt.NextRightIff` says that this is the only case.
- The base64 decoder rejects excess padding after a full quantum, although
  `common/base64.h` says that it is ignored; text decodes with exactly the amounts of
  padding up to the one that belongs there (`Base64.PaddingExact`).
- Union and subtraction of a broken region always break the result, but can still
  return TRUE. Union does so if and only if both operands are the same region or the
  first is empty and not broken; subtraction, if and only if the subtrahend is not
  broken (`Regions.Region.UnionWith`, `Regions.Region.SubtractFrom`; for inputs,
  `RegionLaws.UnionWithBroken`, `RegionLaws.SubtractFromBroken`).
- If a data callback keeps the input stream and leaves a header size below what has
  been read, the size asked for next wraps around and goes beyond the buffer. It fits
  if and only if no more has been read than the header size (`Transport.ReadFits`,
  and `Transport.ReadWraps` for an input).

## Model

| member | source | states |
|---|---|---|
| RegionBands.BandsUnique | common/pixman-region.c:131-167 | a set of points has at most one representation as bands: two good band lists that hold the same points are identical |
| RegionBands.CanonicalUnique | common/pixman-region.c:131-167 | two canonical rectangle arrays that cover the same points are the same array |
| RegionBands.NextRowRepeats | common/pixman-region.c:151-160 | the coalescing rule is what makes the form unique: a band that ends earlier than the same rows elsewhere must be followed by a touching band with the same x-structure |
| RegionBands.FlatCovers | common/pixman-region.c:131-150 | the rectangles of a band list cover exactly the points of its bands |
| RegionSpans.SpansUnique | common/pixman-region.c:131-150 | within a band, points on a line have at most one representation as spans that do not touch |
| RegionSpans.OverlapCorrect | common/pixman-region.c:1076-1548 | each of the three merges of two bands gives good spans holding exactly the points of the set operation |
| RegionSpans.UnionCovers | common/pixman-region.c:1193-1296 | the union merge, from the rectangle under construction on, holds exactly its points and those of what is left of both bands |
| RegionSpans.IntersectCovers | common/pixman-region.c:1076-1124 | the intersection merge holds exactly the common points |
| RegionSpans.SubtractCovers | common/pixman-region.c:1429-1548 | the subtraction merge, from the left edge reached on, holds exactly the points of the minuend that are not in the subtrahend |
| RegionSweep.AddBandCovers | common/pixman-region.c:506-574 | adding a band, coalesced or not, adds exactly its points |
| RegionSweep.AddBandGood | common/pixman-region.c:506-574 | adding a band below the output keeps the banded form |
| RegionSweep.AddStepCorrect | common/pixman-region.c:811-905 | one iteration adds exactly the operation on the rows from the old ybot to the new one, and keeps the banded form |
| RegionSweep.AddRestCorrect | common/pixman-region.c:920-965 | the remainder of one operand, only whose first band may coalesce, adds exactly its points below ybot and keeps the banded form |
| RegionSweep.SweepCorrect | common/pixman-region.c:694-991 | from any state of the sweep the final output is what has been output and exactly the operation from ybot down |
| RegionBoxes.SweepResult | common/pixman-region.c:694-991 | the whole sweep gives the canonical form of the operation |
| RegionBoxes.CoalesceMerges | common/pixman-region.c:506-574 | coalescing two bands in the array is adding the band to the output as a set of rows, and prev_band is right afterwards |
| RegionBoxes.BoundsAreHull | common/pixman-region.c:1009-1056 | bounds that touch a rectangle on every side are the smallest box around the region |
| RegionBoxes.UnionHull | common/pixman-region.c:1387-1390 | joining the extents of the operands gives the smallest box around their union |
| RegionBoxes.HullUnique | common/pixman-region.c:134-138 | a region has one smallest bounding box |
| RegionBoxes.ApartOperands | common/pixman-region.c:1135-1153 | if the extents do not overlap then nothing is common, which the fast paths of intersection and subtraction rely on |
| RegionBoxes.SubsumedOperand | common/pixman-region.c:1165-1172 | a single rectangle that subsumes the other operand's extents is their union, and their intersection is the other operand |
| RegionBoxes.EmptyOperand | common/pixman-region.c:1320-1357 | what the operations give when an operand is empty |
| RegionBoxes.SameOperand | common/pixman-region.c:1173-1176 | what the operations give for an operand and itself |
| RegionBoxes.SingleOperands | common/pixman-region.c:1153-1164 | two overlapping single rectangles intersect in the rectangle of the maxima and minima |
| Regions.Region.Read | common/pixman-region.c:791-905 | a rectangle read through an operand's pointer while the result is written is the one that was there at the start |
| Regions.Region.FindBand | common/pixman-region.c:634-642 | finds the end of the rectangles with the same top, in an operand's memory as it is while the result is written |
| RegionBoxes.BandEnd | common/pixman-region.c:634-642 | those rectangles are exactly the first band, and the ones after them the other bands |
| Regions.Region.InitRect | common/pixman-region.c:318-335 | the region of a rectangle; empty if a side wraps to nothing in 16 bits |
| Regions.Region.Break | common/pixman-region.c:362-370 | makes the broken region |
| Regions.Region.RectAlloc | common/pixman-region.c:373-420 | a new block with the same rectangles and room for more, or the broken region and an allocation that has failed |
| Regions.Region.Copy | common/pixman-region.c:442-485 | the same rectangles and extents as the source, also when it is broken; FALSE only when an allocation has failed, and never for a source without a block or for the region itself |
| Regions.Region.PixmanCoalesce | common/pixman-region.c:506-574 | merges the last two bands if and only if their spans match, else leaves the array as it is |
| Regions.Region.AppendNonO | common/pixman-region.c:604-632 | appends one band of rectangles with new top and bottom |
| Regions.Region.IntersectO | common/pixman-region.c:1076-1124 | appends the intersection of two bands |
| Regions.Region.UnionO | common/pixman-region.c:1232-1296 | appends the union of two bands |
| Regions.Region.SubtractO | common/pixman-region.c:1429-1548 | appends the difference of two bands |
| Regions.Region.SweepStep | common/pixman-region.c:811-905 | one iteration of the sweep on the array: the output, prev_band and ybot are those of the sweep as a function |
| Regions.Region.AppendRemainder | common/pixman-region.c:928-965 | the remainder of one operand is appended as the function says |
| Regions.Region.SweepRects | common/pixman-region.c:791-965 | the loop on the arrays of both operands computes the sweep function |
| Regions.Region.PutAside | common/pixman-region.c:754-770 | after it the destination's block is none that the operands' pointers point into |
| Regions.Region.StartResult | common/pixman-region.c:754-787 | an empty block for the result, with the operands' rectangles still where they were |
| Regions.Region.FinishResult | common/pixman-region.c:967-983 | empty, single or block form, with the rectangles unchanged |
| Regions.Region.PixmanOp | common/pixman-region.c:694-991 | the exact and canonical result of the operation on two distinct operands, read in place, whichever region is the destination; FALSE if and only if an operand is broken or an allocation has failed |
| Regions.Region.GeneralCase | common/pixman-region.c:1178-1190 | sweep and extents give a well-formed exact result, or an allocation has failed |
| Regions.Region.SetExtents | common/pixman-region.c:1009-1056 | makes the extents the smallest box around the rectangles |
| Regions.Region.IntersectWith | common/pixman-region.c:1127-1191 | the exact canonical intersection through every fast path and the sweep; FALSE if and only if an operand is broken or an allocation has failed |
| Regions.Region.UnionWith | common/pixman-region.c:1299-1395 | the exact canonical union through every fast path and the sweep, unless an allocation has failed; a broken operand breaks the result, and exactly when TRUE is returned all the same |
| Regions.Region.SubtractFrom | common/pixman-region.c:1565-1612 | the exact canonical difference through every fast path and the sweep, unless an allocation has failed; a broken operand breaks the result, and exactly when TRUE is returned all the same |
| RegionLaws.ResultUnique | common/pixman-region.c:131-167 | the rectangle array of a result is determined by the operands |
| RegionLaws.Result | common/pixman-region.c:694-991 | any two canonical arrays have a result under each operation |
| RegionLaws.Commutes | common/pixman-region.c:1127-1395 | union and intersection commute, as arrays of rectangles |
| RegionLaws.Associates | common/pixman-region.c:1127-1395 | union and intersection are associative, as arrays of rectangles |
| RegionLaws.CutAndJoin | common/pixman-region.c:1127-1612 | (A - B) union (A intersect B) is the array of A |
| RegionLaws.SubtractUnion | common/pixman-region.c:1299-1612 | A - (B union C) is the array of (A - B) - C |
| RegionLaws.EvalCovers | common/pixman-region.c:1127-1612 | an expression of operations over any regions covers the points of the same expression over sets |
| RegionLaws.EvalEqual | common/pixman-region.c:1127-1612 | two expressions over regions give the same array if and only if they agree at every point |
| RegionLaws.SetLaw | common/pixman-region.c:1127-1612 | every law of union, intersection and difference of sets holds for rectangle arrays |
| RegionLaws.StoredBoxExact | common/pixman-region.c:318-335 | a rectangle whose sides fit in 16 bits is stored as it is |
| RegionLaws.ResultPoints | common/pixman-region.c:694-991 | as sets of points, a result is the set operation |
| RegionLaws.StoredSides | common/pixman-region.c:318-335 | any rectangle is stored with its sides modulo 2^16 |
| RegionLaws.UnionWithBroken | common/pixman-region.c:1314-1347 | a union that returns TRUE with a broken result |
| RegionLaws.BrokenUnionWith | common/pixman-region.c:1314-1347 | with the operands exchanged it returns FALSE |
| RegionLaws.SubtractFromBroken | common/pixman-region.c:1569-1582 | a subtraction that returns TRUE with a broken result |
| RegionLaws.CopyBroken | common/pixman-region.c:442-485 | a copy that returns TRUE with a broken result |
| RegionLaws.Operate | common/pixman-region.c:1127-1612 | an operation on any three regions gives the exact result, or breaks it because an operand is broken or an allocation has failed |
| RegionLaws.Execute | common/pixman-region.c:1127-1612 | one operation on regions of a pool, with any aliasing, turns the sets they stand for into those after the set operation, and no memory becomes shared |
| RegionLaws.Run | common/pixman-region.c:1127-1612 | after any program of operations every region of the pool is well formed, and the exact result unless it is broken; if none was broken at the start and no allocation has failed then none is |
| Unicode.DecodeEncoded | common/string_calls.c:1263-1448 | decoding an encoding gives the sanitised character and takes exactly its bytes, whatever follows |
| Unicode.EncodeDecoded | common/string_calls.c:1263-1448 | no overlong forms: what decodes to anything but U+FFFD encodes to exactly the bytes that were read |
| Unicode.NextCharValid | common/string_calls.c:1263-1386 | an invalid character is never returned |
| Transcoding.SurrogatePairInverse | common/unicode_defines.h:74-99 | the surrogates of a supplementary character are in range and give it back |
| Transcoding.NextC32Encoded | common/parse.c:152-191 | reading the words of a valid character gives it back and takes exactly them |
| Transcoding.NextC32Invalid | common/parse.c:152-191 | an invalid character is read if and only if a plane-end non-character is written as a surrogate pair |
| Transcoding.NextC32InvalidExample | common/parse.c:165-178 | such an input |
| Transcoding.Utf16ToUtf8Valid | common/parse.c:197-255 | from any UTF-16 input the UTF-8 output is well formed and reads as the sanitised characters |
| Transcoding.SanitizeSequence | common/string_calls.c:1263-1448 | transcoding goes sequence by sequence: well-formed bytes are kept, each ill-formed sequence becomes U+FFFD |
| Transcoding.SanitizeIdempotent | common/string_calls.c:1263-1448 | sanitising twice is sanitising once, and gives a well-formed string |
| Transcoding.SanitizeIdentity | common/string_calls.c:1263-1448 | sanitising changes nothing if and only if the string is well formed |
| Transcoding.RoundTrip | common/parse.c:110-255 | for any byte string, UTF-8 to UTF-16LE and back is the sanitised string |
| Transcoding.DecodeEncodedUtf16 | common/parse.c:110-191 | reading written UTF-16 gives the characters back |
| Transcoding.EncodedUtf16Length | common/string_calls.c:1470-1482 | the output takes exactly two bytes a word |
| Transcoding.FitLongest | common/parse.c:197-255 | for any buffer size the output is the longest prefix of whole characters that fits with its terminator |
| Transcoding.FitComplete | common/parse.c:197-255 | nothing is lost if and only if the whole output and its terminator fit |
| Transcoding.NextCharLocal | common/string_calls.c:1263-1386 | a character reads the same whatever follows it, unless a continuation byte does, in malformed strings too |
| Transcoding.WalkCounts | common/string_calls.c:1452-1466 | walking over some characters leaves the others to be counted |
| Transcoding.InsertThenRemove | common/string_calls.c:1486-1561 | inserting a character and removing the one at the same index restores the string, even a malformed one, and returns the sanitised character; in between the string is one character longer |
| Transcoding.InsertedCharacters | common/string_calls.c:1486-1526 | in characters, an insertion puts the sanitised character at the index and changes no other, in a malformed string too |
| Transcoding.UntilNulIs | common/parse.c:269-314 | the characters up to the first NUL |
| Characters.Utf8Written | common/string_calls.c:1390-1448 | the bytes written for every character: those of RFC 3629 if it is below U+D800, in U+E000..U+FDCF or U+FDF0..U+FFFD, or in a higher plane and not one of its last two; else those of U+FFFD |
| Characters.Utf8Read | common/string_calls.c:1263-1386 | each of those characters is read from its bytes, whatever follows |
| Characters.Utf8ReadIff | common/string_calls.c:1263-1386 | a character other than U+FFFD is read if and only if it is one of those and its bytes are there |
| Characters.SequenceLength | common/string_calls.c:1263-1386 | how many bytes are passed for a lead byte and the continuation bytes behind it, complete or not |
| Characters.SingleByte | common/string_calls.c:1263-1386 | a byte below 0x80 is itself; one that leads nothing is U+FFFD, alone |
| Characters.Utf16Written | common/parse.c:110-138 | the two or four bytes written for each of those characters |
| Characters.Utf16Read | common/parse.c:152-191 | each of those characters is read from its two or four bytes, whatever follows |
| Characters.Utf16ReadExact | common/parse.c:152-191 | what is read from any two or four bytes |
| Characters.TextTranscoded | common/parse.c:110-255 | text of those characters goes from UTF-8 to UTF-16LE and back, byte by byte |
| Utf8Calls.Utf8GetNextChar | common/string_calls.c:1263-1386 | the next character and how far it reaches, within the length given |
| Utf8Calls.UtfChar32ToUtf8 | common/string_calls.c:1390-1448 | writes the encoding of the sanitised character and returns its length |
| Utf8Calls.Utf8AsUtf16WordCount | common/string_calls.c:1470-1482 | half the number of bytes that transcoding to UTF-16 writes |
| Streams.Stream.OutUtf8AsUtf16Le | common/parse.c:110-138 | appends exactly the UTF-16LE form of the string and changes no other byte |
| Streams.Stream.GetC32 | common/parse.c:152-191 | reads one character, popping a word that is not a low surrogate back |
| Streams.Stream.InUtf16LeFixedAsUtf8 | common/parse.c:197-255 | reads n words, stores what fits and returns the size of the whole; restores the end of the stream |
| Streams.Stream.InUtf16LeFixedAsUtf8Length | common/parse.c:259-265 | the same size, with the stream unchanged |
| Streams.Stream.InUtf16LeTerminatedAsUtf8 | common/parse.c:269-314 | the same up to a terminator, or the end of the stream; the cursor ends where Streams.AfterNul says |
| Streams.StoredLongest | common/parse.c:197-314 | what is stored is the longest prefix of whole characters that fits, and its terminator; the rest of the buffer stays |
| Streams.AfterNulIs | common/parse.c:269-314 | that is just behind the terminator, or where fewer than two bytes are left |
| Streams.Stream.InUtf16LeTerminatedAsUtf8Length | common/parse.c:318-324 | the same size as the bounded read, with the stream unchanged |
| UnicodeEdit.Utf8CharCount | common/string_calls.c:1452-1466 | the number of characters of the string in the buffer |
| UnicodeEdit.Utf8AddCharAt | common/string_calls.c:1486-1526 | succeeds if and only if the string has that many characters and there is room, and then inserts the character there; else changes nothing |
| UnicodeEdit.Utf8RemoveCharAt | common/string_calls.c:1530-1561 | removes the character at the index and returns it; changes nothing past the end; at the end joins the string that follows; stays inside the buffer if and only if the index is not the end or a NUL follows the terminator |
| UnicodeEdit.NothingRemoved | common/string_calls.h:434 | when the result is 0, the string is unchanged if and only if the index is beyond the terminator or an empty string follows that |
| UnicodeEdit.RemoveJoins | common/string_calls.c:1530-1561 | an input where it joins two strings |
| UnicodeEdit.RemoveRunsOut | common/string_calls.c:1530-1561 | an input where it runs past the end of the buffer |
| DechunkerRuns.TypeBits | common/dechunker.c:44-50 | which flag bits each chunk type stands for |
| DechunkerRuns.StatusExact | common/dechunker.c:146-356 | exactly when each status is returned, by the flag bits, the sizes and the state |
| DechunkerRuns.ConsumedExact | common/dechunker.c:146-356 | exactly when the payload is read, and that it then ends the buffer |
| DechunkerRuns.ReadySound | common/dechunker.c:146-356 | over every history, a PDU is announced only when the buffer is the in-order payloads from the last accepted chunk with the FIRST flag only through one with the LAST flag only, of the size announced |
| DechunkerRuns.PduDelivered | common/dechunker.c:146-356 | every legal split of a PDU is delivered intact when none is under way |
| DechunkerRuns.PduLost | common/dechunker.c:210-320 | a PDU that arrives while another is unfinished is lost, and both are |
| DechunkerRuns.NeverData | common/dechunker.c:360-380 | a client that takes each ready stream leaves no data behind |
| DechunkerRuns.StreamDelivered | common/dechunker.c:146-380 | a stream of legal PDUs is delivered completely and in order |
| DechunkerRuns.Resynchronises | common/dechunker.c:146-380 | after any chunks whatever, a stream of legal PDUs is delivered in order, all but the first exactly if another PDU was under way |
| DechunkerRuns.DataStays | common/dechunker.c:274-356 | data that has not been taken stays if and only if the chunk is in range; the chunk is an error either way |
| DynamicRuns.Filling | common/dechunker.c:471-520 | fragments short of the announced size are kept in order and nothing is available |
| DynamicRuns.Reassembled | common/dechunker.c:417-520 | a first fragment, any others and the one that completes the announced size leave exactly their bytes, ready |
| DynamicRuns.ReadySurvives | common/dechunker.c:471-520 | a ready PDU survives another fragment if and only if that is empty, too large or the same bytes |
| DynamicRuns.ReadyOverwritten | common/dechunker.c:417-520 | a PDU of 1591 bytes, received in two fragments and ready, that is overwritten and still offered |
| DynamicRuns.ReadyOverwrittenReached | common/dechunker.c:417-468 | its first fragment is accepted |
| DynamicRuns.ReadySound | common/dechunker.c:417-543 | over every history of fragments and takings the buffer holds the last bytes accepted, as many as were announced, whenever it is ready; whether they are the PDU or have overwritten it |
| DynamicRuns.FirstStatus | common/dechunker.c:417-468 | when each status of a first fragment is returned: nothing below 1591 bytes is accepted |
| DynamicRuns.PduDelivered | common/dechunker.c:417-543 | a PDU in one fragment of either kind, or split, is delivered intact, whatever a new buffer holds |
| DynamicRuns.StreamDelivered | common/dechunker.c:417-543 | a stream of PDUs, fragmented or not, is delivered completely and in order to a client that takes each when it is ready |
| DynamicRuns.DeliveryExists | common/dechunker.c:417-543 | every run of fragments does deliver something |
| Dechunker.VcDechunkerInit | common/dechunker.c:74-99 | refuses a chunk size below 50, else starts without data |
| Dechunker.VcDechunker.HandleNoData | common/dechunker.c:146-206 | the step from the state without data |
| Dechunker.VcDechunker.HandleReading | common/dechunker.c:210-270 | the step while a PDU is read |
| Dechunker.VcDechunker.ProcessChunk | common/dechunker.c:274-356 | every step of the machine on the real buffer, and what is consumed of the stream |
| Dechunker.VcDechunker.TakeStream | common/dechunker.c:360-380 | hands the whole PDU over exactly when it is ready, and starts afresh |
| Dechunker.DynDechunker.ProcessFirstChunk | common/dechunker.c:417-468 | what a first fragment does |
| Dechunker.DynDechunker.ProcessDataChunk | common/dechunker.c:471-519 | what a data fragment does |
| Dechunker.DynDechunker.TakeStream | common/dechunker.c:522-543 | hands the buffer over exactly when it is complete |
| WaitQueues.RestOfRest | common/trans.c:241-305 | what is left after sending some bytes and then some more is what is left after sending bytes from the front |
| WaitQueues.RestAppended | common/trans.c:600-678 | sending from the front and queueing at the end do not interfere |
| WaitQueues.RestQueued | common/trans.c:600-678 | what the socket did not take goes behind what is left, and bytes sent and queued are the writes accepted |
| WaitQueues.RestTags | common/trans.c:241-305 | what is left to send are the last bytes, with the sources they are counted against |
| WaitQueues.WrittenTags | common/trans.c:600-678 | after a write what is left are the last bytes of what was queued and of the data, with their sources |
| WaitQueues.EndsCounted | common/trans.c:652-660 | as long as anything is queued something is counted against the source of the last byte |
| WaitQueues.SentCounts | common/trans.c:262-279 | the count of a stream's source and its unsent bytes go down together; every other count stays |
| WaitQueues.AppendCounts | common/trans.c:652-660 | a queued stream and the count of its source go up together; every other count stays |
| WaitQueues.TotalUpdate | common/trans.h:88-92 | changing one queue changes the total of a source by the change in that queue |
| WaitQueues.NoneCounted | common/trans.c:376-380 | a total of zero means that no stream of any queue is counted against the source |
| Transport.Trans.SendWaiting | common/trans.c:241-305 | what has left the queue is on the wire, in order; blocking, an empty queue or failure |
| Transport.Trans.WriteCopyS | common/trans.c:600-678 | returns 0 exactly when all of the data is on the wire or queued behind what was there; else nothing of it is. The unsent bytes of the data are counted against the current source, or against none if there is none or it is the transport's own; all others as before |
| Transport.CountsTags | common/trans.c:652-660 | the count of a source changes by as many bytes as are counted against it in the queue |
| Transport.Trans.ForceWriteS | common/trans.c:532-589 | returns 0 with all of the data on the wire and nothing queued; else the transport is down with at most a prefix sent |
| Transport.Trans.ReadInput | common/trans.c:393-431 | reads at most what is missing from the header size, right behind what has been read, and something unless the socket refuses or the connection is lost; the size asked for is inside the buffer if and only if no more has been read than the header size |
| Transport.ReadFits | common/trans.c:393-399 | the unsigned size that is asked for fits behind what has been read if and only if that is not more than the header size |
| Accounting.CountedUpdate | common/trans.c:652-660 | a step of one transport that keeps the counts of the others keeps all counts right |
| Accounting.WriteStep | common/trans.c:600-678 | a write keeps all counts right and raises at most that of the source it is charged to |
| Accounting.Program.constructor | common/trans.h:88-92 | with empty queues and zero counts all is balanced |
| Accounting.Program.Settled | common/trans.c:241-305 | any step that changes one transport only, by a write and by sending, keeps all transports and counts right |
| Accounting.Program.WriteCopy | common/trans.c:600-678 | a write keeps every transport and every count right, and raises no count but that of the current source |
| Accounting.Program.ForceWrite | common/trans.c:532-589 | a forced write keeps every transport and every count right, and raises no count |
| Accounting.Program.Perform | common/trans.c:440-450 | the actions of a callback are carried out once and in order; after an accepted write to a transport of another source the last byte queued there is counted against the current source |
| Accounting.Program.HandleInput | common/trans.c:390-396 | the data callback runs once; the last byte of what it leaves queued on a transport of another source is counted against the source that was read; the source before it is restored |
| Accounting.Program.CheckSource | common/trans.c:376-380 | input of a source is read only if no byte counted against it is queued anywhere |
| Accounting.Program.CheckWaitObjs | common/trans.c:309-455 | one call: the callback runs if and only if the bytes expected have been read, and they are read unless the source is held back, the socket refuses or the connection is lost; counts, transports and the current source are kept |
| Accounting.Program.HeldBack | common/trans.c:376-380 | the count of a source is positive while another transport has something to send that a callback of it wrote |
| Accounting.Program.CheckTwice | common/trans.c:309-455 | back-pressure: when a callback of a source has left bytes queued on another transport, the next check of that source reads nothing and calls nothing |
| Accounting.Program.Run | common/trans.c:241-678 | any sequence of writes and checks, with any callbacks and any behaviour of the sockets, keeps all of it; the log is the writes of the program and of the callbacks that ran, each once and in order |
| Accounting.Program.RunKeeps | common/trans.c:241-678 | in every state of a run: bytes sent and queued are the writes that returned 0 in order and a part of at most one failed write; every count is the bytes queued for its source, so never negative |
| MessageRuns.StaysSound | libipm/libipm_recv.c:88-131 | whatever is received, the buffer is never overrun, and only a message with a good header and of the size stated is available |
| MessageRuns.SegmentationIndependent | libipm/libipm_recv.c:41-131 | for every stream, well formed or not, and every way of cutting it into receives, the outcome is that of the stream as a whole |
| MessageRuns.ExactlyTheMessages | libipm/libipm_recv.c:41-131 | of a stream of good messages exactly the complete ones are delivered, each with its own bytes, and the buffer holds what there is of the next |
| MessageRuns.ParseNext | libipm/libipm_recv.c:88-131 | what one more receive does to the outcome |
| Frames.FrameGood | libipm/libipm_send.c:558-562 | the frame of every message, byte by byte, is one the receiver takes |
| Frames.FrameUnique | libipm/libipm_send.c:558-562 | message number and payload can be read off a frame |
| Frames.FramesDelivered | libipm/libipm_recv.c:41-131 | of any part of a stream of such frames, cut in any way, exactly the complete frames are delivered, in order, and the rest is in the buffer |
| Frames.FramesTaken | libipm/libipm_recv.c:41-131 | they are delivered with their payloads and message numbers; all of them if all has been received |
| Frames.HeaderRefused | libipm/libipm_recv.c:50-81 | the receiver stops if and only if the header differs in the version, the range of the size, the facility or the reserved bytes |
| LibipmSend.MsgSender.MarkEnd | libipm/libipm_send.c:546-569 | the sender leaves exactly the frame of the message in its stream |
| LibipmRecv.MsgReceiver.ValidateMsgHeader | libipm/libipm_recv.c:41-83 | accepts the header if and only if its bytes have the version, a size in range, the facility and zeros; reads the size and the message number |
| LibipmRecv.MsgReceiver.CheckAvailable | libipm/libipm_recv.c:88-131 | the check on the real stream, including a message that is only a header and a transport that is down |
| LibipmRecv.MsgReceiver.MsgInReset | libipm/libipm_recv.c:669-694 | ready for the next header; the message is wiped if it was to be erased, and only then |
| LibipmRecv.MsgReceiver.ReadAndCheck | common/trans.c:393-431 | one read and check adds the bytes read to the stream whose outcome the receiver has |
| LibipmRecv.MsgReceiver.WaitAvailable | libipm/libipm_recv.c:135-185 | ends with the next message of the stream, a bad header, or a transport that fails and leaves what has been read in place; the callback is put aside and restored |
| LibipmRecv.MsgReceiver.TakeMessages | libipm/libipm_recv.c:88-131 | after any number of reads and checks exactly the messages of the bytes read have been taken, with their message numbers |
| Base64.DecodeEncoded | common/base64.c:91-254 | decoding undoes encoding for every byte string, also when encodings are put one after the other |
| Base64.PaddingStripped | common/base64.c:114-145 | the padding is at the end, and any of it can be left out |
| Base64.ExcessPadding | common/base64.c:143-176 | padding after a full quantum is rejected, whatever follows |
| Base64.PaddingExact | common/base64.c:114-176 | text without its padding decodes with k padding characters if and only if k is no more than belongs there |
| Base64.EncodeInTwo | common/base64.c:190-254 | encoding whole groups first and the rest later gives the same text |
| Base64Calls.Base64Encode | common/base64.c:190-254 | encodes as many bytes as fit with a terminator, returns how many, and changes nothing behind the terminator |
| Base64Calls.EncodeInPieces | common/base64.h:72-77 | repeated calls with any buffer of at least five bytes end, and write the encoding of the whole |
| Base64Calls.Base64Decode | common/base64.c:91-183 | fails if and only if a quantum is illegal; reports the size needed and stores what fits |
| Base64Text.SymbolIs | common/base64.c:196-199 | the value i stands for character i of the alphabet |
| Base64Text.LookupExact | common/base64.c:52-81 | every byte is a character of the alphabet with its position, padding, or illegal |
| Base64Text.EncodedText | common/base64.c:190-254 | character i of an encoding is the letter at the number formed by bits 6 * i to 6 * i + 5, zero-filled; then padding up to a multiple of four |
| Base64Text.DecodeLegal | common/base64.c:91-183 | a text is decoded if and only if it has letters, and padding only where it may stand |
| Base64Text.DecodeNumber | common/base64.c:148-176 | four characters are decoded to the bytes of the number that they form |
| Base64Text.DecodeInTwo | common/base64.c:91-183 | a text of whole quanta and the text after it are decoded one after the other |
| Base64Text.Vectors | common/base64.c:190-254 | the test vectors of section 10 of RFC 4648 |
| Base64Text.IllegalExample | common/base64.c:146-149 | a text that is decoded, and one with an illegal character |
| Fifo.Queue.constructor | common/fifo.c:81-104 | an empty queue with one chunk |
| Fifo.Queue.AddItem | common/fifo.c:190-214 | appends the item, adding a chunk when the last one is full; refuses NULL |
| Fifo.Queue.RemoveItem | common/fifo.c:218-253 | takes the head, or gives NULL if and only if there is none |
| Fifo.Queue.IsEmpty | common/fifo.c:258-263 | agrees with the contents being empty |
| Fifo.Queue.ChunkCount | common/fifo.c:28-47 | a queue that is not empty holds exactly (reader + count - 1) / 31 + 1 chunks |
| Fifo.Queue.CallItemDestructor | common/fifo.c:114-138 | visits the remaining items once each, in order |
| Fifo.Queue.Clear | common/fifo.c:165-186 | destroys all items in order, frees every chunk but the last, and is empty |
| Fifo.Queue.Delete | common/fifo.c:143-161 | destroys all items in order and frees every chunk once |
| SetInt.NextIsLeast | common/set_int.c:157-207 | the answer is the least member above the value given, or none if there is none, whatever the spare bits are |
| SetInt.NextWraps | common/set_int.c:200-206 | an empty set that answers with the least int |
| SetInt.NextRightIff | common/set_int.c:157-207 | for a given range all answers are right if and only if the value after the maximum is an int or has no bit |
| BitWords.UpdatedIn | common/set_int.c:98-118 | writing one bit changes no other |
| BitWords.PassOver | common/set_int.c:176-191 | a word that is zero from a bit on is passed over without missing a member |
| SetInt.IntSet.Add | common/set_int.c:98-106 | adds the value if it is in range, and nothing else changes |
| SetInt.IntSet.Remove | common/set_int.c:110-118 | removes the value, and nothing else changes |
| SetInt.IntSet.ContainsValue | common/set_int.c:122-133 | membership |
| SetInt.IntSet.AddAll | common/set_int.c:137-143 | every value of the range is a member |
| SetInt.IntSet.RemoveAll | common/set_int.c:147-153 | no value is a member |
| SetInt.IntSet.GetNext | common/set_int.c:157-207 | finds the next bit by words and then by bits |
| SetInt.IntSet.Members | common/set_int.c:157-207 | iterating from below the minimum lists all members in increasing order and stops |

## Left out

- Regions.Region.RectAlloc: a block is an object with a size, the rectangles in use and whether it has been freed; the rectangles are a sequence, so the unused part of its memory holds nothing. An allocation may fail at any call where memory is scarce; where it is not, none fails.
- Regions.Region.Pointers: the pointer to a single operand's extents is to a copy of them, since the extents are not written until the sweep has ended.
- Regions.Region.DownSize: the reallocation that gives memory back may fail without any effect, and is not counted as a failure.
- UnicodeEdit.Utf8RemoveCharAt: takes the string and what follows its terminator as ghost arguments, where the source finds them in the buffer; what a call that runs past the buffer does is not modelled.
- UnicodeEdit.Utf8AddCharAt: takes the string and what follows its terminator as ghost arguments, where the source finds them in the buffer.
- DynamicRuns.Reassembled: is for PDUs above the limit of 1590 bytes, the ones that are fragmented.
- Transport.Trans.ReadInput: covers the transports that are connected; listening transports only accept connections. What a read beyond the buffer does is not modelled.
- Accounting.Program.CheckWaitObjs: a data callback is any finite list of writes, the header size it leaves and its result.
- Accounting.Program.Run: ends where a read would go beyond its buffer; transports are neither added nor deleted in a run; deleting one with a queue leaves its bytes counted.
- Sockets.Socket.Send: a socket may refuse finitely often, so that every call comes back; it takes, gives and fails as it likes.
- LibipmRecv.MsgReceiver.WaitAvailable: the queued output that trans_check_wait_objs also sends, and the source counts it looks at, are not part of this receiver.
- LibipmSend.MsgSender.MarkEnd: starts with whatever has been appended to the stream; how parameters are appended is not modelled.
- LibipmRecv.MsgReceiver.MsgInReset: the buffer of the stream has the maximal message size from the start; file descriptors are not modelled.
- SetInt.IntSet.Add: a word is its 32 bits, so shifts and masks are writes of one bit.
- Base64Calls.Base64Encode: asks for a buffer of at least one byte, because the source writes a terminator into it in any case.
- Null pointers as arguments, logging, and allocation failure outside the region code.
- Overflow of int in counts and sizes, other than in the 16-bit coordinates, the Unicode arithmetic and set_int_get_next, where it is modelled.
- Shifts and masks elsewhere are written as division, remainder and sum.
- The region functions that only read (not_empty, extents, rectangles) and the self check.
- Typed parameters of libipm messages and file descriptors: the model stops at the frame.
- trans_force_read_s, connecting, listening, deleting and TLS in common/trans.c.
- Files, processes, signals, configuration, cryptography, window handling and protocol constants.
