# ClassiCube Ogg/Vorbis decoder core, modelled in Dafny

This project models the integer core of ClassiCube's Ogg Vorbis decoder in
`src/Client/Audio.c`. That decoder reads an Ogg container, unpacks the three
Vorbis header packets and begins decoding audio packets.

The model covers these parts:

- **The Ogg page reader.** `Ogg_NextPage` parses a page header and its
  segment table and loads the payload. `Ogg_Read` hands out payload bytes
  and moves on to the next page when one runs dry. This is the class
  `Ogg.OggStream`.
- **The Vorbis bit reader.** A 32-bit bit buffer is filled one byte at a time
  from the least significant end (`Vorbis_GetByte`, `Vorbis_PeekBits`,
  `Vorbis_ConsumeBits`, `Vorbis_AlignBits`, `Vorbis_ReadBits`). This is the
  class `BitStream.BitReader`. Its view of the unread input is a pair
  (value, length) of type `Bits`, and its reads are proved against the
  function `BitStream.ReadField`.
- **The integer helpers.** These are `iLog` (which counts base-4 digits, not
  base-2 ones), `Codebook_Pow` modulo 2^32, `lookup1_values` and the
  bit-splitting half of `float32_unpack`.
- **Codebooks.** This part covers:
  - the codebook header;
  - the ordered and unordered codeword-length tables;
  - the canonical codeword assignment `Codebook_CalcCodewords`, proved to
    produce a prefix-free table;
  - the scalar decode `Codebook_DecodeScalar`;
  - the multiplicand offsets of VQ lookup types 1 and 2;
  - the lookup part of the setup.
- **Floor type 1.** This part covers:
  - the setup (partition classes, class table and X list);
  - the per-frame Y list;
  - `render_point` and `render_line`;
  - `low_neighbor` and `high_neighbor`;
  - the integer amplitude step of `Floor_Synthesis`.
- **Residue setup.** This covers the cascade and the books, the frame window
  arithmetic of `Residue_DecodeFrame`, and the classification digits.
- **Mapping and mode setup.** This covers the `Vorbis_DecodeSetup` loop,
  which reads codebooks, times, floors, residues, mappings, modes and the
  framing bit, and the three header packets (`Vorbis_DecodeHeaders`).
- **The integer front of `Vorbis_DecodeFrame`.** This covers:
  - the packet type, the mode number and the window flags;
  - each channel's floor;
  - the propagation of non-zero vectors over the coupling steps;
  - the residue job of each submap.

The methods that read the stream are methods on `BitReader` or take one.
Each is proved to return what a specification function on `Bits` or on the
byte sequence gives for the input it started from, and to leave the reader
where that function stops. This holds for every single field and for the
loops over them, up to each setup list (codebooks, times, floors, residues,
mappings, modes), `Vorbis_DecodeSetup`, `Vorbis_DecodeHeaders` and the
front of `Vorbis_DecodeFrame`. Lemmas about the specification functions state the
error cases, the sizes and the invariants (valid floors, residues, mappings
and modes).

The model keeps behaviour of the code that differs from the Vorbis I
specification:

- `Codebook_DecodeScalar` shifts each bit in at the top of the word and moves
  it down, so a codeword is matched with its bits in reverse order
  (`CodebookDecode.ScalarReversed`).
- `Floor_DecodeFrame` shifts `cval` left rather than right, so every slot
  after the first uses subclass book 0 (`FloorOne.LaterSlotsUseBookZero`).
- `Residue_DecodeFrame` takes the larger of the residue bounds and the vector
  size where the Vorbis specification takes the smaller.
- `Vorbis_DecodeFrame` looks up each submap's residue by its floor number.
- `Vorbis_DecodeSetup` reports a residue type above 2 as the floor-type error.

Errors are values of `Common.Error` inside `Result` or `Outcome`.
`EndOfStream` stands for reading past the end of the input, which the C code
either ignores or treats as fatal. `OutOfBounds` stands for an index that is
outside the table the C code reads.

## Model

| member | source | states |
|---|---|---|
| Ogg.ParsePage | src/Client/Audio.c:13-39 | a parsed page ends after its 27-byte header and within the input; the only errors are a bad signature, a bad version or running out of input |
| Ogg.ParsePageSpec | src/Client/Audio.c:13-39 | the signature must be "OggS" and the version 0; the payload length is the sum of the segment table and at most 255*255; the last-page flag is bit 2 of the header flags |
| Ogg.SegmentSumBound | src/Client/Audio.c:31-32 | the summed segment sizes are at most 255 per segment |
| Ogg.SegmentSumExamples | src/Client/Audio.c:31-32 | segments of 255, 255 and 10 make a 520-byte payload, and no segments make none |
| Ogg.FourCCInjective | src/Client/Audio.c:12 | the packed four-character code determines its four bytes |
| Ogg.SignatureBytes | src/Client/Audio.c:18-19 | the big-endian word of the header equals OGG_FourCC('O','g','g','S') exactly when the first four bytes are "OggS" |
| Ogg.FollowingStep | src/Client/Audio.c:41-60 | the payload stream from a page on is that page's payload followed, unless it is the last page, by the stream from the next page |
| Ogg.OggStream.constructor | src/Client/Audio.c:62-71 | a new stream has no payload left, is not at its last page, and will deliver the payloads of all pages from the start of the source |
| Ogg.OggStream.ReadSource | src/Client/Audio.c:16 | reading n source bytes succeeds exactly when n bytes remain, and then returns them and advances past them |
| Ogg.OggStream.ReadPage | src/Client/Audio.c:13-33 | the page read is ParsePage at the current source position, and the position moves to the page's end |
| Ogg.OggStream.NextPage | src/Client/Audio.c:13-39 | fails exactly when the page does not parse, with its error and the payload state unchanged; otherwise the payload, cursor, bytes left and last flag are those of the new page |
| Ogg.OggStream.TakeFromPage | src/Client/Audio.c:43-50 | hands out min(count, left) bytes from the current page, and these bytes followed by what remains make up what remained before |
| Ogg.OggStream.Read | src/Client/Audio.c:41-60 | never returns more than count bytes; on success the bytes returned followed by the rest make up the old rest; returns some byte when any remain and count > 0; an error returns nothing |
| BitStream.PeekBits | src/Client/Audio.c:80 | the peeked value is below 2^n |
| BitStream.ConsumeConsume | src/Client/Audio.c:82 | consuming a bits and then b bits consumes a+b bits |
| BitStream.TakeBits | src/Client/Audio.c:80-82 | peeking and consuming n of the buffered bits reads the low n bits of everything pending, and the bits behind them stay queued in order |
| BitStream.StreamBitOrder | src/Client/Audio.c:78 | bit b of byte k is bit 8k+b of the little-endian number the bytes form |
| BitStream.ReadField | src/Client/Audio.c:89-93 | reading n bits fails exactly when fewer than n remain; a value read is below 2^n and n bits fewer remain |
| BitStream.Fields | src/Client/Audio.c:433-436 | a run of equal-width reads fails only at the end of input |
| BitStream.FieldsSpec | src/Client/Audio.c:433-436 | reading count fields of width bits fails exactly when fewer than count*width bits remain; otherwise it appends count values below 2^width |
| BitStream.BitReader.constructor | src/Client/Audio.c:800-803 | a fresh reader over a source has an empty buffer and pending bits equal to the whole source, little-endian |
| BitStream.BitReader.GetByte | src/Client/Audio.c:78 | loads one byte above the buffered bits when one is left (the pending value is unchanged and 8 more bits are buffered); otherwise fails with nothing changed |
| BitStream.BitReader.ReadBits | src/Client/Audio.c:86-93 | reading n bits (n <= 24) returns exactly ReadField of the pending bits, and the reader's view becomes the rest |
| BitStream.BitReader.AlignBits | src/Client/Audio.c:84 | drops numBits mod 8 bits, so the buffer holds whole bytes and the pending value is divided by 2^dropped |
| BitStream.BitReader.ReadBytes | src/Client/Audio.c:824 | a byte read (Stream_Read) succeeds exactly when n bytes remain, returns those bytes and leaves the bit buffer alone |
| BitStream.BitReader.Skip | src/Client/Audio.c:845 | skipping n bytes succeeds exactly when n remain and leaves the bit buffer alone |
| BitStream.BitReader.ReadU32LE | src/Client/Audio.c:844-849 | reads the little-endian word of the next four bytes, or fails when fewer remain |
| BitStream.BitReader.ReadU8 | src/Client/Audio.c:854 | reads the next byte, or fails at the end |
| BitStream.ReadFields | src/Client/Audio.c:433-436 | a loop of ReadBits calls equals FieldsSpec's result |
| Integers.Base4LengthBounds | src/Client/Audio.c:98-102 | iLog(x) is 0 for x <= 0, and otherwise the number of base-4 digits: 4^(r-1) <= x < 4^r |
| Integers.Base4LengthAtMost | src/Client/Audio.c:98-102 | iLog(x) <= k whenever x < 4^k |
| Integers.Base4LengthWidth | src/Client/Audio.c:98-102 | 2^iLog(x) <= x+1, so a field of iLog(x) bits holds at most x: coupling channel numbers stay below the channel count and a codebook run never passes the entry count |
| Integers.Base4LengthExamples | src/Client/Audio.c:98-102 | iLog gives 4 for 255, 4 for 83, 3 for 63, 2 for 7, 1 for 1 and 0 for 0 |
| Integers.ILog | src/Client/Audio.c:98-102 | the shifting loop computes Base4Length |
| Integers.CodebookPow | src/Client/Audio.c:135-143 | square-and-multiply on 32-bit words returns base^exp mod 2^32 |
| Integers.SquareStep | src/Client/Audio.c:137-141 | one pass of the squaring loop keeps result * base^exp modulo 2^32 unchanged |
| Integers.PowMod | src/Client/Audio.c:135-143 | reducing the base mod m before raising to a power leaves the power's residue mod m unchanged |
| Integers.PowAllOnes | src/Client/Audio.c:145-158 | for d >= 1, (2^32-1)^d taken modulo 2^32 is 1 or 2^32-1 |
| Integers.Lookup1Values | src/Client/Audio.c:145-158 | fails (the C loop never ends) exactly when dim is 0 and entries >= 2; otherwise r >= 1, and when entries >= 1 and (r+1)^dim does not wrap, r^dim <= entries < (r+1)^dim |
| Integers.Lookup1Search | src/Client/Audio.c:149-157 | the search loop stops at the same candidate as Lookup1From, starting from 1 |
| Integers.Lookup1From | src/Client/Audio.c:149-157 | the search from candidate i stops at some candidate from i up to 2^32 - 1 |
| Integers.Lookup1FromBounds | src/Client/Audio.c:149-157 | from a candidate whose power does not pass entries, the search stops at the r with r^dim <= entries < (r+1)^dim whenever (r+1)^dim does not wrap |
| Integers.Lookup1SpecBounds | src/Client/Audio.c:145-158 | lookup1_values fails (never ends) exactly when dim is 0 and entries >= 2; dim 0 with fewer entries gives 1; otherwise r >= 1 and r^dim <= entries < (r+1)^dim when (r+1)^dim does not wrap |
| Integers.Lookup1Unique | src/Client/Audio.c:145-158 | at most one r satisfies r^dim <= entries < (r+1)^dim |
| Integers.Lookup1Examples | src/Client/Audio.c:145-158 | the integer square roots of 256 and 100 are 16 and 10 |
| Integers.SplitFloat | src/Client/Audio.c:106-112 | the mantissa has 21 bits, the exponent 10, and the sign is the top bit |
| Integers.PackSplit | src/Client/Audio.c:106-112 | splitting a 32-bit word into mantissa, exponent and sign loses nothing |
| Integers.SplitPack | src/Client/Audio.c:106-112 | every in-range field triple is the split of exactly one word |
| Codewords.Used | src/Client/Audio.c:248-249 | the used entries below n are listed in order, and none has length 255 |
| Codewords.InitialAt | src/Client/Audio.c:257-260 | after codeword 0 of length l0, the free node at depth d is 2^(32-d) for 1 <= d <= l0 and 0 elsewhere |
| Codewords.GraftAt | src/Client/Audio.c:271-282 | taking node w at depth root for a length-l code empties root and puts w + 2^(32-d) at each depth root < d <= l |
| Codewords.SiblingBound | src/Client/Audio.c:280-282 | codeword + (1 << (32 - depth)) does not overflow 32 bits for any depth below a code's length |
| Codewords.SlotsApart | src/Client/Audio.c:268-272 | any two free nodes are codes of their depths and neither prefixes the other |
| Codewords.InitialSlotsOk | src/Client/Audio.c:247-260 | codeword 0 alone is prefix-free, and the first free nodes are codes of their depth apart from it and from each other |
| Codewords.AssignStep | src/Client/Audio.c:263-284 | taking a free node for a new entry keeps the codes prefix-free and the new free nodes apart from all codes and from each other |
| Codewords.TakeSlot | src/Client/Audio.c:264-282 | the search returns root 0 exactly when no depth 1..l has a free node (and then changes nothing); otherwise it takes the deepest free node at or above l and grafts the siblings |
| Codewords.Deepest | src/Client/Audio.c:267-269 | the depth the search stops at is at most l; it is 0 exactly when no depth 1..l has a free node, and otherwise has a free node with none deeper up to l |
| Codewords.FirstUsed | src/Client/Audio.c:247-255 | finds the first used entry below n; with none it stops at n and fails when len[n] is outside the table |
| Codewords.FirstUsedFrom | src/Client/Audio.c:248-255 | the first used entry from i below n, or n when none is used; every entry skipped is unused; reading past the table is OutOfBounds |
| Codewords.InitSlots | src/Client/Audio.c:245-260 | the free-node table after codeword 0 equals InitialSlots |
| Codewords.AppendEntry | src/Client/Audio.c:271-276 | adding the taken node, the entry's length and its number keeps the table canonical |
| Codewords.StuckOk | src/Client/Audio.c:268-269 | when no depth up to the entry's length has a free node, the partial table meets the promise for a failed assignment |
| Codewords.AssignOne | src/Client/Audio.c:263-284 | one pass equals Pass on the free nodes: it skips an unused entry, appends the codeword from the deepest free node and keeps the table canonical and the free nodes sound, finds no free node (changing nothing), or meets a length over 32 that would index past next_codewords |
| Codewords.AssignFrom | src/Client/Audio.c:263-285 | the main loop succeeds whenever all lengths are at most 32 or unused, and its result meets AssignmentOk |
| Codewords.AssignWalk | src/Client/Audio.c:263-285 | the loop over next_codewords computes AssignLoop, and a result meets AssignmentOk |
| Codewords.AssignLoopErrors | src/Client/Audio.c:263-285 | the main loop fails only with OutOfBounds, and never when it stays inside len and every used length is at most 32 |
| Codewords.AssignLoopShape | src/Client/Audio.c:263-285 | the main loop fails only out of bounds and keeps the codeword, length and value columns the same length |
| Codewords.TakeAt | src/Client/Audio.c:266-282 | a used entry whose deepest free node is at root takes that node, is appended to the table, and the loop goes on with the grafted free nodes |
| Codewords.AssignCodes | src/Client/Audio.c:263-284 | taking a free node for a new code keeps the codes prefix-free |
| Codewords.CalcSpecShape | src/Client/Audio.c:237-286 | the codeword assignment fails only out of bounds, and its codeword, length and value columns have equal length |
| Codewords.CalcSpecExample | src/Client/Audio.c:237-286 | the lengths 2,4,4,4,4,2,3,3 get the codes 00, 0100, 0101, 0110, 0111, 10, 110, 111 in the top bits of each word |
| Codewords.CalcCodewords | src/Client/Audio.c:237-286 | the result is CalcSpec: each used entry in order takes the leftmost free node at its length (TakeAt, CalcSpecExample); it fails only out of bounds; a complete result assigns a prefix-free canonical code to every used entry below n, and a failed one names the stuck entry, for which no free node exists |
| CodebookDecode.Window | src/Client/Audio.c:389-391 | the shifted-in codeword fits in 32 bits |
| CodebookDecode.WindowStep | src/Client/Audio.c:390-391 | one more bit moves the window down by one and places the new bit at bit 31 |
| CodebookDecode.WindowOrder | src/Client/Audio.c:389-391 | the first bit read ends up lowest among the top d bits, so codewords are matched bit-reversed |
| CodebookDecode.FirstMatch | src/Client/Audio.c:392-396 | returns the first table entry with this depth and codeword, or -1 when there is none |
| CodebookDecode.ScalarDecode | src/Client/Audio.c:386-401 | a decoded value is one of the table's values and consumes at least one bit; the only errors are running out of input or no code matching within 32 bits |
| CodebookDecode.ScalarDecodeAt | src/Client/Audio.c:389-398 | at depth d, decoding returns the first entry matching the d-bit window, and otherwise goes one bit deeper |
| CodebookDecode.ScalarDecodeFound | src/Client/Audio.c:389-398 | decoding returns the value of the first depth at which some code matches |
| CodebookDecode.ScalarDecodeExhausted | src/Client/Audio.c:399-400 | when no code matches at any depth up to 32, decoding aborts |
| CodebookDecode.ScalarReversed | src/Client/Audio.c:386-401 | for the code {1, 2, 2}, the bits 1,0 do not decode but 1,1 decode to entry 2 |
| CodebookDecode.FindEntry | src/Client/Audio.c:392-396 | the linear search returns FirstMatch |
| CodebookDecode.ShiftIn | src/Client/Audio.c:390-391 | reads one bit and gives the next window, or fails when no bit is left |
| CodebookDecode.DecodeScalar | src/Client/Audio.c:386-401 | the imperative decode returns exactly ScalarDecode and leaves the reader after the codeword |
| CodebookDecode.DigitsAt | src/Client/Audio.c:365-369 | offset i is (lookupOffset / lookupValues^i) mod lookupValues |
| CodebookDecode.Digits | src/Client/Audio.c:365-369 | one offset per dimension, each below lookupValues |
| CodebookDecode.DigitsRoundTrip | src/Client/Audio.c:365-369 | the type-1 offsets are the base-lookupValues digits of lookupOffset mod lookupValues^dims |
| CodebookDecode.VQ1Offsets | src/Client/Audio.c:360-372 | every offset is below lookupValues; fails only by dividing by zero (lookupValues 0 or a wrapped divisor), and with no wrap the offsets are the digits |
| CodebookDecode.VQ2Offsets | src/Client/Audio.c:374-384 | offset i is lookupOffset*dims + i modulo 2^32 |
| CodebookDecode.VQ2InBounds | src/Client/Audio.c:374-384 | for lookupOffset < entries and i < dims, the offset does not wrap and stays below entries*dims |
| CodebookSetup.CodebookHeader | src/Client/Audio.c:289-292 | the only errors are a bad sync pattern and running out of input |
| CodebookSetup.HeaderLayout | src/Client/Audio.c:289-292 | the sync error happens exactly when 24 bits are there and are not 0x564342; success needs 64 bits and yields a 16-bit dimension count and a 24-bit entry count |
| CodebookSetup.UnorderedLengthsOk | src/Client/Audio.c:297-311 | an unordered table has one length per entry: 1..32, or 255 (unused) for sparse tables; usedEntries counts the entries that are not 255 |
| CodebookSetup.OrderedLengthsOk | src/Client/Audio.c:312-328 | an ordered table has one length per entry and every entry counts as used; only the end of the stream can end it early, because a run read in iLog(entries - done) bits never passes the entry count |
| CodebookSetup.OrderedSorted | src/Client/Audio.c:314-326 | while the run lengths stay below 256, the ordered lengths start at the first length, stay below the end length, and never decrease |
| CodebookSetup.OrderedStep | src/Client/Audio.c:316-325 | one run reads a field of iLog(entries - done) bits, stays within the entry count, and appends that many copies of the current length |
| CodebookSetup.Repeat | src/Client/Audio.c:319-321 | a run sets runLen entries, all to the current length |
| CodebookSetup.LengthTableOk | src/Client/Audio.c:295-328 | the length table has exactly one length per entry, or fails at the end of input (never with the entry error) |
| CodebookSetup.UnorderedTable | src/Client/Audio.c:297-311 | an unordered table's used count is the number of its entries not marked 255 |
| CodebookSetup.ReadHeader | src/Client/Audio.c:289-292 | reads CodebookHeader |
| CodebookSetup.ReadUnorderedEntry | src/Client/Audio.c:300-310 | reads one length or unused flag as UnorderedEntry says |
| CodebookSetup.ReadUnordered | src/Client/Audio.c:297-311 | the loop reads UnorderedLengths |
| CodebookSetup.ReadRun | src/Client/Audio.c:316-325 | one run consumes input, stays within the entry count, and advances OrderedLengths by one step |
| CodebookSetup.ReadOrdered | src/Client/Audio.c:312-328 | the loop reads OrderedLengths |
| CodebookSetup.ReadLengthTable | src/Client/Audio.c:295-328 | reads LengthTable |
| CodebookSetup.CountArgument | src/Client/Audio.c:331 | usedEntries narrowed to the Int16 n and compared as UInt32: counts below 0x8000 pass unchanged, a count whose value mod 0x10000 is 0x8000 or more becomes at least 2^32 - 0x8000, and the counts 0x10000..0x17FFF lose their 0x10000 and come out small again |
| CodebookSetup.Float32Layout | src/Client/Audio.c:104-108 | a packed float takes 32 bits and fails only when fewer remain |
| CodebookSetup.ReadFloat32 | src/Client/Audio.c:104-112 | reads Float32Spec as two 16-bit halves |
| CodebookSetup.VectorLayout | src/Client/Audio.c:340-343 | the vector fields take 69 bits and the value width is 1..16 |
| CodebookSetup.ReadVectorFields | src/Client/Audio.c:340-343 | reads VectorSpec |
| CodebookSetup.LookupValues | src/Client/Audio.c:345-351 | the lookup count is lookup1_values for type 1 and entries*dims mod 2^32 for type 2; fails only when lookup1_values never ends |
| CodebookSetup.ReadLookup | src/Client/Audio.c:336-357 | a type of 0 means no lookup, a type above 2 is the lookup error, and types 1-2 read the two floats, the value width, the sequence flag and lookupValues multiplicands |
| CodebookSetup.LookupLayout | src/Client/Audio.c:336-357 | the lookup part takes 4 bits for type 0; a type above 2 is exactly the lookup error; type 1 with no dimensions and at least two entries is exactly the lookup1 hang; otherwise lookupValues multiplicands below 2^valueBits, 4 + 69 + lookupValues*valueBits bits in all |
| CodebookSetup.DecodeSetup | src/Client/Audio.c:288-358 | the codebook is CodebookSpec of the stream: the header, then the length table, then the canonical codes CalcSpec assigns for the used count, then the lookup part as LookupSpec reads it; each error is that of the first failing part, and the lookup error means a lookup type above 2 |
| FloorOne.XCountBound | src/Client/Audio.c:457-462 | each partition adds at most 8 X values |
| FloorOne.XCountPrefix | src/Client/Audio.c:457-462 | the X values of the first i partitions are no more than those of all partitions |
| FloorOne.MaxClass | src/Client/Audio.c:431-436 | the largest partition class, or -1 when there are no partitions |
| FloorOne.Decrement | src/Client/Audio.c:445 | each subclass book is the byte read minus one, so 0 becomes -1 (no book) |
| FloorOne.ClassSpecOk | src/Client/Audio.c:439-446 | a class has 1..8 dimensions, a 2-bit subclass count, a byte masterbook and 2^subclasses books, each in -1..254 |
| FloorOne.ClassesSpecOk | src/Client/Audio.c:438-447 | the class table has one valid class per class number |
| FloorOne.PartitionsSpecOk | src/Client/Audio.c:430-447 | fewer than 32 partitions, at most 16 classes, and every partition class names a class that was read |
| FloorOne.XListSpecOk | src/Client/Audio.c:449-464 | the X list, with the ranges table and the multiplier, gives a valid floor |
| FloorOne.BuiltFloorValid | src/Client/Audio.c:449-463 | a multiplier below 4, a 16-bit X[1] and X values below 2^15 after X[0] = 0 make a valid floor |
| FloorOne.FloorSetupValid | src/Client/Audio.c:429-465 | the floor setup fails only at the end of input, and otherwise gives a valid floor |
| FloorOne.XEndWraps | src/Client/Audio.c:455 | 1 << rangeBits stored in an Int16 is -32768 for rangeBits 15 |
| Common.ToI16 | src/Client/Audio.c:455 | storing into an Int16 keeps values in -32768..32767 and otherwise wraps modulo 2^16 |
| FloorOne.ReadClassHead | src/Client/Audio.c:439-443 | reads ClassHead |
| FloorOne.ReadClass | src/Client/Audio.c:439-446 | reads ClassSpec |
| FloorOne.ReadClasses | src/Client/Audio.c:438-447 | the loop reads ClassesSpec |
| FloorOne.ReadPartitionClasses | src/Client/Audio.c:433-436 | reads 4-bit partition classes and keeps their maximum |
| FloorOne.ReadXList | src/Client/Audio.c:457-462 | reads one rangeBits field per X value |
| FloorOne.ReadPartitions | src/Client/Audio.c:430-447 | reads PartitionsSpec |
| FloorOne.ReadXListSpec | src/Client/Audio.c:449-463 | reads XListSpec |
| FloorOne.DecodeSetup | src/Client/Audio.c:429-465 | reads FloorSetup, and the floor returned is valid |
| FloorOne.BookScalar | src/Client/Audio.c:482-491 | decoding with a codebook outside the table is the out-of-bounds error, and otherwise consumes bits |
| FloorOne.SlotSpec | src/Client/Audio.c:488-494 | one slot's Y value fails only with a bad book number, an aborted decode or the end of input |
| FloorOne.SlotsSpec | src/Client/Audio.c:487-495 | the Y values of a class's slots extend what came before |
| FloorOne.PartitionSpec | src/Client/Audio.c:476-496 | a partition adds exactly as many Y values as its class has dimensions |
| FloorOne.PartitionsFrame | src/Client/Audio.c:475-497 | the partitions add one Y value per X value not yet covered |
| FloorOne.FrameSpec | src/Client/Audio.c:467-499 | a floor that is in use has exactly one Y value per X value; errors are a bad codebook number, a failed scalar decode or the end of input |
| FloorOne.ShiftClearsLow | src/Client/Audio.c:489 | after cval <<= cbits, the low cbits bits of cval are zero |
| FloorOne.LaterSlotsUseBookZero | src/Client/Audio.c:487-495 | because cval is shifted left, every slot after the first selects subclass book 0 |
| FloorOne.ReadBookScalar | src/Client/Audio.c:482-491 | reads BookScalar |
| FloorOne.ReadSlot | src/Client/Audio.c:488-494 | reads SlotSpec |
| FloorOne.ReadSlots | src/Client/Audio.c:487-495 | the loop reads SlotsSpec |
| FloorOne.ReadPartition | src/Client/Audio.c:476-496 | reads PartitionSpec |
| FloorOne.ReadFramePartitions | src/Client/Audio.c:475-497 | the loop reads PartitionsFrame |
| FloorOne.DecodeFrame | src/Client/Audio.c:467-499 | reads FrameSpec |
| FloorCurve.RenderPointEnds | src/Client/Audio.c:501-512 | render_point returns y0 at x0 and y1 at x1 |
| FloorCurve.RenderPointBetween | src/Client/Audio.c:501-512 | between x0 and x1 the point lies between y0 and y1 |
| FloorCurve.RenderPointSplit | src/Client/Audio.c:501-512 | render_point at x0+k moves from y0 by (ady/adx)*k + ((ady mod adx)*k)/adx in the direction of y1 |
| FloorCurve.LineStep | src/Client/Audio.c:524-538 | one step of the Bresenham loop keeps y equal to render_point at x, with err the remainder |
| FloorCurve.RenderLine | src/Client/Audio.c:514-539 | render_line writes y0 at x0 and render_point at every x strictly between x0 and x1, and leaves the rest of v alone |
| FloorCurve.LowBestSpec | src/Client/Audio.c:541-547 | low_neighbor's scan finds the largest earlier value below v[x], or -1 when there is none |
| FloorCurve.HighBestSpec | src/Client/Audio.c:549-555 | high_neighbor's scan finds the smallest earlier value above v[x], or -1 when there is none |
| FloorCurve.LowBest | src/Client/Audio.c:541-547 | the scan's candidate is an earlier point with a smaller value, or -1 |
| FloorCurve.HighBest | src/Client/Audio.c:549-555 | the scan's candidate is an earlier point with a larger value, or -1 |
| FloorCurve.LowNeighbor | src/Client/Audio.c:541-547 | the neighbour found is an earlier index |
| FloorCurve.HighNeighbor | src/Client/Audio.c:549-555 | the neighbour found is an earlier index |
| FloorCurve.LowNeighborScan | src/Client/Audio.c:541-547 | the loop returns LowNeighbor |
| FloorCurve.HighNeighborScan | src/Client/Audio.c:549-555 | the loop returns HighNeighbor |
| FloorCurve.AmplitudeInRange | src/Client/Audio.c:576-603 | for a predicted value in the floor's range and a value below the range, the new amplitude stays in 0..range-1 |
| FloorCurve.Predict | src/Client/Audio.c:570-574 | the prediction fails by division by zero exactly when the two neighbours share an X |
| FloorCurve.Amplified | src/Client/Audio.c:563-608 | the first two amplitudes are the Y values read; the only error is a division by zero |
| FloorCurve.Mark | src/Client/Audio.c:586-606 | point i's step-2 flag is whether its Y value is non-zero, and a non-zero value also marks its two neighbours |
| FloorCurve.Flags | src/Client/Audio.c:563-608 | one step-2 flag per point processed |
| FloorCurve.FlagsAt | src/Client/Audio.c:563-608 | a point is flagged exactly when it is 0 or 1, its Y value is non-zero, or it is a neighbour of a later point with a non-zero Y value |
| FloorCurve.NeighboursBracket | src/Client/Audio.c:541-555 | with distinct X values, a point's X lies strictly between those of its low and high neighbours |
| FloorCurve.AmplifiedInRange | src/Client/Audio.c:563-608 | with distinct X values and Y values below the range, synthesis succeeds and every amplitude is in 0..range-1 |
| FloorCurve.AllZeroPredicted | src/Client/Audio.c:604-607 | when every later Y value is zero, each amplitude is the prediction from its neighbours and no later point is flagged |
| FloorCurve.AmplifiedPrefix | src/Client/Audio.c:569-608 | the first n amplitudes do not depend on later points |
| FloorCurve.AmplifiedFails | src/Client/Audio.c:569-608 | once a point fails to predict, synthesis over any longer prefix fails too |
| FloorCurve.MarkPoint | src/Client/Audio.c:586-606 | the array of step-2 flags becomes Flags up to point i |
| FloorCurve.SynthesizePoint | src/Client/Audio.c:569-608 | one loop pass extends YFinal and Step2 to Amplified and Flags through point i, or reports the division by zero |
| FloorCurve.ValidXList | src/Client/Audio.c:454-463 | a valid floor's X list has at least two Int16 values |
| FloorCurve.Amplitudes | src/Client/Audio.c:558-608 | the amplitude loop returns Amplified and Flags over the whole X list |
| ResidueSetup.CascadeEntryOk | src/Client/Audio.c:656-660 | a cascade entry is below 256, its low 3 bits are the first field, and it takes 4 or 9 bits |
| ResidueSetup.CascadeSpecOk | src/Client/Audio.c:655-661 | one cascade entry per classification |
| ResidueSetup.RowSpecOk | src/Client/Audio.c:665-671 | a row holds 8 books; book j is a byte when cascade bit j is set and -1 otherwise; the row fails exactly when its bits run out |
| ResidueSetup.BooksSpecOk | src/Client/Audio.c:664-672 | one valid row per classification |
| ResidueSetup.ResidueSpecOk | src/Client/Audio.c:646-674 | residue setup fails only at the end of input, and otherwise gives a valid residue of the given type |
| ResidueSetup.ReadExtent | src/Client/Audio.c:648-650 | reads ExtentSpec |
| ResidueSetup.ReadHead | src/Client/Audio.c:648-652 | reads HeadSpec |
| ResidueSetup.ReadCascadeEntry | src/Client/Audio.c:656-660 | reads CascadeEntry |
| ResidueSetup.ReadCascade | src/Client/Audio.c:655-661 | the loop reads CascadeSpec |
| ResidueSetup.ReadBookRow | src/Client/Audio.c:665-671 | the loop reads RowSpec |
| ResidueSetup.ReadBooks | src/Client/Audio.c:664-672 | the loop reads BooksSpec |
| ResidueSetup.DecodeSetup | src/Client/Audio.c:646-674 | reads ResidueSpec, and the residue returned is valid and has the type given |
| ResidueSetup.FrameWindowBounds | src/Client/Audio.c:676-686 | both window ends are at least the vector size; nothing is read when both bounds are within it; an in-order window reads end-begin values and a reversed one wraps modulo 2^32; the partition count is the whole number of partitions that fit |
| ResidueSetup.ClassWords | src/Client/Audio.c:700-705 | one classification digit per classword |
| ResidueSetup.ClassWordsValue | src/Client/Audio.c:700-705 | each classification is below the classification count, and together they are the base-c digits of temp mod c^n |
| MappingSetup.CouplingStepsOk | src/Client/Audio.c:754-758 | each coupling step has a magnitude and an angle that differ and fit in couplingBits |
| MappingSetup.CouplingSpecOk | src/Client/Audio.c:749-759 | at most 256 coupling steps, each naming two different channels below the channel count |
| MappingSetup.Zeros | src/Client/Audio.c:771-773 | with one submap, every channel's mux is 0 |
| MappingSetup.SubmapsSpecOk | src/Client/Audio.c:776-780 | one 8-bit floor and one 8-bit residue number per submap; the out-of-bounds error only when there are more than 15 submaps |
| MappingSetup.MappingSpecOk | src/Client/Audio.c:743-782 | mapping setup fails with the end of input, equal coupled channels, non-zero reserved bits or more submaps than the table holds; otherwise the mapping is valid for the channel count |
| MappingSetup.SixteenSubmapsFail | src/Client/Audio.c:733-780 | a 16-submap mapping overruns the 15-entry tables |
| MappingSetup.ReadSubmapCount | src/Client/Audio.c:744-747 | reads SubmapCount |
| MappingSetup.ReadCouplingSteps | src/Client/Audio.c:754-758 | the loop reads CouplingSteps |
| MappingSetup.ReadCoupling | src/Client/Audio.c:749-759 | reads CouplingSpec |
| MappingSetup.ReadMux | src/Client/Audio.c:766-774 | reads MuxSpec |
| MappingSetup.ReadSubmaps | src/Client/Audio.c:776-780 | the loop reads SubmapsSpec |
| MappingSetup.DecodeSetup | src/Client/Audio.c:743-782 | reads MappingSpec, and the mapping returned is valid |
| MappingSetup.ModeSpecOk | src/Client/Audio.c:789-798 | a mode takes 41 bits, fails on a non-zero window or transform type, and has a 1-bit block flag and an 8-bit mapping number |
| MappingSetup.DecodeMode | src/Client/Audio.c:789-798 | reads ModeSpec |
| HeaderPackets.HeaderCheckIff | src/Client/Audio.c:811-820 | a header passes exactly when it is the packet type followed by "vorbis"; on failure the error is the wrong-header error exactly when the type byte differs, and otherwise an invalid argument |
| HeaderPackets.HeaderSpecErrors | src/Client/Audio.c:811-820 | a header passes only when its seven bytes are the type and "vorbis" |
| HeaderPackets.DecodeHeader | src/Client/Audio.c:811-820 | reads HeaderSpec from the current byte position, leaving the bit buffer alone |
| HeaderPackets.PowerOfTwoIff | src/Client/Audio.c:807-809 | x is a power of two exactly when x = 2^log2(x) |
| HeaderPackets.BlockSizeExponent | src/Client/Audio.c:807-809 | 2^k is a valid block size exactly when 6 <= k <= 13 (64..8192) |
| HeaderPackets.IdentifierCheckIff | src/Client/Audio.c:822-841 | an identifier is accepted exactly when the version is 0, both block-size exponents are in 6..13 with the first no larger, there are 1..8 channels and the framing bit is set; it then carries those values |
| HeaderPackets.DecodeIdentifier | src/Client/Audio.c:822-841 | reads IdentifierSpec, leaving the bit buffer alone |
| HeaderPackets.WordLE | src/Client/Audio.c:825-829 | a little-endian word of four bytes is b0 + 256 b1 + 65536 b2 + 2^24 b3 |
| HeaderPackets.U32Bytes | src/Client/Audio.c:846-852 | the four bytes of a length read back as that length |
| HeaderPackets.LengthOfBytes | src/Client/Audio.c:844-849 | a length written as four bytes reads back as that length |
| HeaderPackets.SkipStringBytes | src/Client/Audio.c:846-848 | skipping a length-prefixed string lands right after it |
| HeaderPackets.SkipCommentsBytes | src/Client/Audio.c:849-852 | skipping count comments lands right after the comment list |
| HeaderPackets.CommentsRoundTrip | src/Client/Audio.c:843-855 | a comment packet built from a vendor string, comments and a framing byte is skipped whole and accepted exactly when the framing bit is set |
| HeaderPackets.SkipCommentsErrors | src/Client/Audio.c:849-852 | skipping comments fails only at the end of input and consumes at least four bytes per comment |
| HeaderPackets.CommentsSpecErrors | src/Client/Audio.c:843-855 | the comment packet fails only at the end of input or on the framing bit, and consumes at least nine bytes |
| HeaderPackets.ReadLength | src/Client/Audio.c:846-850 | reads LengthOf, four bytes |
| HeaderPackets.SkipLengthPrefixed | src/Client/Audio.c:846-852 | skips SkipString |
| HeaderPackets.DecodeComments | src/Client/Audio.c:843-855 | reads CommentsSpec, leaving the bit buffer alone |
| VorbisSetup.TimesSpecOk | src/Client/Audio.c:868-872 | the time placeholders fail only at the end of input or on a non-zero time, and take 16 bits each |
| VorbisSetup.FloorEntryOk | src/Client/Audio.c:876-881 | a floor entry is type 1 and valid, or fails with the floor-type error or the end of input |
| VorbisSetup.ResidueEntryOk | src/Client/Audio.c:885-890 | a residue entry has type 0..2 and is valid; a type above 2 is reported as the floor-type error |
| VorbisSetup.MappingEntryOk | src/Client/Audio.c:894-899 | a mapping entry is type 0 and valid for the channel count |
| VorbisSetup.ModeEntryOk | src/Client/Audio.c:903-906 | a mode has a 1-bit block flag and an 8-bit mapping number |
| VorbisSetup.CodebookEntryOk | src/Client/Audio.c:863-866 | a codebook entry fails with a codebook error, and its code table has one length and one value per codeword |
| VorbisSetup.CodebookListOk | src/Client/Audio.c:861-866 | count codebooks follow those read, each with a well-sized code table, or the list fails with a codebook error |
| VorbisSetup.CodebooksAfterOk | src/Client/Audio.c:863-866 | the same, from a codebook just read that is well-sized or failed with a codebook error |
| VorbisSetup.FloorListOk | src/Client/Audio.c:876-881 | count valid floors follow those read, or the list fails with a floor error |
| VorbisSetup.FloorsAfterOk | src/Client/Audio.c:876-881 | the same, from a floor just read that is valid or failed with a floor error |
| VorbisSetup.ResidueListOk | src/Client/Audio.c:885-890 | count valid residues follow those read, or the list fails with a residue error |
| VorbisSetup.ResiduesAfterOk | src/Client/Audio.c:885-890 | the same, from a residue just read that is valid or failed with a residue error |
| VorbisSetup.MappingListOk | src/Client/Audio.c:894-899 | count mappings valid for the channel count follow those read, or the list fails with a mapping error |
| VorbisSetup.MappingsAfterOk | src/Client/Audio.c:894-899 | the same, from a mapping just read that is valid or failed with a mapping error |
| VorbisSetup.ModeListOk | src/Client/Audio.c:903-906 | count valid modes follow those read, or the list fails with a mode error |
| VorbisSetup.ModesAfterOk | src/Client/Audio.c:903-906 | the same, from a mode just read that is valid or failed with a mode error |
| VorbisSetup.TimeListOk | src/Client/Audio.c:868-872 | the time list fails only at the end of input or on a non-zero time |
| VorbisSetup.CodebookSectionOk | src/Client/Audio.c:861-866 | the codebook section has 1..256 well-sized codebooks, or fails with a codebook error |
| VorbisSetup.FloorSectionOk | src/Client/Audio.c:874-881 | the floor section has 1..64 valid floors, or fails with a floor error |
| VorbisSetup.ResidueSectionOk | src/Client/Audio.c:883-890 | the residue section has 1..64 valid residues, or fails with a residue error |
| VorbisSetup.MappingSectionOk | src/Client/Audio.c:892-899 | the mapping section has 1..64 mappings valid for the channel count, or fails with a mapping error |
| VorbisSetup.ModeSectionOk | src/Client/Audio.c:901-906 | the mode section has 1..64 valid modes, or fails with a mode error |
| VorbisSetup.AfterFloorsOk | src/Client/Audio.c:883-908 | residues, mappings and modes after valid codebooks and floors complete a valid setup, or fail with a setup error |
| VorbisSetup.AfterCodebooksOk | src/Client/Audio.c:868-908 | the times and the later lists after valid codebooks complete a valid setup, or fail with a setup error |
| VorbisSetup.SetupListsOk | src/Client/Audio.c:861-908 | the lists of the setup header make a valid setup, or fail with a setup error |
| VorbisSetup.SetupSpecOk | src/Client/Audio.c:857-913 | the setup header fails only with a setup error, and a setup it yields is valid for the channel count |
| VorbisSetup.FramingAfterLists | src/Client/Audio.c:909-912 | once the lists are read, the setup header fails with the framing error exactly when the framing bit is 0 |
| VorbisSetup.SetupPacketOk | src/Client/Audio.c:929-933 | the setup packet fails only with a header or setup error, and a setup it yields is valid |
| VorbisSetup.AfterIdentifierOk | src/Client/Audio.c:924-933 | the comment and setup packets keep the identifier and give a setup valid for its channel count, or fail with a header or setup error |
| VorbisSetup.SessionSpecOk | src/Client/Audio.c:915-935 | the headers fail only with a header or setup error, and a session they yield has 1..8 channels, valid block sizes in order and a setup valid for its channels |
| VorbisSetup.ReadTime | src/Client/Audio.c:870-871 | one time placeholder advances TimesSpec by one |
| VorbisSetup.ReadTimes | src/Client/Audio.c:868-872 | reads TimesSpec: zero-valued 16-bit entries, failing at the end of input or on a non-zero time |
| VorbisSetup.TimeLoop | src/Client/Audio.c:868-872 | the loop reads TimesSpec, one entry per pass |
| VorbisSetup.ReadFloorEntry | src/Client/Audio.c:877-880 | reads FloorEntry and returns a valid floor |
| VorbisSetup.ReadResidueEntry | src/Client/Audio.c:886-889 | reads ResidueEntry |
| VorbisSetup.ReadMappingEntry | src/Client/Audio.c:895-898 | reads MappingEntry |
| VorbisSetup.ReadFloors | src/Client/Audio.c:876-881 | the loop reads FloorList: count valid floors, or the first floor error |
| VorbisSetup.ReadFloorStep | src/Client/Audio.c:877-880 | one pass: the floor list from here is the list after the floor read, which is valid, or that floor's error |
| VorbisSetup.FloorLoop | src/Client/Audio.c:876-881 | the loop reads FloorList |
| VorbisSetup.ReadResidues | src/Client/Audio.c:885-890 | the loop reads ResidueList: count valid residues, or the first residue error |
| VorbisSetup.ReadResidueStep | src/Client/Audio.c:886-889 | one pass: the residue list from here is the list after the residue read, which is valid, or that residue's error |
| VorbisSetup.ResidueLoop | src/Client/Audio.c:885-890 | the loop reads ResidueList |
| VorbisSetup.ReadMappings | src/Client/Audio.c:894-899 | the loop reads MappingList: count mappings valid for the channel count, or the first mapping error |
| VorbisSetup.ReadMappingStep | src/Client/Audio.c:895-898 | one pass: the mapping list from here is the list after the mapping read, which is valid, or that mapping's error |
| VorbisSetup.MappingLoop | src/Client/Audio.c:894-899 | the loop reads MappingList |
| VorbisSetup.ReadModes | src/Client/Audio.c:903-906 | the loop reads ModeList: count valid modes, or the first mode error |
| VorbisSetup.ReadModeStep | src/Client/Audio.c:904-905 | one pass: the mode list from here is the list after the mode read, which is valid, or that mode's error |
| VorbisSetup.ModeLoop | src/Client/Audio.c:903-906 | the loop reads ModeList |
| VorbisSetup.ReadCodebooks | src/Client/Audio.c:863-866 | the loop reads CodebookList: count codebooks, each as CodebookSpec gives it and with a code table that fits the scalar decoder, or the first codebook error |
| VorbisSetup.ReadCodebookStep | src/Client/Audio.c:864-865 | one pass: the codebook list from here is the list after the codebook read, or that codebook's error |
| VorbisSetup.CodebookLoop | src/Client/Audio.c:863-866 | the loop reads CodebookList |
| VorbisSetup.ReadCount | src/Client/Audio.c:861 | a count is the field read plus one, so it is 1..2^width |
| VorbisSetup.ReadCodebookList | src/Client/Audio.c:861-866 | reads CodebookSection: 1..256 codebooks |
| VorbisSetup.ReadTimeList | src/Client/Audio.c:868-872 | reads TimeList, which fails only at the end of input or on a non-zero time |
| VorbisSetup.ReadFloorList | src/Client/Audio.c:874-881 | reads FloorSection: 1..64 valid floors |
| VorbisSetup.ReadResidueList | src/Client/Audio.c:883-890 | reads ResidueSection: 1..64 valid residues |
| VorbisSetup.ReadMappingList | src/Client/Audio.c:892-899 | reads MappingSection: 1..64 mappings valid for the channel count |
| VorbisSetup.ReadModeList | src/Client/Audio.c:901-906 | reads ModeSection: 1..64 valid modes |
| VorbisSetup.ReadAfterFloors | src/Client/Audio.c:883-908 | reads AfterFloors |
| VorbisSetup.ReadAfterCodebooks | src/Client/Audio.c:868-908 | reads AfterCodebooks |
| VorbisSetup.ReadSetupLists | src/Client/Audio.c:861-908 | reads SetupLists: a valid setup or a setup error |
| VorbisSetup.ReadFramingBit | src/Client/Audio.c:909-910 | reads the framing bit as ReadField gives it, then aligns the bit buffer to a byte |
| VorbisSetup.ReadSetupPacket | src/Client/Audio.c:929-933 | reads SetupPacketSpec: the setup packet header, then the setup |
| VorbisSetup.ReadAfterIdentifier | src/Client/Audio.c:924-933 | reads AfterIdentifier: the comment packet, then the setup packet |
| VorbisSetup.ModeNumberInRange | src/Client/Audio.c:945-946 | any iLog(modes-1)-bit mode number indexes an existing mode |
| VorbisSetup.DecodeSetup | src/Client/Audio.c:857-913 | the result is SetupSpec of the stream: the lists in order, then the framing bit read before the byte alignment; a setup returned is valid and leaves the reader byte-aligned, and an error is one of the setup errors, including an unset framing bit |
| VorbisSetup.DecodeHeaders | src/Client/Audio.c:915-935 | the result is SessionSpec of the bytes: the identification, comment and setup packets in order, each behind its packet header, stopping at the first error; a session's identifier has 1..8 channels and valid, ordered block sizes, and its setup is valid for that channel count |
| VorbisFrame.ModeNumBitsSmall | src/Client/Audio.c:908 | a valid setup's mode number has at most 3 bits |
| VorbisFrame.BlockSizeEven | src/Client/Audio.c:950-951 | a valid block size is even, so halving it is exact |
| VorbisFrame.PacketMode | src/Client/Audio.c:942-946 | the mode number read is always an existing mode |
| VorbisFrame.HeadSpecOk | src/Client/Audio.c:942-957 | an audio packet starting with a 1 bit is the frame-type error; the error is OutOfBounds exactly when the mode read names a mapping past the mapping table; otherwise the head names its mode and block size, the data size is half the block size, and long blocks read two window flags |
| VorbisFrame.ReadHead | src/Client/Audio.c:942-957 | reads HeadSpec |
| VorbisFrame.Books | src/Client/Audio.c:966 | the setup's code tables, one per codebook, all fit the scalar decoder |
| VorbisFrame.ChannelFloorOk | src/Client/Audio.c:963-967 | a channel's floor fails only at the end of input, on a number out of range or on an aborted scalar decode, and is OutOfBounds whenever its mux names no submap; a floor in use has one Y value per X value of the floor its submap names |
| VorbisFrame.ReadChannelFloor | src/Client/Audio.c:964-966 | reads ChannelFloor |
| VorbisFrame.FloorsFromOk | src/Client/Audio.c:961-968 | the floors of a frame fail only with a floor error; otherwise there is one per channel, each fitting the floor its submap names |
| VorbisFrame.ReadFloorStep | src/Client/Audio.c:964-966 | one pass: the floors from channel i are channel i's floor followed by those after it, or its error |
| VorbisFrame.ReadFloors | src/Client/Audio.c:961-968 | the loop reads FloorsFrom: one floor per channel, each as ChannelFloor gives it, stopping at the first error |
| VorbisFrame.HasFloor | src/Client/Audio.c:966-967 | a channel has a floor exactly when its floor was in use |
| VorbisFrame.Propagated | src/Client/Audio.c:970-978 | the residue flags after the coupling steps have one flag per channel |
| VorbisFrame.LastStepAlike | src/Client/Audio.c:975-976 | after the last coupling step, its magnitude and angle channels agree |
| VorbisFrame.PropagatedKeeps | src/Client/Audio.c:970-978 | propagation never clears a channel's flag |
| VorbisFrame.PropagatedUntouched | src/Client/Audio.c:970-978 | a channel that no coupling step names keeps its floor flag |
| VorbisFrame.PropagatedSilent | src/Client/Audio.c:970-978 | when no channel has a floor, none has a residue |
| VorbisFrame.Propagate | src/Client/Audio.c:970-978 | the loop computes Propagated |
| VorbisFrame.SubmapChannels | src/Client/Audio.c:984-985 | every channel listed for submap i has mux i |
| VorbisFrame.SubmapChannelsSpec | src/Client/Audio.c:984-989 | every channel whose mux is i is listed for submap i, in increasing channel order |
| VorbisFrame.ChannelInOwnSubmap | src/Client/Audio.c:984-985 | channel j is listed under submap i exactly when its mux is i |
| VorbisFrame.DoNotDecodePrefix | src/Client/Audio.c:984-989 | scanning one more channel extends the flags only when it belongs to the submap |
| VorbisFrame.SubmapFlags | src/Client/Audio.c:982-989 | the loop computes DoNotDecode: one flag per channel of the submap, set when that channel has no residue |
| VorbisFrame.SubmapChannelsBound | src/Client/Audio.c:984-989 | a submap has no more channels than the stream |
| VorbisFrame.SubmapJobs | src/Client/Audio.c:980-999 | the residue loop equals JobsUpTo over all submaps: it fails, with OutOfBounds, exactly when some submap's floor number, used as its residue number, names no residue or names a residue whose classbook is past the codebook table; otherwise job i is SubmapJob of submap i |
| VorbisFrame.SubmapJobFails | src/Client/Audio.c:683-684 | a submap's job fails, with OutOfBounds, exactly when its residue number is past the residue table (line 991) or that residue's classbook is past the codebook table; otherwise the job names that residue, takes the classbook's dimensions as its classwords per codeword, and carries DoNotDecode's flags |
| VorbisFrame.JobsUpToFails | src/Client/Audio.c:980-999 | the jobs of the first n submaps fail, with OutOfBounds, exactly when one of those submaps names no residue or a residue whose classbook is past the codebook table |
| VorbisFrame.JobsUpToJobs | src/Client/Audio.c:980-999 | otherwise there is one job per submap, each that submap's SubmapJob |
| VorbisFrame.JobsUpToStaysFailed | src/Client/Audio.c:980-999 | once a submap's job fails, later submaps change nothing |
| VorbisFrame.JobsLoop | src/Client/Audio.c:980-999 | the loop computes JobsUpTo over all submaps |
| VorbisFrame.SubmapJobStep | src/Client/Audio.c:982-999 | one pass computes SubmapJob for submap i, including the classbook lookup of line 683 |
| VorbisFrame.DecodeFrame | src/Client/Audio.c:941-999 | the frame is FrameSpec of the packet, and its head is HeadSpec's; the errors are those of the head, the floors, the residue lookup and the classbook lookup |
| VorbisFrame.AfterHeadOk | src/Client/Audio.c:959-999 | after the head, the frame fails only with a floor error or with OutOfBounds for a residue or classbook number out of range; otherwise there is one fitting floor per channel, the residue flags are the propagated floor flags, and one job per submap |
| VorbisFrame.FrameSpecOk | src/Client/Audio.c:941-999 | a frame fails with its head's error when the head fails; a frame's head is HeadSpec's and its data size is at most 4096 |
| VorbisFrame.ReadAfterHead | src/Client/Audio.c:959-999 | reads AfterHead |

## Left out

- Floating point. This covers:
  - the value computed by `float32_unpack` (the `Math_Exp` scaling of the mantissa);
  - the vector values of `Codebook_DecodeVQ_Type1`/`Type2`;
  - `Codebook_DecodeVectors`;
  - the curve stage of `Floor_Synthesis` (lines 610-631) and the inverse dB table;
  - the inverse coupling of `Vorbis_DecodeFrame` (lines 1001-1025).

  The model keeps the integer parts: the packed fields, the multiplicand offsets and the amplitudes.
- The inverse coupling at lines 1001-1025 reads `magValues[i]` and `angValues[i]` where `[j]` is evidently meant. This is not modelled, because those values are floating point.
- The rest of `Vorbis_DecodeFrame` after line 1025 (dot product, inverse transform) is not written in the source. The function also returns no value.
- The classification and partition passes of `Residue_DecodeFrame` (lines 687-725) are not modelled, apart from the classword digits (`ClassWords`).
  - In the source, `i` in the loop at line 702 is unsigned, so `i >= 0` never ends the loop. `ClassWords` models the digits the loop evidently means.
  - Because those passes are left out, `VorbisFrame.DecodeFrame` computes each submap's residue job without reading the residue bits.
- CodebookSetup.DecodeSetup: the codebook it returns holds the code tables that `Codebook_CalcCodewords` builds (`CalcSpec`). It is not the C codebook's final state. Line 333 then calls `Codebook_CalcCodewordsFail` (lines 170-235) on the same codebook. That call reallocates `NumCodewords`, `Codewords`, `CodewordLens` and `Values` and writes them again with its own search. That search (lines 209-226) may never end. The second call, its tables and its possible hang are not modelled, and neither is the `debug_entry` logging.
- `Codebook_DecodeScalar` ends with `ErrorHandler_Fail` when no code matches. This is modelled as the error `Aborted`.
- `Floor_DecodeFrame` stores the Y list in the floor. The model returns it as part of `FloorOne.FrameFloor`.
- `Platform_MemAlloc` and the `Values` buffer allocated at line 959 are left out. So are the log calls. The fixed-size C arrays are sequences, and an index past their declared size is the error `OutOfBounds`.
- The source stream is the byte sequence the reader is built over. `Stream_Read`, `Stream_ReadU8`, `Stream_ReadU32_LE` and `Stream_Skip` become reads from that sequence.
  - Short reads, which the C code ignores or treats as fatal, are modelled as `EndOfStream`.
  - `Ogg_MakeStream`'s buffer and `Stream_Init` are modelled by the `OggStream` fields.
- The page granule position, serial number, sequence number and checksum are skipped by the source. The model skips them too.
- `Math_IsPowOf2` (ExtMath) is not part of this model. It is modelled as `HeaderPackets.PowerOfTwo`.
- `Vorbis_Init` is modelled by the `BitReader` constructor.
- The cascade entry's `|=` at line 660 is modelled as an addition. The two parts occupy disjoint bits, so the two are the same.
- `VorbisSetup.DecodeSetup`, `VorbisSetup.ReadMappingList`, `VorbisSetup.ReadMappings` and `VorbisFrame.DecodeFrame` require fewer than 256 channels (at most 8 in a session). The identifier check guarantees this for every session.
- VorbisFrame.DecodeFrame: a channel whose mux value names a submap beyond those read is reported as `OutOfBounds`. In the C code it would read an unset `FloorIdx` entry.
- CodebookSetup.OrderedSorted: states that the lengths never decrease only when the lengths the runs reach stay below 256. Past that, the C code stores each length in a byte and it wraps, so the table can decrease. The property is stated for adjacent entries, which implies it for every pair.
- FloorCurve.RenderPoint, FloorCurve.RenderLine, FloorCurve.Amplitude, FloorCurve.Amplified: the C code computes in Int32, and the model computes in unbounded integers. So `ady * (X - x0)` (line 504), `err + ady` (line 529) and `val - lowroom + predicted` (line 596) are not wrapped. For X and Y values inside the floor's range these do not overflow. For Y values far outside the range the C code can overflow where the model does not.
- Integers.Lookup1Values: relates the result to the root only when (r+1)^dim does not wrap modulo 2^32. Beyond that, the C loop compares wrapped powers.
- CodebookDecode.VQ1Offsets: gives the digits only when the divisor does not wrap modulo 2^32. Otherwise it states only that the offsets are below lookupValues.
- `GameWindow.cs` and the sh4 platform code are not part of this model.
