# Verified model of the engine's message layer and its small stateful cores

A Dafny model of the parts of the ReHLDS engine that carry bits, text and lists from one place
to another, in the build with REHLDS_FIXES defined, and proofs of what they promise. Everything
is checked by `dafny verify dfyconfig.toml`; nothing here runs.

- **Bit stream** (`Bits`, `SizeBuf`, `BitWriter`, `LegacyBitWriter`, `BitReader`, `BitStream`,
  `BitCodecs`). A message is a sequence of bits, least significant first. The 64-bit accumulator
  writer, the older in-place writer and the word-loading reader are classes over a bounded
  buffer. They are proved against one encoding, so the two writers agree byte for byte, the
  reader returns what was written, and overflow and bad reads are flagged exactly when they
  happen.
- **Munge** (`Munge`). The three table-driven obfuscators, and the sixteen-way unrolled form
  with its falling-through switch, have one result, and each direction undoes the other.
- **CRC-32** (`Crc32`, `Words`). The table-driven code is the bit-by-bit reflected division of
  section 8 of RFC 1952, in any chunking, and it detects every burst of up to 32 bits.
- **Visibility** (`Visibility`). The run-length decoder, the audible matrix as a relation on
  leaves, the agreement of cached and on-demand rows, and the search below a head node.
- **Command buffer** (`CommandBuffer`). Text that runs commands which insert text at its own
  front is worked off in depth-first order.
- **Registries** (`Registry`, `Names`). Commands and variables in two sorted linked lists that
  share a namespace.
- **Containers and command line** (`ObjectList`, `ObjectDictionary`, `CommandLine`).

Objects that the engine updates in place are classes with the same fields, and their methods have
the same branches and loops. A method's `ensures` ties the new state to a function on values; the
lemmas are about those functions. Ghost fields record history (the bits sent, the bytes touched,
the lines run) or the node sequence of a list. `Valid()` is the invariant that every method keeps,
so what follows from it holds after every run.

Places where the code does something a caller may not expect, each with the exact condition:

- A coordinate's eighths are always zero, because the conversion to an integer comes before the
  scaling by eight; a coordinate survives exactly if it is a whole number of magnitude at most
  4095 (`CoordExact`, `HalfLost`).
- The nearest-key search ends by reading the entry in front of the one it found. In front of the
  first entry that is memory outside the table, and if the first entry is the answer and that
  memory holds the key, the search returns -1 (`SteppedOffIffFirst`, `SteppedOffHappens`).
- `Cmd_RemoveCmd` never finds the first command of the list (`RemovedUnlessFirst`,
  `OnlyCommandStays`).
- The in-place writer stores whole words. A session stays inside its room exactly if the room
  holds its bytes and two words or one from the byte of every field (`Reach`, `ReachLeast`): up to
  three bytes more than the encoding, as for a single bit, or none, as for a full word
  (`ReachAtMost`, `ReachExtremes`).
- For lengths of -4 and below the loop forms of COM_Munge2 do nothing, while the switch of the
  unrolled forms still changes words, unless their number is a multiple of sixteen (`FormsAgree`).
- Removing a parameter from the command line removes every parameter that it is a prefix of
  (`RemovedSegments`, `PrefixTakenAlong`).
- A failing `MSG_PeekBits` restores the position but leaves the bad-read flag up (`PeekBits`).

## Model

| member | source | states |
|---|---|---|
| SizeBuffer.SizeBuf.GetSpace | rehlds/engine/common.cpp:1191-1259 | a reservation ends at the new size, and the buffer restarts with the overflow flag up exactly if it did not fit; a set flag stays set, and only a request longer than the whole buffer leaves the size behind its end |
| SizeBuffer.SizeBuf.Clear | rehlds/engine/common.cpp:1161-1165 | the one operation that takes the overflow flag down |
| BitWriting.BitWriter.StartBitWriting | rehlds/engine/common.cpp:417-422 | a new session has sent nothing and begins at the end of the message |
| BitWriting.BitWriter.MaybeFlush | rehlds/engine/common.cpp:383-394 | flushed bytes and pending bits still are exactly the bits sent; room for another 32 bits is made, or the session is known not to fit |
| BitWriting.BitWriter.WriteBits | rehlds/engine/common.cpp:396-411 | keeps the writer's invariant (at most 63 pending bits, pending below 2 to that number, flushed and pending bits are all bits sent) and adds the saturated field to what was sent; once overflowed, no byte changes; with 8 bytes or more the size stays inside the buffer |
| BitWriting.BitWriter.WriteOneBit | rehlds/engine/common.cpp:413-415 | sends one bit that tells whether the value is nonzero |
| BitWriting.BitWriter.EndBitWriting | rehlds/engine/common.cpp:424-438 | the overflow flag is up exactly if it was up at the start or the session's bytes do not fit; otherwise the new bytes are the bits sent, filled up with zeros; earlier bytes are kept |
| BitWriting.FlushedWord | rehlds/engine/common.cpp:383-394 | a flush moves 32 bits from the accumulator to the buffer without changing the bit sequence |
| BitWriting.AccumulatedField | rehlds/engine/common.cpp:404-410 | or-ing a shifted field into the accumulator appends its bits to the pending ones |
| BitWriting.MaxValueIsRow | rehlds/engine/common.cpp:396-400 | the limit computed by the truncated shift is the largest value of the width, for every width from 1 to 32 |
| BitWriting.PaddedSession | rehlds/engine/common.cpp:424-438 | the last bytes complete the session to whole bytes with zero bits, at least one byte |
| BitWriting.SessionBytesLeast | rehlds/engine/common.cpp:424-438 | a session takes the least number of bytes that its bits fit in, but one at least, and the bits it does not use are zero |
| LegacyBitWriting.LegacyBitWriter.constructor | rehlds/engine/common.cpp:466-471 | a session of the in-place writer starts with nothing sent |
| LegacyBitWriting.LegacyBitWriter.WriteBits | rehlds/engine/common.cpp:485-530 | over any stale memory, the bits sent grow by the saturated field, and the word stores touch one or two words from the byte of the next bit and nothing behind |
| LegacyBitWriting.LegacyBitWriter.EndBitWriting | rehlds/engine/common.cpp:473-483 | the message grows by the bits sent, filled up with zeros to whole bytes; memory in front of the session and behind its stores is kept |
| LegacyBitWriting.OneWordField | rehlds/engine/common.cpp:485-530 | one masked store over stale memory appends the field and keeps the bits before it |
| LegacyBitWriting.TwoWordField | rehlds/engine/common.cpp:485-530 | two stores append a field that straddles a word |
| LegacyBitWriting.MaskedByte | rehlds/engine/common.cpp:473-483 | masking the last byte leaves the bits sent and zeros |
| BitReading.BitReader.StartBitReading | rehlds/engine/common.cpp:628-641 | reading starts at the byte position; it has failed exactly if it had before or no byte is left |
| BitReading.BitReader.EndBitReading | rehlds/engine/common.cpp:608-656 | the byte position goes behind the byte being read; after good reads it is right behind the session's bytes, and is then also the current bit |
| BitStream.OneBitTwoWays | rehlds/engine/common.cpp:658-755 | within the message, reading one bit by mask and by word load gives the same value and leaves every field of the reader the same |
| BitReading.BitReader.ReadBits | rehlds/engine/common.cpp:691-755 | a read fails exactly if the message holds fewer bits than asked for, and failure stays; an accepted value is the next bits of the message and depends on no byte behind it |
| BitReading.BitReader.ReadOneBit | rehlds/engine/common.cpp:658-689 | the same contract as a one-bit read, by masking instead of word loads |
| BitReading.BitReader.PeekBits | rehlds/engine/common.cpp:757-764 | within the message nothing changes and the result is what the next read returns; beyond it the failure stays |
| BitReading.CommonWindow | rehlds/engine/common.cpp:718-745 | word loads that reach behind the message agree with it on every bit that it covers |
| BitReading.OneWordBits | rehlds/engine/common.cpp:718-737 | shift and mask take the wanted bits out of one word |
| BitReading.TwoWordBits | rehlds/engine/common.cpp:738-745 | two masked and shifted words give a field that straddles them |
| BitStream.EncodingBits | rehlds/engine/common.cpp:396-438 | the encoding's bytes are the fields' bits followed by zeros only |
| BitStream.WireDigit | rehlds/engine/common.cpp:396-438 | the wire format digit by digit: digit i of a field's value is digit p % 8 of byte p / 8, p counting the bits before it |
| BitStream.DecodeStream | rehlds/engine/common.cpp:691-755 | decoding with the same widths gives every saturated value, whatever follows |
| BitStream.EncodingRoundTrip | rehlds/engine/common.cpp:383-438 | the wire format loses nothing but saturation, for every list of fields |
| BitStream.ReceivedAt | rehlds/engine/common.cpp:396-400 | what arrives is the value, or the largest that the width can carry if that is less |
| BitStream.WriteSession | rehlds/engine/common.cpp:383-438 | all or flagged: the buffer ends in the full encoding or the flag is up, exactly by whether it fits; earlier bytes are kept; an overflowed buffer is never written; with 8 bytes or more the size stays inside the buffer |
| BitStream.LegacySession | rehlds/engine/common.cpp:466-530 | the in-place writer produces the same encoding in any room that its stores stay inside, and touches exactly the bytes up to its reach |
| BitStream.ReachLeast | rehlds/engine/common.cpp:485-530 | a room holds the session's reach if and only if it holds its bytes and the word stores of every field |
| BitStream.ReachAtMost | rehlds/engine/common.cpp:485-530 | the reach is the encoding and at most three bytes more |
| BitStream.ReachExtremes | rehlds/engine/common.cpp:504-530 | a single bit reaches three bytes behind its encoding, a full word none, a full word behind a bit three again |
| BitStream.BothWriters | rehlds/engine/common.cpp:383-530 | both writers leave the same bytes and size over any stale contents, whenever each has its room |
| BitStream.ReadSession | rehlds/engine/common.cpp:628-755 | reading an encoding with its widths gives all values without failure and ends right behind it |
| BitStream.RoundTrip | rehlds/engine/common.cpp:383-755 | written, then read: every value arrives and the two positions agree, so that what follows is read intact |
| BitCodecs.Clamp | rehlds/engine/common.cpp:541-552 | no value that the field can carry is nearer |
| BitCodecs.SBitsRoundTrip | rehlds/engine/common.cpp:539-557 | a signed value arrives as the nearest that the field can carry, so as itself if it can |
| BitCodecs.SBitsOnWire | rehlds/engine/common.cpp:553-557 | the sign goes first, then the digits of the magnitude, the lowest first |
| BitCodecs.WriteSBits | rehlds/engine/common.cpp:539-557 | sign and clamped magnitude are appended |
| BitCodecs.ReadSBits | rehlds/engine/common.cpp:766-777 | the parsed value, or failure exactly if too few bits are left |
| BitCodecs.NoEighths | rehlds/engine/common.cpp:852-869 | scaling after the conversion leaves no eighths, even when the 32-bit product wraps |
| BitCodecs.CoordRoundTrip | rehlds/engine/common.cpp:820-869 | a coordinate arrives as its whole part, cut off at 4095, and parsing stops where it should |
| BitCodecs.EncodedRoundTrip | rehlds/engine/common.cpp:820-850 | any coordinate on the wire, with eighths or without, is parsed as what it encodes |
| BitCodecs.CoordOnWire | rehlds/engine/common.cpp:858-868 | two flags, then sign, twelve digits and three digits as far as flagged |
| BitCodecs.CoordBitsAre | rehlds/engine/common.cpp:852-869 | of a number below one in magnitude only two clear flags are sent, of any other its sign and whole part |
| BitCodecs.CoordExact | rehlds/engine/common.cpp:820-869 | it arrives unchanged if and only if it is a whole number of magnitude at most 4095 |
| BitCodecs.HalfLost | rehlds/engine/common.cpp:852-869 | one and a half arrives as one |
| BitCodecs.WriteBitCoord | rehlds/engine/common.cpp:852-869 | the coordinate's wire form is appended |
| BitCodecs.ReadBitCoord | rehlds/engine/common.cpp:820-850 | the parsed coordinate and the rest, or failure exactly if too few bits are left |
| BitCodecs.Vec3RoundTrip | rehlds/engine/common.cpp:871-901 | a vector read into a zero vector arrives as its three whole parts and reading stays in step |
| BitCodecs.Vec3OnWire | rehlds/engine/common.cpp:885-901 | three flags, each by the threshold of an eighth, and then the flagged components in their order |
| BitCodecs.Vec3Kept | rehlds/engine/common.cpp:871-883 | components without a flag keep their value, and a flagged one is read into its own place |
| BitCodecs.WriteBitVec3Coord | rehlds/engine/common.cpp:885-901 | flags and flagged components are appended |
| BitCodecs.ReadBitVec3Coord | rehlds/engine/common.cpp:871-883 | components without a flag keep their value; failure exactly if too few bits are left |
| Munge.MungeRoundTrip | rehlds/engine/common.cpp:2527-2585 | for every word, sequence number and mask each direction undoes the other |
| Munge.MungedBytes | rehlds/engine/common.cpp:2527-2555 | byte by byte: the bytes of every whole word are reversed and exclusive-or-ed with the mask and the sequence number; the bytes behind are kept |
| Munge.UnmungedBytes | rehlds/engine/common.cpp:2557-2585 | the same for the inverse |
| Munge.SwapReverses | rehlds/engine/common.cpp:2544-2544 | swapping reverses the four bytes |
| Munge.MaskByteIs | rehlds/engine/common.cpp:2549-2549 | the mask of a byte is the table entry with the fixed bits of its place set |
| Munge.WordCounts | rehlds/engine/common.cpp:2595-2619 | how many words a length stands for, in both forms |
| Munge.Munge1 | rehlds/engine/common.cpp:2527-2555 | every whole word is munged, the trailing bytes and all others are kept; a negative length changes nothing |
| Munge.Unmunge1 | rehlds/engine/common.cpp:2557-2585 | the same for the inverse |
| Munge.MungeLoop | rehlds/engine/common.cpp:2655-2685 | the loop form, for any table |
| Munge.UnmungeLoop | rehlds/engine/common.cpp:2754-2782 | the loop form of the inverse, for any table |
| Munge.Munge2 | rehlds/engine/common.cpp:2589-2652 | blocks of sixteen with fixed constants and the falling-through switch do what the loop does, for every length above -4; below, what the switch alone does |
| Munge.Unmunge2 | rehlds/engine/common.cpp:2688-2751 | the same for the inverse |
| Munge.Munge3 | rehlds/engine/common.cpp:2785-2813 | the third table |
| Munge.Unmunge3 | rehlds/engine/common.cpp:2815-2845 | the inverse with the third table |
| Munge.UnrolledMasks | rehlds/engine/common.cpp:2601-2650 | the sixteen constants are the masks that the loop computes from the table, and repeat every sixteen words |
| Munge.UnrolledForm | rehlds/engine/common.cpp:2595-2616 | swapping once with the folded sequence number equals the loop's chain of operations |
| Munge.DoneUnique | rehlds/engine/common.cpp:2589-2685 | and there is only one: forms that change the same number of words leave equal buffers |
| Munge.ChangedIsDone | rehlds/engine/common.cpp:2655-2685 | the result that the contracts describe exists for every buffer |
| Munge.FormsAgree | rehlds/engine/common.cpp:2589-2685 | the unrolled and the loop form agree on every buffer if and only if the length is above -4 or its number of words a multiple of sixteen |
| Munge.EachUndoesOther | rehlds/engine/common.cpp:2527-2845 | munge then unmunge, or the other way round, restores every byte, for all three tables and every length |
| Crc32.TableIsStep8 | rehlds/engine/crc.cpp:31-97 | every entry of the table is eight division steps by 0xEDB88320 |
| Crc32.ByteStepIsSteps | rehlds/engine/crc.cpp:116-127 | a table lookup with a shift is eight division steps on the state with the byte added |
| Crc32.ProcessDivides | rehlds/engine/crc.cpp:116-127 | the table-driven form is the bit-by-bit division of the message |
| Crc32.ProcessConcat | rehlds/engine/crc.cpp:240-267 | any chunking gives the result of the whole |
| Crc32.ProcessByte | rehlds/engine/crc.cpp:109-114 | the byte form, with its different shift expression, agrees with the buffer form and the division |
| Crc32.ProcessBuffer | rehlds/engine/crc.cpp:116-127 | the loop divides the buffer's bits; a negative length is no bytes |
| Crc32.KnownChecksums | rehlds/engine/crc.cpp:99-127 | 0 for the empty string and 0xCBF43926 for "123456789" |
| Crc32.LumpsInOrder | rehlds/engine/crc.cpp:240-267 | lumps are joined in their order, without the skipped one |
| Crc32.MapFile | rehlds/engine/crc.cpp:240-269 | whatever the reads return, success means that all lumps but the skipped one are in the file and gives the checksum of their bytes as one string |
| Crc32.ReadLump | rehlds/engine/crc.cpp:245-266 | the checksum is that of the bytes got as one string, however the reads cut them; these are the whole lump unless a read failed |
| Crc32.DivideInjective | rehlds/engine/crc.cpp:116-127 | over a fixed message the division is one-to-one in the state |
| Crc32.BurstDetected | rehlds/engine/crc.cpp:99-127 | two buffers that differ only within 32 consecutive bits never have the same checksum |
| Crc32.LongerBurstMissed | rehlds/engine/crc.cpp:99-127 | 32 is the most: two five-byte buffers that differ within 33 bits and have the same checksum |
| Visibility.DecompressPVS | rehlds/engine/cmodel.cpp:71-106 | exactly the first bytes of the expansion are written, a run being cut off at the end, and nothing else changes |
| Visibility.ExpandCoded | rehlds/engine/cmodel.cpp:82-105 | the expansion undoes the coding of any pieces by nonzero literals and runs of 1 to 255 zeros |
| Visibility.EveryRowCoded | rehlds/engine/cmodel.cpp:82-105 | every row has such a coding |
| Visibility.NoDataSeesAll | rehlds/engine/cmodel.cpp:76-81 | without data every bit of the row is set |
| Visibility.ValidIff | rehlds/engine/cmodel.cpp:152-164 | which models the tables can be made for: leaf count and amount of data |
| Visibility.DecompressVis | rehlds/engine/cmodel.cpp:42-53 | the on-demand row, all visible for no data |
| Visibility.VisTables.CalcPAS | rehlds/engine/cmodel.cpp:136-236 | afterwards the matrix holds every decoded row, padded with zeros, and a binary digit of the audible matrix is set exactly for leaves that are visible or visible from a visible leaf |
| Visibility.VisTables.FreePAS | rehlds/engine/cmodel.cpp:126-134 | both tables are gone |
| Visibility.VisTables.LeafPVS | rehlds/engine/cmodel.cpp:55-69 | with or without the tables, the row agrees with the leaf's decoded row; leaf 0 sees all |
| Visibility.TablesBuilt | rehlds/engine/cmodel.cpp:136-236 | tables that were built meet the premise of the laws on the audible relation |
| Visibility.BitAtIs | rehlds/engine/cmodel.cpp:202-202 | a leaf has the digit of weight 2 to the m % 8 in byte m / 8 |
| Visibility.OrRow | rehlds/engine/cmodel.cpp:213-217 | or-ing word by word is or-ing byte by byte |
| Visibility.LeafRelayed | rehlds/engine/cmodel.cpp:202-217 | one relaying leaf adds to the row what it sees, and nothing else |
| Visibility.BuildRow | rehlds/engine/cmodel.cpp:192-219 | going through bytes and bits, with the skips, completes the row and touches no other |
| Visibility.AudibleRelation | rehlds/engine/cmodel.cpp:188-233 | a leaf is audible if and only if it is visible or visible from a leaf that is visible |
| Visibility.AudibleSymmetric | rehlds/engine/cmodel.cpp:188-233 | symmetric sight makes symmetric sound |
| Visibility.PaddingSilent | rehlds/engine/cmodel.cpp:152-233 | padding bits of the audible matrix are never set |
| Visibility.HeadnodeVisible | rehlds/engine/cmodel.cpp:238-269 | on every finite tree the search ends; the leaf it reports has its digit set and no leaf on a path to the left of it has; it reports none exactly if no leaf on any path has |
| Visibility.SearchByPaths | rehlds/engine/cmodel.cpp:238-269 | the first visible leaf in the order of the list is the leftmost by paths in the tree |
| Visibility.FirstVisibleIsLeftmost | rehlds/engine/cmodel.cpp:238-269 | that leaf is the leftmost whose bit is set; none is reported exactly if no bit is set |
| CommandBuffer.LinesConcat | rehlds/engine/cmd.cpp:171-194 | the lines of terminated text and what follows it are the lines of the one and then of the other, despite quotes, semicolons and comments |
| CommandBuffer.NewlineParts | rehlds/engine/cmd.cpp:171-194 | a newline parts the lines before it from those behind, whatever they hold |
| CommandBuffer.RunsOn | rehlds/engine/cmd.cpp:171-194 | text without a break does run on into what follows |
| CommandBuffer.TraceConcat | rehlds/engine/cmd.cpp:163-249 | the expansion of terminated text comes before that of what follows |
| CommandBuffer.TurnExpands | rehlds/engine/cmd.cpp:163-249 | with room, one turn takes the next line of the expansion and leaves the others, and needs no more room |
| CommandBuffer.RunExpands | rehlds/engine/cmd.cpp:163-249 | the scheduling law: text whose insertions are nested to a finite depth, with room for them, has a run that ends; the lines that ran followed by the expansion of what is left are the depth-first expansion |
| CommandBuffer.UsedUpIsNested | rehlds/engine/cmd.cpp:163-249 | finite nesting is needed: text that is used up without a dropped or unterminated insertion is nested to a finite depth |
| CommandBuffer.StopsAtWait | rehlds/engine/cmd.cpp:242-248 | text is left only behind a wait |
| CommandBuffer.RunsOnce | rehlds/engine/cmd.cpp:163-249 | a run has one length |
| CommandBuffer.WaitingLoop | rehlds/engine/cmd.cpp:242-248 | an alias that waits and names itself is nested to no depth, and its run still ends after two turns |
| CommandBuffer.NestedIffRanked | rehlds/engine/cmd.cpp:960-972 | the nesting is finite if and only if the lines that may run can be ranked, insertions below the line that makes them |
| CommandBuffer.NamesRank | rehlds/engine/cmd.cpp:940-972 | ranks for alias names and inserting commands rank the lines; names without a rank may be registered as long as none with one leads to them |
| CommandBuffer.NamesRankedIff | rehlds/engine/cmd.cpp:940-972 | and these ranks are needed, if every alias can be called |
| CommandBuffer.LookupOrder | rehlds/engine/cmd.cpp:940-985 | the first command that the first token names in any spelling, else the first such alias, else nothing |
| CommandBuffer.InsertedIs | rehlds/engine/cmd.cpp:115-157 | what stands in front after an insertion of text or of lines |
| CommandBuffer.PeakAtMost | rehlds/engine/cmd.cpp:76-113 | how much room a run needs at most, from the longest insertion of the lines that run |
| CommandBuffer.BreakStops | rehlds/engine/cmd.cpp:176-194 | a line ends at the first newline, or semicolon with an even number of quotes before it in text that does not begin with two slashes |
| CommandBuffer.SemicolonBreaks | rehlds/engine/cmd.cpp:176-194 | "a;b" and a newline are two lines |
| CommandBuffer.CommandBuffer.AddText | rehlds/engine/cmd.cpp:60-74 | the text is appended, or nothing changes if it does not fit |
| CommandBuffer.CommandBuffer.InsertText | rehlds/engine/cmd.cpp:76-113 | the text is put in front, or nothing changes |
| CommandBuffer.CommandBuffer.InsertTextLines | rehlds/engine/cmd.cpp:115-157 | the text is put in front on lines of its own, or nothing changes |
| CommandBuffer.CommandBuffer.TakeLine | rehlds/engine/cmd.cpp:173-235 | takes what stands before the first place where a line ends, at most 1023 characters of it, and leaves what stands behind |
| CommandBuffer.CommandBuffer.ExecuteString | rehlds/engine/cmd.cpp:940-985 | a command goes before an alias of its name; what it inserts stands in front, or nothing if it does not fit |
| CommandBuffer.CommandBuffer.Execute | rehlds/engine/cmd.cpp:163-249 | for every text whose run ends: the lines that ran are executed in order, empty ones passed over, and the text that is then left is left; a wait is used up |
| CommandBuffer.CommandBuffer.ExecuteNested | rehlds/engine/cmd.cpp:163-249 | with finite nesting and room it ends; executed lines followed by the expansion of what is left are the depth-first expansion; something is left only behind a wait |
| ObjectDictionary.NearerNeighbour | rehlds/common/ObjectDictionary.cpp:123-153 | between two neighbours the nearer one, the lower on a tie, is nearest of the whole table |
| ObjectDictionary.SteppedOffIffFirst | rehlds/common/ObjectDictionary.cpp:155-161 | the search leaves the table if and only if entry 0 is the answer for a key above it and the memory before holds the key |
| ObjectDictionary.SteppedOffHappens | rehlds/common/ObjectDictionary.cpp:155-161 | a table of two, a key and a memory cell with which that happens |
| ObjectDictionary.ObjectDictionary.FindClosestAsIndex | rehlds/common/ObjectDictionary.cpp:105-162 | from ring or search alike, the nearest index with ties to the lower; -1 exactly for an empty table or a search that left it |
| ObjectDictionary.ObjectDictionary.FindKeyInCache | rehlds/common/ObjectDictionary.cpp:471-481 | a key that is remembered is found, with the index that the search would find; all slots that remember it agree |
| ObjectDictionary.ObjectDictionary.AddToCache | rehlds/common/ObjectDictionary.cpp:462-469 | the oldest slot of the ring, and no other, gets the answer; a right one keeps the ring right |
| ObjectDictionary.ObjectDictionary.ClearCache | rehlds/common/ObjectDictionary.cpp:164-168 | no answer is remembered |
| ObjectDictionary.ObjectDictionary.Add | rehlds/common/ObjectDictionary.cpp:69-103 | a fresh key within capacity: strictly increasing as before, one entry more at its place, all others kept, and the ring is right for the new table |
| ObjectList.ObjectList.AddHead | rehlds/common/ObjectList.cpp:42-67 | the chain is one new element and then the old chain |
| ObjectList.ObjectList.AddTail | rehlds/common/ObjectList.cpp:98-124 | the chain is the old chain and then one new element |
| ObjectList.ObjectList.RemoveHead | rehlds/common/ObjectList.cpp:70-95 | returns and drops the first; the iterator stays in the list unless it stood there |
| ObjectList.ObjectList.RemoveTail | rehlds/common/ObjectList.cpp:126-153 | returns and drops the last; the iterator stays in the list unless it stood there |
| ObjectList.ObjectList.Contains | rehlds/common/ObjectList.cpp:165-180 | tells membership, and moves the iterator to the first match |
| ObjectList.ObjectList.Clear | rehlds/common/ObjectList.cpp:182-200 | the list is empty and the iterator at its end |
| ObjectList.ObjectList.Remove | rehlds/common/ObjectList.cpp:202-222 | drops the first match only; going on with the iterator visits exactly what it would have visited, without the removed element |
| ObjectList.ObjectList.GetFirst | rehlds/common/ObjectList.cpp:230-242 | returns the first object; one element is passed |
| ObjectList.ObjectList.GetNext | rehlds/common/ObjectList.cpp:244-254 | returns the next object; one element more is passed |
| ObjectList.Sweep | rehlds/HLTV/Console/src/System.cpp:299-308 | a loop that removes elements just returned visits every original element once, in order, and keeps the wanted ones in order |
| ObjectList.KeptWanted | rehlds/HLTV/Console/src/System.cpp:299-308 | what is kept is exactly what is wanted |
| CommandLine.CCommandLine.RemoveParm | rehlds/common/commandline.cpp:195-248 | ends, and the line in memory is the line without the parameter and without trailing spaces |
| CommandLine.WithoutParmClean | rehlds/common/commandline.cpp:195-248 | the parameter occurs nowhere in the result, not even inside a word, no space ends it, and it is no longer than before |
| CommandLine.RemovedTwice | rehlds/common/commandline.cpp:195-248 | removing twice is removing once |
| CommandLine.RemovedSegments | rehlds/common/commandline.cpp:195-237 | the frame: cut in front of every sign, the line loses the segments that begin with the parameter and keeps all others as they are, in order |
| CommandLine.OthersStay | rehlds/common/commandline.cpp:195-248 | another parameter stays if and only if a segment begins with it and not with the removed one |
| CommandLine.PrefixTakenAlong | rehlds/common/commandline.cpp:195-237 | removing "-p" removes "-port 27015" |
| CommandLine.CCommandLine.AppendParm | rehlds/common/commandline.cpp:251-302 | new memory holds the line without the parameter, then parameter and value |
| CommandLine.CCommandLine.SetParm | rehlds/common/commandline.cpp:304-308 | new memory holds the line with the parameter set |
| CommandLine.CCommandLine.CheckParm | rehlds/common/commandline.cpp:318-353 | the first occurrence, and the word after the one it is in, at most 128 characters of it |
| CommandLine.SetThenGet | rehlds/common/commandline.cpp:304-353 | whatever the line was, a parameter set to a value has its first word as value, so the whole value if and only if it has no space |
| CommandLine.SetWithoutValue | rehlds/common/commandline.cpp:251-308 | a parameter appended or set without a value is on the line, at its end, behind what was left of it |
| CommandLine.ValueStays | rehlds/common/commandline.cpp:304-353 | setting a parameter leaves the value of another alone, when no cut reaches the segment that holds it |
| CommandLine.ValuesStayHere | rehlds/common/commandline.cpp:304-353 | two lines on which another value stays, at the end and in front |
| Names.StricmpOrder | rehlds/engine/cmd.cpp:707-731 | comparison without regard to case is transitive, strictly so unless all are equal |
| Names.StricmpSame | rehlds/engine/cvar.cpp:28-30 | names are the same exactly if they have one length and differ, character by character, at most in a capital and its small letter |
| Names.LowerCharSame | rehlds/engine/cvar.cpp:28-30 | which characters are taken for the same |
| Names.StricmpLess | rehlds/engine/cmd.cpp:713-726 | the order is that of a dictionary |
| Registry.NamespaceInvariant | rehlds/engine/cmd.cpp:687-842 | after every run from empty registries both lists are strictly increasing and no name, in any spelling, is both a command and a variable |
| Registry.RunKeepsConsistent | rehlds/engine/cmd.cpp:687-842 | every run of operations keeps that |
| Registry.AddedIsFound | rehlds/engine/cmd.cpp:766-791 | adding makes the new name known in every spelling, and no other name |
| Registry.OrderIrrelevant | rehlds/engine/cmd.cpp:707-731 | registrations of different names commute |
| Registry.SortedUnique | rehlds/engine/cmd.cpp:707-731 | a registry is determined by the entries in it |
| Registry.KeptPart | rehlds/engine/cmd.cpp:823-842 | removal by flag keeps the order |
| Registry.Kept | rehlds/engine/cmd.cpp:823-842 | removal by flag drops exactly the entries with the flag |
| Registry.HasSharesBit | rehlds/engine/cmd.cpp:831-831 | a flag of one bit is had if that bit is set |
| Registry.HasEither | rehlds/engine/cmd.cpp:831-831 | and a flag of several bits if one of them is |
| Registry.RemovedUnlessFirst | rehlds/engine/cmd.cpp:687-705 | exactly the named command goes, unless it is first in the list, when nothing changes and it stays known |
| Registry.OnlyCommandStays | rehlds/engine/cmd.cpp:810-821 | the only command of a list stays |
| Registry.FindAnySpelling | rehlds/engine/cvar.cpp:52-66 | all spellings of a name find the same entry |
| Registry.Registries.CmdExists | rehlds/engine/cmd.cpp:861-876 | tells whether a command of that name, in any spelling, is registered |
| Registry.Registries.FindVar | rehlds/engine/cvar.cpp:52-66 | returns the node of the variable of that name, in any spelling, or null if there is none |
| Registry.FindPrev | rehlds/engine/cmd.cpp:687-705 | the node before the named one, or null if there is none before it |
| Registry.InsertCommand | rehlds/engine/cmd.cpp:707-731 | relinking through the link before puts the node in front of the first bigger name |
| Registry.InsertVariable | rehlds/engine/cvar.cpp:391-411 | relinking behind a dummy head puts the node in front of the first bigger name |
| Registry.UnlinkFlagged | rehlds/engine/cvar.cpp:718-739 | the loop leaves a linked list of exactly the kept entries |
| Registry.Registries.AddMallocCommand | rehlds/engine/cmd.cpp:766-791 | the linked lists refine adding a command; a name that is taken in any spelling changes nothing |
| Registry.Registries.RegisterVariable | rehlds/engine/cvar.cpp:366-412 | the linked lists refine registering a variable; a name that is taken in any spelling changes nothing, even for a node already registered |
| Registry.Registries.RemoveCmd | rehlds/engine/cmd.cpp:810-821 | the linked lists refine removing a command |
| Registry.Registries.RemoveMallocedCmds | rehlds/engine/cmd.cpp:823-842 | the linked lists refine removing commands by flag: exactly those with a bit of the flag go, and no variable |
| Registry.Registries.UnlinkExternals | rehlds/engine/cvar.cpp:718-739 | exactly the variables with bit 3 of their flags set go |
| Registry.Registries.RemoveHudCvars | rehlds/engine/cvar.cpp:414-439 | exactly the variables with bit 4 of their flags set go |

## Left out

- Fatal errors are preconditions: a write that does not fit a buffer without permission to overflow.
- Allocation always succeeds, and freed memory is not tracked; console output and hooks are absent.
- Munge.Munge2: for a negative length the words that the switch changes are taken to be inside the buffer.
- Bit fields of width 0, and the one-bit write of the older writer.
- The writer's and reader's globals are fields of one object each, and so is every other group of file-level variables.
- BitCodecs.WriteSBits: excludes the smallest 32-bit integer at full width, whose magnitude is not defined.
- BitCodecs.WriteBitCoord: takes reals that convert to a 32-bit integer; IEEE rounding and the angle codecs are not modelled.
- BitCodecs.ReadBitCoord: values are reals, so single-precision rounding is not modelled.
- Crc32.ReadLump: reads are a given list of results, and running out of them counts as a failure of the file.
- Crc32.MapFile: only the lump loop; the file header and its version check are absent.
- Visibility.VisTables.CalcPAS: without the counters of its diagnostic line, and only for data whose expansion is long enough.
- Visibility.HeadnodeVisible: nodes are a finite tree whose leaves carry their number, in place of pointers into the leaf array.
- Visibility.VisTables.LeafPVS: returns the bytes that the result points at; that the on-demand form reuses one static buffer is not captured.
- CommandBuffer.CommandBuffer.ExecuteString: what a command does is a function of its line, with four effects on the buffer; variables, forwarding to a server and client filtering leave the buffer alone; the tokenizer is a parameter.
- CommandBuffer.CommandBuffer.Execute: over-long script files, which the exec command handles by itself, are not modelled; a text whose run has no end is outside the contract.
- ObjectDictionary.ObjectDictionary.Add: only fresh keys within capacity; growing, changing and removing keys leave remembered answers behind that need not be right, and are not modelled.
- ObjectDictionary.ObjectDictionary.AddToCache: the ring's counter is unbounded; its wrap-around after 2^31 lookups is not modelled.
- ObjectDictionary.ObjectDictionary.FindClosestAsIndex: keys are reals; one memory cell before the table is modelled, any further one is never read.
- ObjectList.ObjectList.Clear: that the listed objects may be freed as well is not modelled.
- CommandLine.CCommandLine.RemoveParm: the overlapping copy is taken to move the bytes as intended.
- CommandLine.CCommandLine.CheckParm: with a value of 128 characters or more the code also writes a terminator behind its static buffer, which is not modelled.
- CommandLine.CCommandLine.AppendParm: strings hold no terminator inside; loading parameters from files and the integer form of SetParm are absent.
- Registry.Registries.RegisterVariable: the copy of the value string and its conversion to a number are absent, as are the command functions.
- Registry.Registries.AddMallocCommand: the engine's own registration, which is the same with flags 0 before start-up is done, has no method of its own.
- The remaining consoles, network and Steam code, the delta encoder, and path and token helpers are outside this model.
