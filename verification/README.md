# Verification of vock

vock collects kernel coverage, replays syzkaller programs and reports the covered source lines. This
project models the parts of it that decode, lay out and look up data, as Dafny 4.11, and proves what
they compute. `dafny verify dfyconfig.toml` checks everything; there is no code to run.

Where the source works by changing things (a bit reader, an arena, a decoder, a corpus, a report), the
model is a class or a method with loops, and its `ensures` ties it to a specification function; the
theorems are about those functions. Where the source is an expression or a recursion, so is the model.

| modules | what they model |
|---|---|
| `BitReaders`, `Huffman`, `Deflate`, `Inflate` | the DEFLATE decoder of `fuzz/inflate.rs` and the format it reads |
| `DeflateEncode`, `DeflateRoundTrip` | an encoder for stored, fixed and dynamic blocks (RFC 1951), the partner of the decoder |
| `DeflateTables` | the tables of the format by rule, the fixed codes by value and a stream by its bytes |
| `PtScan`, `PtDecode` | the Intel PT packet scanner and the two decoders of `mode/engine.rs`, without kernel text |
| `PtPackets` | the packets of the Intel SDM as they are written, the partner of the scanner |
| `PtConverse` | what the scanner accepts and refuses, told by those packets alone |
| `SyzText`, `SyzRoundTrip`, `SyzParser` | the syzkaller argument grammar, its printer and the cursor parser of `fuzz/prog_decode.rs` |
| `SyzSpellings` | the spellings the printer does not use: sizes, radices, escapes, blanks and how deep text may nest |
| `SyzLayout`, `SyzFields`, `Checksum` | images, lengths, copyouts and Internet checksums of argument trees, and where their fields really are |
| `SyzArena`, `SyzCopyin`, `SyzPlacement`, `SyzNoteFixed` | the arena, its allocator, placement and copy-in |
| `SyzBytes`, `SyzImages` | the bytes of an image and the room it takes, told without encoding or measuring it |
| `RunBytes`, `RunCarry`, `RunContexts` | where each byte a call is given comes from, which values change it, and what the resource slots hold during a run |
| `RunOverlap`, `RunPrograms`, `RunProg` | the overlapped call loop of `fuzz/prog_exec.rs` against the run that waits for every call |
| `SignalCorpus`, `SignalHash` | the edge-signal corpus of `fuzz/signal_edge.rs`, its minimisation and its hash |
| `DwarfTree`, `DwarfWalk`, `DwarfFind`, `DwarfNested`, `DwarfNames` | the function table of `dwarf/unit.rs` |
| `LineTable`, `LineWriter` | the line-program machine, sort and search of `dwarf/line.rs`, and a writer of programs, its partner |
| `LogReader`, `LogLines`, `SourceCoverage` | the block reader, line parser and memoising loop of `report/mod.rs` |

## Properties that turned out false

The lemma named first gives the input that shows it; beside it stands the condition under which the code does meet
the property, and it is exact.

- The Intel SDM starts the last IP over at every PSB; the decoders keep theirs, so a user address compressed after a PSB
  can come out as a kernel address (`PsbKeepsLastIp`). A stream as the processor writes it is recovered if and only if
  every compressed pointer leaves out bytes that the pointer sent before it had as well, PSB or not (`StreamReadBack`), as
  it does when the first pointer after each PSB is written in full (`RearmedAgrees`).
- The scanner takes the two bytes a PSB starts with for all sixteen, and a long TNT without a stop bit for a packet
  (`LibertiesTaken`). It refuses exactly the bytes that begin with no packet and begin none, if and only if they do not
  look like a PSB without agreeing with one and are no long TNT without a stop bit (`RefusesExact`).
- A checksum field at an odd offset does not check (`OddFieldFails`); it does exactly when the cleared buffer
  sums to a multiple of 257 (`PatchedChecks`).
- A label behind another one in a labelled field is recorded past the field (`NestedLabelMisplaced`). Every entry is
  its own field's place if and only if inside labelled fields only empty values come before a label (`CopyoutsExact`).
- A checksum behind an integer in a labelled field is cut away, and the sum lands on a neighbour
  (`LabelledCsumMisplaced`, `NeighbourOverwritten`). The search finds the field's own place if and only if it is not more
  than two bytes into a labelled field (`CsumOffsetExact`).
- Overlapped calls show when one of them fills a label a later call reads (`LabelledOverlapShows`), although the source
  looks at the call's own result before overlapping it. Compared are each call's scalars and the arena after its clipped
  writes. No return values and no arenas can tell the runs apart if and only if no byte a call is given is told
  (`OverlapExact`). A byte of a reference is told exactly when its slot is watched, the last call to fill it being an
  overlapped one, and the addition carries into the byte for what the slot can hold (`TellsExact`): four bytes where a
  label filled it, any number where a result did, nothing where no call did. A label filled again by a call that is waited
  for (`RefilledIsQuiet`), one outside the arena (`OutsideIsQuiet`) and a reference clipped away (`ClippedIsQuiet`) do not
  show. A clipped reference can still show in its object's checksum (`ClippedShowsInSum`); a byte of a checksum is told
  when the earlier calls can leave slots that give it two values, which takes a told byte among those summed
  (`SumNeedsByte`).
- A pointer to an explicit nil comes back as a pointer without a target (`NilPointeeLost`). A tree reads back if and only
  if it has none (`ReadsBackExactly`).
- `minimize` can keep a redundant program once a sixteen-bit count saturates (`SaturationKeepsRedundant`), which takes
  as many programs as there are edges, all owning one of them (`SaturatesOnlyFull`). Every survivor is needed if and only
  if not both a count saturated and some program owns every edge (`Minimize`, `SweepExact`).
- `walk` has one slot for the current function, so a nested function hides the inlined calls after it
  (`NestedFunctionHides`); the table is complete exactly for trees where no inlined call follows a nested function
  (`WalkExact`).
- `find` looks back four spans and can miss the function around them (`LookBackMisses`); it finds the last span holding
  the address exactly when at most three later spans start by then (`LookBackExact`).
- The comment in `spawn_reader` says a log cut inside a line is still delivered. The waiting bytes have by then moved
  into the block that is dropped, so it is not (`UnterminatedIsLost`), and an interrupted read loses them too
  (`InterruptedIsLost`). However the reads go, streaming yields the addresses of what is kept, each file without the bytes
  after the last line end before every interruption and before the end of reading (`StreamedIsKept`). When nothing is
  waiting at an interruption and no read fails, that equals reading whole exactly when no file has an address after its
  last line end (`StreamedIsReadAll`).

## Model

| member | source | states |
|---|---|---|
| `BitReaders.BitReader.Bits` | vock/src/fuzz/inflate.rs:64-78 | delivers the next n bits of the abstract stream LSB first, fails exactly when fewer are left, keeps fewer than eight buffered |
| `BitReaders.BitReader.AlignByte` | vock/src/fuzz/inflate.rs:79-83 | drops exactly the rest of a partly read byte |
| `BitReaders.LsbAppend` | vock/src/fuzz/inflate.rs:64-72 | a byte shifted in above the buffered bits comes after them |
| `BitReaders.LsbSplit` | vock/src/fuzz/inflate.rs:73-77 | masking takes the first bits of the buffer and shifting leaves the others |
| `Huffman.NewTable` | vock/src/fuzz/inflate.rs:95-117 | counts and symbol runs of the table are those of the length vector |
| `Huffman.Decode` | vock/src/fuzz/inflate.rs:120-136 | the symbol whose canonical code is a prefix of the input, consuming exactly its length; none exactly when no code is |
| `Huffman.MatchUnique` | vock/src/fuzz/inflate.rs:120-136 | for any length vector, even over-subscribed, at most one symbol's code is a prefix of the input |
| `Huffman.CodeFits` | vock/src/fuzz/inflate.rs:95-136 | under Kraft every canonical code fits its length |
| `Huffman.CodeMatches` | vock/src/fuzz/inflate.rs:120-136 | under Kraft a symbol's own code followed by any bits selects that symbol |
| `Huffman.SlotInjective` | vock/src/fuzz/inflate.rs:106-116 | no two symbols share a place in the table |
| `Huffman.IndexBound` | vock/src/fuzz/inflate.rs:106-116 | all runs fit the symbol table |
| `Huffman.RepresentsUnique` | vock/src/fuzz/inflate.rs:95-117 | a length vector has one table, up to the unused tail |
| `Deflate.PeriodicRepeats` | vock/src/fuzz/inflate.rs:197-201 | every copied byte equals the byte one distance before it, overlapping copies included |
| `Inflate.CopyBack` | vock/src/fuzz/inflate.rs:197-201 | the byte-by-byte copy writes the periodic extension |
| `Inflate.InflateBlock` | vock/src/fuzz/inflate.rs:169-206 | agrees with the reference reader on every input, refusals included |
| `Inflate.InflateMatch` | vock/src/fuzz/inflate.rs:186-202 | one match with its extra bits, limits and distance checks, for any tables |
| `Inflate.InflateStored` | vock/src/fuzz/inflate.rs:217-228 | stored blocks as the reference reads them |
| `Inflate.ReadCodeLengths` | vock/src/fuzz/inflate.rs:245-278 | the run-length coded lengths, with repeats before the first length and past the end refused |
| `Inflate.InflateDynamic` | vock/src/fuzz/inflate.rs:234-282 | dynamic headers and their blocks as the reference reads them |
| `Inflate.FixedTrees` | vock/src/fuzz/inflate.rs:155-167 | the fixed alphabets of section 3.2.6 of RFC 1951 |
| `Inflate.InflateStream` | vock/src/fuzz/inflate.rs:210-289 | on every byte string and limit: terminates, agrees with the reference reader, never exceeds the limit |
| `DeflateEncode.TokensReadBack` | vock/src/fuzz/inflate.rs:169-206 | under any Kraft alphabets, the code of a token list reads back as its LZ77 expansion, whatever follows |
| `DeflateEncode.OpsReadBack` | vock/src/fuzz/inflate.rs:245-278 | run-length coded code lengths read back |
| `DeflateRoundTrip.FixedKraft` | vock/src/fuzz/inflate.rs:155-167 | the fixed alphabets satisfy Kraft |
| `DeflateRoundTrip.HeaderReadBack` | vock/src/fuzz/inflate.rs:234-282 | any dynamic header reads back as its two alphabets |
| `DeflateRoundTrip.BlocksReadBack` | vock/src/fuzz/inflate.rs:210-289 | any list of stored, fixed and dynamic blocks reads back as its expansion, at any bit offset |
| `DeflateRoundTrip.RoundTrip` | vock/src/fuzz/inflate.rs:210-289 | packed into bytes and followed by any trailer, any block list within the limit reads back as the bytes it stands for |
| `DeflateTables.LengthTable` | vock/src/fuzz/inflate.rs:138-144 | each length symbol starts where the one before it ends, from 3 to 258, with extra bits by rule; 258 is also a symbol of its own |
| `DeflateTables.LengthUnique` | vock/src/fuzz/inflate.rs:138-144 | below the last symbol, a length is spelled by one symbol and one value of its extra bits |
| `DeflateTables.DistanceTable` | vock/src/fuzz/inflate.rs:145-152 | each distance symbol starts where the one before it ends, from 1 to 32768, with extra bits by rule |
| `DeflateTables.DistanceUnique` | vock/src/fuzz/inflate.rs:145-152 | a distance is spelled by one symbol and one value of its extra bits |
| `DeflateTables.OrderRule` | vock/src/fuzz/inflate.rs:237-243 | code length lengths come as the three repeats, zero, then outwards from eight |
| `DeflateTables.FixedCode` | vock/src/fuzz/inflate.rs:155-167 | the bits of every fixed literal and length code, by value (section 3.2.6 of RFC 1951) |
| `DeflateTables.FixedDistanceCode` | vock/src/fuzz/inflate.rs:165-166 | the fixed distance codes are the symbols in five bits |
| `DeflateTables.SampleReads` | vock/src/fuzz/inflate.rs:210-289 | six bytes of a fixed block with an overlapping match, and the fourteen bytes they decode to |
| `PtScan.ScanPrefix` | vock/src/mode/engine.rs:777-918 | cutting the buffer can only turn a packet into a truncated one |
| `PtScan.FindPsbPrefix` | vock/src/mode/engine.rs:922-928 | a PSB found in a prefix is the one found in the whole buffer |
| `PtScan.FindPsbShift` | vock/src/mode/engine.rs:922-928 | searching a suffix is searching the whole, shifted |
| `PtDecode.DecodePrefix` | vock/src/mode/engine.rs:970-1044 | decoding any prefix of a trace reports a prefix of what the whole trace reports, with counters no higher |
| `PtDecode.ResyncIsFresh` | vock/src/mode/engine.rs:970-1044 | after an undecodable byte, decoding goes on as a fresh decode from the next PSB |
| `PtDecode.ReadLe` | vock/src/mode/engine.rs:1104-1119 | the byte loop assembles the little-endian payload |
| `PtDecode.TipOnlyDecode` | vock/src/mode/engine.rs:970-1044 | PC list, count and health counters of the reference decoding |
| `PtConverse.PcsAreKernel` | vock/src/mode/engine.rs:1001-1005 | the addresses reported are, in order, the instruction pointers whose top sixteen bits are set |
| `PtDecode.FaultsSplit` | vock/src/mode/engine.rs:1212-1218 | `run` counts more bad packets than the tip-only path by exactly the long TNT packets without a stop bit |
| `PtDecode.WindowOfPayload` | vock/src/mode/engine.rs:1219-1222 | masking the stop bit leaves exactly the packet's outcomes, oldest first |
| `PtDecode.PtDecoder.ReadIp` | vock/src/mode/engine.rs:1104-1134 | bytes consumed and last-IP update for every encoding, -1 past the end |
| `PtDecode.PtDecoder.LoadTnt` | vock/src/mode/engine.rs:1212-1226 | the held window becomes the packet's outcomes; a payload without stop bit counts as bad |
| `PtDecode.PtDecoder.Act` | vock/src/mode/engine.rs:1250-1310 | one accepted packet: the cursor lands on the scanned length, IP, block and window as the reference says |
| `PtDecode.PtDecoder.Run` | vock/src/mode/engine.rs:1242-1341 | on every byte stream, exactly the PC list and count of the tip-only decode, and every TNT window |
| `PtPackets.ScanReadBack` | vock/src/mode/engine.rs:777-918 | scanning any well-formed packet recovers its kind and exact length, whatever follows |
| `PtConverse.Accepted` | vock/src/mode/engine.rs:777-918 | whatever the scanner accepts, its two liberties aside, is byte for byte a packet that may stand there, of that kind and length |
| `PtConverse.TruncatedBegins` | vock/src/mode/engine.rs:777-918 | what it calls truncated is the proper beginning of such a packet |
| `PtConverse.BadExact` | vock/src/mode/engine.rs:777-918 | it refuses a byte string if and only if no packet begins it or is begun by it, and it starts neither like a PSB nor as a long TNT without stop bit |
| `PtConverse.RefusesExact` | vock/src/mode/engine.rs:777-918 | refusing is the same as being no packet if and only if the bytes are no false PSB and no long TNT without stop bit |
| `PtConverse.LibertiesTaken` | vock/src/mode/engine.rs:797-808 | one byte string of each kind that scans as a packet and is none |
| `PtConverse.FiveIsLost` | vock/src/mode/engine.rs:917-917 | a byte that starts no packet is refused in every scope, and the trace behind it is lost up to a PSB |
| `PtConverse.PsbIs` | vock/src/mode/engine.rs:922-928 | the pattern searched for is the two-byte opcode eight times |
| `PtPackets.RebuiltExact` | vock/src/mode/engine.rs:1104-1134 | under every compression choice the IP is rebuilt if and only if receiver and writer hold the same upper bytes |
| `PtPackets.TntRoundTrip` | vock/src/mode/engine.rs:1212-1226 | outcomes written as a TNT payload read back in order |
| `PtPackets.PacketReadBack` | vock/src/mode/engine.rs:1242-1341 | one packet: what a decoder with any last IP sees and the state it is left in |
| `PtPackets.StreamDecodes` | vock/src/mode/engine.rs:777-1044 | the bytes of any stream the processor may write, decoded from any last IP: boundaries, pointers as rebuilt, outcomes |
| `PtPackets.StreamReadBack` | vock/src/mode/engine.rs:777-1044 | a stream whose last IP starts over at each PSB decodes to exactly its packets, pointers and outcomes if and only if every compressed pointer leaves out bytes the pointer sent before it had as well |
| `PtPackets.RearmedAgrees` | vock/src/mode/engine.rs:1242-1341 | so it is when the first pointer after each PSB is written in full |
| `PtPackets.PsbKeepsLastIp` | vock/src/mode/engine.rs:1242-1341 | a user address after a PSB decoded as a kernel address |
| `Checksum.Fold` | vock/src/fuzz/prog_decode.rs:795-814 | end-around carries compute the one's-complement value |
| `Checksum.CsumInet` | vock/src/fuzz/prog_decode.rs:795-814 | folding inside the loop gives the complement of the unbounded one's-complement sum, for buffers of any length |
| `Checksum.PatchCsum` | vock/src/fuzz/prog_decode.rs:965-974 | the field is cleared, summed over and stored in place |
| `Checksum.PatchedChecks` | vock/src/fuzz/prog_decode.rs:965-974 | afterwards the buffer checks if and only if the field is at an even offset or the cleared buffer sums to a multiple of 257 |
| `Checksum.OddFieldFails` | vock/src/fuzz/prog_decode.rs:965-974 | an odd field that does not check |
| `SyzLayout.EncodeLength` | vock/src/fuzz/prog_decode.rs:863-901 | predicted and produced lengths agree for every tree, context and width |
| `SyzLayout.EncodeLeaves` | vock/src/fuzz/prog_decode.rs:863-888 | an image is the concatenation of its leaves' images |
| `SyzBytes.ImageExact` | vock/src/fuzz/prog_decode.rs:863-888 | exactly one byte string is the image of a tree as described leaf by leaf, with numbers, quotients and addresses by value, and it is the one made |
| `SyzBytes.LeafContents` | vock/src/fuzz/prog_decode.rs:863-901 | each leaf stands at its own place in the image, as described |
| `SyzFields.FieldBytes` | vock/src/fuzz/prog_decode.rs:863-888 | the image holds a labelled field's own bytes at its place, unless a label around it cuts it off |
| `SyzFields.CopyoutsExact` | vock/src/fuzz/prog_decode.rs:905-921 | every recorded read-back is its own field's place, whole in the image, if and only if inside labelled fields only empty values come before a label |
| `SyzFields.CopyoutBytes` | vock/src/fuzz/prog_decode.rs:905-921 | and then the image holds that field's four bytes there, for every context |
| `SyzLayout.CopyoutPlaces` | vock/src/fuzz/prog_decode.rs:905-921 | each entry is the place of its field's four bytes in the image; entries are in order and disjoint |
| `SyzFields.NestedLabelMisplaced` | vock/src/fuzz/prog_decode.rs:905-921 | a label behind another one, recorded past its field |
| `SyzFields.CsumOffsetExact` | vock/src/fuzz/prog_decode.rs:976-992 | finds a field exactly when there is one, and its own place in the image if and only if it is at most two bytes into a labelled field |
| `SyzFields.CsumBytes` | vock/src/fuzz/prog_decode.rs:863-888 | the checksum field's two bytes are clear in the image |
| `SyzFields.LabelledCsumMisplaced` | vock/src/fuzz/prog_decode.rs:976-992 | a checksum cut off by its label, searched on a neighbour |
| `SyzFields.NeighbourOverwritten` | vock/src/fuzz/prog_decode.rs:965-974 | where the sum then overwrites the neighbouring integer |
| `SyzLayout.FixCsums` | vock/src/fuzz/prog_decode.rs:965-992 | patches the image in place, or leaves it alone when there is no room |
| `SyzFields.FixedImageChecks` | vock/src/fuzz/prog_decode.rs:965-992 | for any tree with a checksum field: without room nothing happens, otherwise the fixed image checks if and only if the place found is even or the cleared image sums to a multiple of 257 |
| `SyzArena.Arena.NoteAlloc` | vock/src/fuzz/prog_decode.rs:710-719 | marks exactly the granules of an object inside the arena, and nothing for any other |
| `SyzArena.Arena.Alloc` | vock/src/fuzz/prog_decode.rs:722-742 | for every bitmap and size the skipping search returns the lowest free run when one exists and marks exactly the object; otherwise zero and no mark |
| `SyzArena.Arena.Write` | vock/src/fuzz/prog_decode.rs:751-762 | copies the image clipped at the next recorded address, nothing if that leaves the arena |
| `SyzArena.Arena.ReadScalar` | vock/src/fuzz/prog_decode.rs:765-775 | one to eight bytes as a little-endian number, nothing from outside the arena |
| `SyzBytes.ScalarReadBack` | vock/src/fuzz/prog_decode.rs:765-775 | a number stored in one to eight bytes, anywhere in the arena, is read back as far as they hold it |
| `SyzBytes.ScalarSizes` | vock/src/fuzz/prog_decode.rs:765-766 | a size of nothing reads one byte, and a large one eight |
| `SyzArena.Arena.SetFixed` | vock/src/fuzz/prog_decode.rs:778-782 | the recorded addresses, ascending, each once |
| `SyzArena.NextAboveLeast` | vock/src/fuzz/prog_decode.rs:751-762 | the clipping address is the least one above |
| `SyzBytes.ClipExact` | vock/src/fuzz/prog_decode.rs:751-762 | a write keeps as much as fits before the next recorded address, and no less |
| `SyzCopyin.NeverOverlap` | vock/src/fuzz/prog_decode.rs:751-762 | writes to distinct recorded addresses never overlap, whatever their widths |
| `SyzCopyin.OrderIrrelevant` | vock/src/fuzz/prog_decode.rs:925-960 | laying objects out in any order gives the same arena |
| `SyzCopyin.ObjectHolds` | vock/src/fuzz/prog_decode.rs:925-960 | every object that fits holds its image up to the next address |
| `SyzCopyin.CopyIn` | vock/src/fuzz/prog_decode.rs:925-945 | returns the scalar and writes exactly the argument's objects |
| `SyzBytes.ScalarIs` | vock/src/fuzz/prog_decode.rs:927-947 | the scalar a call gets: a number, a reference divided and then added to, an address 0x200000000000 above the offset, or zero |
| `SyzBytes.DataArrives` | vock/src/fuzz/prog_decode.rs:751-762 | a literal that fits arrives in the arena as its own bytes, and nothing else changes |
| `SyzBytes.ObjectArrives` | vock/src/fuzz/prog_decode.rs:925-947 | the object pointed to arrives over everything nested in it, as its image with its checksum |
| `SyzCopyin.LayOutNested` | vock/src/fuzz/prog_decode.rs:947-960 | writes exactly the objects behind nested pointers |
| `SyzPlacement.AssignLeavesNoAuto` | vock/src/fuzz/prog_decode.rs:1027-1049 | no AUTO address remains |
| `SyzPlacement.AssignApart` | vock/src/fuzz/prog_decode.rs:1027-1049 | placement takes slots apart from everything in use and marks exactly them |
| `SyzPlacement.AutoDisjoint` | vock/src/fuzz/prog_decode.rs:996-1056 | in a program that fits, any two AUTO objects are disjoint |
| `SyzPlacement.AutoAvoidsFixed` | vock/src/fuzz/prog_decode.rs:996-1056 | AUTO objects avoid every textually addressed object with contents inside the arena |
| `SyzImages.AutoImagesApart` | vock/src/fuzz/prog_decode.rs:996-1056 | in a program that fits, the bytes of any two AUTO objects share no place and stay inside the arena, in every context |
| `SyzImages.AutoImagesAvoidText` | vock/src/fuzz/prog_decode.rs:996-1056 | nor do they share one with the bytes of a textually addressed object in the arena |
| `SyzImages.PlacedLowest` | vock/src/fuzz/prog_decode.rs:722-742 | an object gets the lowest granule where it fits, and zero if there is none |
| `SyzImages.TwoLiterals` | vock/src/fuzz/prog_decode.rs:1027-1049 | two literals of 65 bytes come to stand at 0 and 128 |
| `SyzPlacement.SettledIsFixpoint` | vock/src/fuzz/prog_decode.rs:996-1056 | a second reset-and-note pass leaves the program unchanged |
| `SyzNoteFixed.Note` | vock/src/fuzz/prog_decode.rs:1001-1023 | reserves every object with contents and records its address |
| `SyzNoteFixed.AssignArg` | vock/src/fuzz/prog_decode.rs:1027-1049 | gives every AUTO pointer its first-fit slot and records those with contents |
| `SyzNoteFixed.NoteFixed` | vock/src/fuzz/prog_decode.rs:996-1056 | places the program and records, ascending, exactly the addresses of placed objects with contents, beside the AUTO marker when one had contents |
| `SyzNoteFixed.SettledRecorded` | vock/src/fuzz/prog_decode.rs:996-1056 | every object any argument later lays out is at a recorded address |
| `SyzNoteFixed.SettledAnyOrder` | vock/src/fuzz/prog_decode.rs:925-1056 | after placement the objects can be laid out in any order; each holds its clipped image |
| `RunBytes.ImageComes` | vock/src/fuzz/prog_decode.rs:863-888 | each byte of an image is a byte of one resolved reference or the same in every context |
| `RunBytes.ObjectByteExact` | vock/src/fuzz/prog_decode.rs:925-974 | a byte of a laid-out object changes with the context exactly as its origin does, checksum bytes with the sum |
| `RunBytes.ObjectsLaid` | vock/src/fuzz/prog_decode.rs:927-960 | what an argument lays out is its sites in order, filled in |
| `RunBytes.ArenaByteExact` | vock/src/fuzz/prog_decode.rs:751-762 | after clipped writes over one another, an arena byte changes exactly as the origin of the last object to reach it |
| `RunBytes.ScalarExact` | vock/src/fuzz/prog_decode.rs:927-947 | a scalar is the same in two contexts if and only if the origins of its eight bytes are |
| `RunCarry.TellsExact` | vock/src/fuzz/prog_decode.rs:841-849 | two values that slots of given kinds can hold differ in a byte of a reference if and only if the largest quotient carries into it, or a missing slot reads otherwise |
| `RunContexts.GivenExact` | vock/src/fuzz/prog_decode.rs:1068-1080 | two contexts give a call the same scalars and the same arena if and only if all its data agree |
| `RunPrograms.ScalarsReceived` | vock/src/fuzz/prog_decode.rs:1058-1080 | a system call gets the scalars of its first six arguments, a pseudo-call those of its first nine, in order |
| `RunPrograms.TenthIgnored` | vock/src/fuzz/prog_decode.rs:1068-1080 | nine arguments are laid out, and what a tenth says changes nothing |
| `RunContexts.AfterAt` | vock/src/fuzz/prog_exec.rs:474-483 | after a call a slot holds its last readable label's bytes, else its result, else what it held |
| `RunContexts.ContextIs` | vock/src/fuzz/prog_exec.rs:418-485 | in any run a slot holds what the last call waited for that fills it left there |
| `RunContexts.KindHolds` | vock/src/fuzz/prog_exec.rs:474-483 | and no more than four bytes if that was a label |
| `RunOverlap.PossibleReached` | vock/src/fuzz/prog_exec.rs:418-485 | contexts the earlier calls can account for are reached in both runs under one kernel |
| `RunOverlap.OverlapInvisible` | vock/src/fuzz/prog_exec.rs:371-502 | for every return value and every arena left, the overlapped run of a quiet program gives every call what the waiting run gives it |
| `RunOverlap.ToldShows` | vock/src/fuzz/prog_exec.rs:418-502 | every byte that is told differs between the two runs under some kernel |
| `RunOverlap.OverlapExact` | vock/src/fuzz/prog_exec.rs:371-502 | no kernel can tell the two runs apart if and only if no byte any call is given is told |
| `RunOverlap.SumNeedsByte` | vock/src/fuzz/prog_decode.rs:962-974 | a checksum is told only if one of the bytes it sums is |
| `RunOverlap.UnwatchedIsQuiet` | vock/src/fuzz/prog_exec.rs:371-387 | programs that refer to no watched slot are quiet |
| `RunPrograms.OverlapRules` | vock/src/fuzz/prog_exec.rs:425-431 | which calls overlap, by option, position, kind and later use of the result |
| `RunPrograms.ReferencesExact` | vock/src/fuzz/prog_exec.rs:377-387 | an argument refers to a slot if and only if putting another slot in its place makes a difference |
| `RunPrograms.LabelFreeIsQuiet` | vock/src/fuzz/prog_exec.rs:371-387 | programs without labels are quiet whatever the options |
| `RunPrograms.LabelledOverlapShows` | vock/src/fuzz/prog_exec.rs:371-387 | a labelled program whose overlap shows |
| `RunPrograms.RefilledIsQuiet` | vock/src/fuzz/prog_exec.rs:479-483 | a label filled again by a waiting call does not show |
| `RunPrograms.OutsideIsQuiet` | vock/src/fuzz/prog_decode.rs:765-769 | a label outside the arena never does |
| `RunPrograms.ClippedIsQuiet` | vock/src/fuzz/prog_decode.rs:751-762 | nor does a reference the next object clips away |
| `RunPrograms.ClippedShowsInSum` | vock/src/fuzz/prog_decode.rs:962-974 | unless its object has a checksum that is not clipped |
| `RunProg.PrepareArgs` | vock/src/fuzz/prog_decode.rs:1068-1080 | scalars, clipped writes and copyouts of a call |
| `RunProg.CopyOut` | vock/src/fuzz/prog_exec.rs:479-483 | labels are read back in order, the last readable one on a slot deciding |
| `RunProg.Run` | vock/src/fuzz/prog_exec.rs:397-502 | calls are given what the trace says, for a quiet program what the waiting run gives, and every call ends finished with its own result |
| `RunProg.Join` | vock/src/fuzz/prog_exec.rs:491-502 | every placeholder gets its own thread's result |
| `SyzRoundTrip.ResReadBack` | vock/src/fuzz/prog_decode.rs:376-399 | `rN/div+add` reads back |
| `SyzRoundTrip.HexReadBack` | vock/src/fuzz/prog_decode.rs:418-434 | hexadecimal integers read back |
| `SyzRoundTrip.AddrReadBack` | vock/src/fuzz/prog_decode.rs:297-324 | pointer addresses read back from their rebased text |
| `SyzRoundTrip.DataReadBack` | vock/src/fuzz/prog_decode.rs:230-284 | hex data literals read back |
| `SyzRoundTrip.ArgReadBack` | vock/src/fuzz/prog_decode.rs:187-399 | the text of any tree nested at most MAX_DEPTH parses, whatever follows, to the tree with nil pointees taken for missing targets |
| `SyzRoundTrip.ReadsBackExactly` | vock/src/fuzz/prog_decode.rs:187-399 | so a tree reads back if and only if no pointer in it points to an explicit nil |
| `SyzRoundTrip.ListReadBack` | vock/src/fuzz/prog_decode.rs:187-212 | argument lists read back under every closing character |
| `SyzRoundTrip.CallArgsReadBack` | vock/src/fuzz/prog_decode.rs:187-399 | a call's whole argument list, printed and parsed, is the list on the same condition |
| `SyzRoundTrip.NilPointeeLost` | vock/src/fuzz/prog_decode.rs:297-324 | a pointer to an explicit nil parses to a pointer without a target |
| `SyzSpellings.SizedAddress` | vock/src/fuzz/prog_decode.rs:303-309 | an address is 0x7f0000000000 below its text, and a size after it is ignored |
| `SyzSpellings.SizedData` | vock/src/fuzz/prog_decode.rs:286-294 | a buffer size after a literal is ignored |
| `SyzSpellings.OctalReadBack` | vock/src/fuzz/prog_decode.rs:429-432 | a leading zero and octal digits read back |
| `SyzSpellings.DecimalReadBack` | vock/src/fuzz/prog_decode.rs:433-433 | decimal numbers read back |
| `SyzSpellings.PlusReadBack` | vock/src/fuzz/prog_decode.rs:433-433 | so they do behind a plus sign |
| `SyzSpellings.NegativeReadBack` | vock/src/fuzz/prog_decode.rs:426-428 | a minus sign gives the two's complement, and nothing from the least 64-bit integer on |
| `SyzSpellings.CapitalReadBack` | vock/src/fuzz/prog_decode.rs:423-425 | a capital X marks hexadecimal digits too |
| `SyzSpellings.PaddedNumber` | vock/src/fuzz/prog_decode.rs:418-422 | blanks around a number do not matter |
| `SyzSpellings.QuotedReadBack` | vock/src/fuzz/prog_decode.rs:265-271 | a single-quoted literal reads back as its bytes, however each was escaped |
| `SyzSpellings.EscapesReadBack` | vock/src/fuzz/prog_decode.rs:457-498 | so does any mixture of plain, named, hexadecimal and slashed bytes |
| `SyzSpellings.TextLiteral` | vock/src/fuzz/prog_decode.rs:438-455 | behind a dollar sign a packed blob; text that is not whole hexadecimal bytes stands for its characters |
| `SyzSpellings.WordEnds` | vock/src/fuzz/prog_decode.rs:414-416 | a bare word ends at exactly eight characters |
| `SyzSpellings.CsumWord` | vock/src/fuzz/prog_decode.rs:361-363 | any word that starts with csum asks for a checksum |
| `SyzSpellings.AnyPointee` | vock/src/fuzz/prog_decode.rs:310-315 | ANY= before a pointee changes nothing |
| `SyzSpellings.DepthCap` | vock/src/fuzz/prog_decode.rs:214-228 | sixty-four arguments may nest, and no more |
| `SyzParser.Parser.Arg` | vock/src/fuzz/prog_decode.rs:214-228 | on arbitrary text: terminates, agrees with the grammar, restores the depth counter, skips what is too deep |
| `SyzParser.Parser.ArgInner` | vock/src/fuzz/prog_decode.rs:230-284 | every form of argument as the grammar reads it |
| `SyzParser.Parser.Ptr` | vock/src/fuzz/prog_decode.rs:297-324 | pointers, with or without target |
| `SyzParser.Parser.Until` | vock/src/fuzz/prog_decode.rs:326-341 | the body before the closing character, escapes skipped |
| `SyzParser.Parser.Word` | vock/src/fuzz/prog_decode.rs:344-372 | bare words |
| `SyzParser.Parser.List` | vock/src/fuzz/prog_decode.rs:187-212 | the list loop terminates on any text, making progress where an argument makes none |
| `SignalCorpus.EdgeSignalFromPcs` | vock/src/fuzz/signal_edge.rs:48-64 | every edge of the trace once, ascending |
| `SignalHash.MixedBack` | vock/src/fuzz/signal_edge.rs:36-44 | the mixing of 64-bit words has an inverse, given step by step |
| `SignalHash.MixedInjective` | vock/src/fuzz/signal_edge.rs:36-44 | two edges mix to the same word if and only if their ends differ in the same bits |
| `SignalHash.FirstBucket` | vock/src/fuzz/signal_edge.rs:36-44 | one word and one bucket by number |
| `SignalCorpus.Corpus.NewCount` | vock/src/fuzz/signal_edge.rs:86-94 | how many edges no kept program owns |
| `SignalCorpus.Corpus.Add` | vock/src/fuzz/signal_edge.rs:98-118 | accepts exactly signals with an uncovered edge; new total, new map, nothing changed otherwise |
| `SignalCorpus.Corpus.Minimize` | vock/src/fuzz/signal_edge.rs:122-165 | drops programs only, keeps every covered edge covered; each survivor covers an edge alone if and only if the corpus was not crowded, and the recomputed unique counts are right if no count saturated, and if and only if not both a count saturated and the sweep of the old entries comes down to two |
| `SignalCorpus.SweepExact` | vock/src/fuzz/signal_edge.rs:126-153 | from any staggered corpus the sweep leaves a redundant program if and only if a count saturated and one program owns every edge, and then exactly two are left |
| `SignalCorpus.SweepLacking` | vock/src/fuzz/signal_edge.rs:135-153 | counts one short mislead the sweep only when two programs are left |
| `SignalCorpus.OwnerIsLast` | vock/src/fuzz/signal_edge.rs:98-118 | where each program added an edge, one that owns all came last and owns one alone |
| `SignalCorpus.SaturatesOnlyFull` | vock/src/fuzz/signal_edge.rs:126-133 | in a valid corpus a count saturates if and only if there are 65536 programs and all own that edge |
| `SignalCorpus.OwnersSwapRemove` | vock/src/fuzz/signal_edge.rs:143-149 | removal by swapping lowers exactly the removed program's edge counts |
| `SignalCorpus.SwapRemoveAt` | vock/src/fuzz/signal_edge.rs:143-149 | the last entry takes the place of the removed one, and the others stay |
| `SignalCorpus.SweepKeepsCoverage` | vock/src/fuzz/signal_edge.rs:126-153 | no edge is lost and no count goes below zero, however the counts saturate |
| `SignalCorpus.SweepIrredundant` | vock/src/fuzz/signal_edge.rs:135-153 | with exact counts, every survivor owns an edge no other has |
| `SignalCorpus.SaturationKeepsRedundant` | vock/src/fuzz/signal_edge.rs:126-153 | 65536 programs, each with a new edge, after which a redundant one survives |
| `SignalCorpus.Replay` | vock/src/fuzz/signal_edge.rs:48-165 | after any run of offers and minimisations the corpus covers exactly the edges of all traces offered, the total is their number, and the size never exceeds it |
| `DwarfTree.KeptIsPrefix` | vock/src/dwarf/unit.rs:318-353 | what a single current-function slot keeps is a prefix of the inlined calls, all of them if and only if none follows a nested function |
| `DwarfTree.KeptFuncsExact` | vock/src/dwarf/unit.rs:241-375 | so it is for all functions of a tree at once, if and only if the tree is tidy |
| `DwarfWalk.PassDie` | vock/src/dwarf/unit.rs:254-372 | passing over a flattened subtree restores depth, scopes and inlined stack and only grows the tables |
| `DwarfWalk.WalkOfTree` | vock/src/dwarf/unit.rs:241-375 | for any flattened tree and any trailing bytes: every function with code, every qualified name, and the inlined calls kept, with their depths |
| `DwarfWalk.WalkExact` | vock/src/dwarf/unit.rs:241-375 | the table is complete if and only if no function has an inlined call after a nested one |
| `DwarfWalk.Qualified` | vock/src/dwarf/unit.rs:299-317 | scoped names and origin, specification or missing names |
| `DwarfNames.NameOrder` | vock/src/dwarf/unit.rs:313-317 | an entry goes by its name, without one by its origin, without that by its specification |
| `DwarfNames.ScopesInOrder` | vock/src/dwarf/unit.rs:299-312 | scopes stand outermost first, each with two colons |
| `DwarfWalk.Walk` | vock/src/dwarf/unit.rs:241-375 | the loop, on any item sequence, computes the pass; spans end up a sorted permutation |
| `DwarfFind.PartitionPoint` | vock/src/dwarf/unit.rs:76-76 | the binary search counts the spans that start by the address |
| `DwarfFind.Find` | vock/src/dwarf/unit.rs:75-95 | the last of the four spans looked at that holds the address, then its deepest inlined call |
| `DwarfFind.LookBackExact` | vock/src/dwarf/unit.rs:76-86 | the last span holding the address is found if and only if at most three later ones start by then |
| `DwarfFind.LookBackMisses` | vock/src/dwarf/unit.rs:76-86 | five sorted spans of which the one holding the address is not found |
| `DwarfFind.DisjointChosen` | vock/src/dwarf/unit.rs:76-86 | with disjoint spans the right one is found |
| `DwarfFind.DeepestDie` | vock/src/dwarf/unit.rs:88-94 | the deepest record is the innermost inlined call of the tree |
| `DwarfFind.LookupOfFuncs` | vock/src/dwarf/unit.rs:75-95 | a table of disjoint functions, in any order by start, answers from the right function |
| `DwarfFind.FindInnermost` | vock/src/dwarf/unit.rs:75-375 | walking a tidy tree and looking an address up names the innermost function or inlined call the tree has there, or nothing |
| `DwarfNames.InlinedByOrigin` | vock/src/dwarf/unit.rs:75-375 | walked and looked up, a nameless inlined call is answered by the function it is an instance of |
| `DwarfNames.ScopedName` | vock/src/dwarf/unit.rs:75-375 | a function in a scope is answered by both names where the language has scopes, a nameless scope as {anon} |
| `DwarfNested.LookupOfNested` | vock/src/dwarf/unit.rs:75-95 | a table of nested functions answers from the innermost one exactly when at most three later spans start by the address |
| `DwarfNested.FindNested` | vock/src/dwarf/unit.rs:75-375 | walking a tidy tree with nested functions and looking an address up names the tree's innermost entry there exactly when the look-back reaches its span |
| `DwarfFind.NestedFunctionHides` | vock/src/dwarf/unit.rs:241-375 | a unit that, walked and looked up, names the outer function where its tree has an inlined call |
| `LineTable.AddLine` | vock/src/dwarf/line.rs:175-199 | line arithmetic: exact in range, zero below, cut to 32 bits |
| `LineTable.RunProgram` | vock/src/dwarf/line.rs:166-221 | the register machine emits the rows of the program |
| `LineWriter.RowsReadBack` | vock/src/dwarf/line.rs:166-221 | a program written for any rows, with special, constant, fixed or absolute advances chosen row by row, emits those rows |
| `LineWriter.ProgramReadBack` | vock/src/dwarf/line.rs:169-221 | from address 0, file 1 and line 1, any rows at all can be written and are read back |
| `LineTable.SpecialIsThreeSteps` | vock/src/dwarf/line.rs:172-178 | a special instruction equals an address advance, a line advance and a copy |
| `LineWriter.SpecialMoves` | vock/src/dwarf/line.rs:172-178 | the opcode a writer computes for an advance and a line step makes exactly that move |
| `LineWriter.ConstMoves` | vock/src/dwarf/line.rs:205-208 | the constant advance moves the address as opcode 255 does, and nothing else |
| `LineWriter.OpcodeTwenty` | vock/src/dwarf/line.rs:172-178 | one opcode by number |
| `LineTable.RowsOfProgram` | vock/src/dwarf/line.rs:170-220 | each sequence's rows depend on nothing before it |
| `LineTable.SortRows` | vock/src/dwarf/line.rs:222-225 | the stable sort by address, ends first |
| `LineTable.SortedOrdered` | vock/src/dwarf/line.rs:222-225 | sorted, and a permutation |
| `LineTable.SortedPicks` | vock/src/dwarf/line.rs:222-246 | sorting and searching select the greatest key, of equals the last in program order |
| `LineTable.Find` | vock/src/dwarf/line.rs:234-246 | the last row at or below the address, file numbering by version, missing files and ends as nothing |
| `LineWriter.FileNumbers` | vock/src/dwarf/line.rs:234-246 | files count from one before version five and from zero since; other numbers, ends and missing rows name none |
| `LineTable.PickInside` | vock/src/dwarf/line.rs:222-246 | over disjoint sequences the pick is the last row, in program order, of the sequence holding the address |
| `LineTable.FindInside` | vock/src/dwarf/line.rs:166-246 | run, sorted and searched, a program of disjoint sequences gives the last row at or below the address in its sequence |
| `LineTable.FindOutside` | vock/src/dwarf/line.rs:166-246 | and nothing outside every sequence |
| `LogReader.ParseHexBytes` | vock/src/report/mod.rs:220-235 | one to sixteen hexadecimal digits, nothing else |
| `LogLines.LineExact` | vock/src/report/mod.rs:83-106 | a line yields an address if and only if it is blanks, an optional 0x, one to sixteen digits of that value and a blank or the end |
| `LogReader.ParsePcs` | vock/src/report/mod.rs:83-106 | the address at the head of every line that has one |
| `LogReader.PcsAppend` | vock/src/report/mod.rs:83-106 | addresses never straddle a line end |
| `LogReader.SendBlocks` | vock/src/report/mod.rs:136-185 | what the reader thread sends, and that nothing is ever waiting when a file ends |
| `LogReader.BlocksKept` | vock/src/report/mod.rs:145-171 | for every list of reads, interrupted or failing, the blocks are exactly what is kept of the file |
| `LogReader.StreamedIsKept` | vock/src/report/mod.rs:118-185 | for all files and all reads, streaming yields the addresses of what is kept |
| `LogReader.BlocksOfContent` | vock/src/report/mod.rs:145-171 | however the reads cut a file, the blocks are exactly its whole lines |
| `LogReader.StreamedIsReadAll` | vock/src/report/mod.rs:118-185 | for calm reads, streaming equals reading whole if and only if no file has an address after its last line end |
| `LogReader.TerminatedIsExact` | vock/src/report/mod.rs:118-185 | for newline-terminated logs it does |
| `LogReader.UnterminatedIsLost` | vock/src/report/mod.rs:172-180 | a log cut inside a line whose address is lost |
| `LogReader.InterruptedIsLost` | vock/src/report/mod.rs:147-153 | any line interrupted before its end is lost |
| `SourceCoverage.Report.Note` | vock/src/report/mod.rs:442-449 | new addresses once each, in order of first appearance |
| `SourceCoverage.Report.Take` | vock/src/report/mod.rs:442-480 | looks up what is new, pads short answers, writes one line per address |
| `LogLines.LineParts` | vock/src/report/mod.rs:465-474 | a written line is 0x, the digits of the address, a blank and the place or two question marks |
| `LogLines.UnslidBack` | vock/src/report/mod.rs:451-451 | the address looked up is the one the kernel was slid from |
| `SourceCoverage.Report.Stream` | vock/src/report/mod.rs:395-484 | the output is every address in order with the place finally remembered, each distinct address looked up once |
| `SourceCoverage.OutputGrows` | vock/src/report/mod.rs:413-481 | lines written early already agree with the final memory |
| `SourceCoverage.RememberedOnce` | vock/src/report/mod.rs:442-462 | the addresses looked up are the distinct addresses of the log |
| `SourceCoverage.CompleteText` | vock/src/report/mod.rs:395-484 | when lookups answer in full, the output is each address with its own resolution, however the log was cut |
| `SourceCoverage.TextReadsBack` | vock/src/report/mod.rs:79-106 | reading the annotated log gives back the addresses it was written for |
| `SourceCoverage.ReportReadsBack` | vock/src/report/mod.rs:79-484 | from files to report and back: reading the report gives what reading the logs gives |

## Left out

- Walking TNT outcomes through kernel text, instruction lengths and KASLR guessing: no exact specification exists.
- perf, eBPF, KCOV, ptrace, mmap and ioctl: kernel behaviour; a trace is a byte string, an arena an array.
- Real syscalls, threads and timeouts in `run_prog`: each call has an arbitrary return value and leaves an
  arbitrary arena, the same in the two runs that are compared; for an overlapped call that is the arena its successor finds.
- `AnyUnique`, `DropEdges` and the other inner loops of `minimize` are separate methods, and the corpus bitmap is eight
  truth values per byte.
- FindInnermost: functions that nest are the subject of FindNested; inlining nested deeper than 65535 calls, where the recorded depth wraps, is excluded from both.
- StreamedIsReadAll: interruptions that find bytes waiting and failing reads are excluded from the equivalence, since what
  one file loses another may make up by chance; StreamedIsKept covers them.
- Stream: the resolver is a function of the address that may answer for a prefix of each request; a writer that stops
  accepting output, and the excerpt pages made after the loop, are not modelled.
- Decoding of ELF, abbreviations, forms, range lists and line-program bytes: entries and instructions arrive decoded, and
  a malformed section is its decoded beginning.
- base64, the zlib header and compressed image blobs: a parameter of the parser.
- Text outside ASCII, call names, properties and comments of syzkaller programs.
- 32-bit event counters (`pc_count`, `total`): unbounded here.
- HTML, terminal output, command line, mutators and the coarse signal set: they would only add easy members.
