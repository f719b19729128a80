# Models of LSQUIC's stateful core

This project models, in Dafny, the parts of LSQUIC whose correctness rests on
state kept over many calls, and proves what they promise for every input, every
run or every reachable state.

- **Incoming stream data.** Two handlers behind one interface: a sorted list of
  disjoint frames, and a growing hash table of 3616-byte blocks with a 57-word
  bitmap each. Both are proved against one sparse map from stream offset to byte
  (section 2.2 of RFC 9000), and the stream may switch from one to the other in
  mid-run. `Words`, `DataBlocks`, `HashTable`, `HashSpec`, `DiHash`,
  `NocopySpec`, `DiNocopy`, `Switching`, `DiSwitch`, `StreamRun`,
  `StreamAccept`, `StreamEnd`, `StreamProgress`, `StreamBlocks`.
- **HTTP/2 framing over a byte FIFO.** A nine-byte placeholder is written, and
  patched later, possibly across two buffers. `FrabList`, `Http2`,
  `HeaderFraming`, `FrameWriter`, `SettingsWriter`.
- **Certificate-chain compression.** The entry list, its two walkers, the search
  for common certificates, and the shared dictionary. `CertEntries`,
  `CertStore`, `CrtCompress`, `CrtCodec`.
- **The advisory tick queue.** A binary heap of elements that know their own
  index. `Attq`.
- **BBR and its bandwidth sampler.** `SamplerSpec`, `BwSampler`, `Minmax`,
  `BbrSpec`, `BbrRuns`, `BbrPath`, `BbrPacing`, `BbrModes`, `BbrAcks`, `BbrSender`.
- **Portable 128-bit FNV-1a.** `Endian`, `Fnv`.
- **ART's redundancy controller.** `ArtFeedback`.

A component that changes things in place is a class, or a method with a loop,
whose postconditions give the new state as a function of the old one; what the
source promises is then proved about that function, and over whole runs of it.

Five things the code does that one might not expect are stated as theorems and
not repaired:

- The FIN flag of a frame that carries bytes compares a block-relative sum with
  the absolute FIN offset (`src/liblsquic/lsquic_di_hash.c:525-528`).
  `HashSpec.FinFlagRightIff` says exactly when it is right, `PrematureFin` gives
  a frame that claims FIN too early. The reader stops at such a frame
  (`src/liblsquic/lsquic_stream.c:1568-1581`): `StreamEnd.StreamEndsEarly` is a
  stream whose last bytes never come out, `StreamEnd.EndsEarlyIff` says exactly
  when that happens, and `StreamProgress.CanReachIff` and
  `WholeStreamComesOut` exactly when all of it can still be had.
- A FIN only looks one block ahead for later bytes
  (`src/liblsquic/lsquic_di_hash.c:417-418`): `ByteBeyondFinPossible` is a byte
  that survives it. `NoBytePastFinIff` says exactly when none does, and
  `NoBytePastFinOverRuns` that this then holds for good.
- The look-ahead takes an empty block for bytes: `EmptyBlockRefusesFin` is a
  retransmission that is refused although it contradicts nothing. `RefusedIff`
  and `StreamAccept.ConformingSenderIsAccepted` say exactly when that happens.
- The limb multiplication loses a carry for some factors
  (`src/liblsquic/lsquic_crypto.c:119-123`). `Fnv.Accumulator.Times` says for
  exactly which, and by how much the result is then off.
- The certificate parser checks no bounds
  (`src/liblsquic/lsquic_crt_compress.c:504-516`). `CertEntries.ParseOutcomes`
  says exactly when it runs past its input, and `WalksAgree` that input accepted
  by the counting walk cannot make it do so, nor write past the slots counted.

`dafny verify dfyconfig.toml` covers the whole project.

## Model

| member | source | states |
|---|---|---|
| `StreamRun.RunDeliversStream` | src/liblsquic/lsquic_di_hash.c:352-601 | For every legal run of arrivals, gets, reads, releases and switches over either handler, if the frames are slices of one stream then what was handed out is a prefix of the stream, in order and without a gap, and no unread byte that was taken in is gone |
| `StreamRun.EveryRunFromStart` | src/liblsquic/lsquic_di_hash.c:352-601 | From both starting states: the output is exactly the stream up to the read offset, the handler holds a byte at or past it if and only if some insert took it in, and until the stream has ended for the reader a get hands out a frame whenever it holds the byte at the read offset |
| `StreamRun.RunKeepsHandler` | src/liblsquic/lsquic_di_nocopy.c:201-491 | Every run, whatever its frames say, keeps the list sorted, disjoint and exactly counted, and the table in order |
| `StreamEnd.EndsEarlyIff` | src/liblsquic/lsquic_stream.c:1530-1594 | In every run of a sender that keeps to one final size, the stream ends for the reader before that size if and only if it released a frame got where the FIN flag comes too early; never, if the stream has two blocks or more |
| `StreamEnd.StreamEndsEarly` | src/liblsquic/lsquic_stream.c:1568-1581 | It happens: one block and 20 bytes arrive whole in one frame with FIN, the reader takes 20 bytes and then all it is given, and the last 20 bytes never come out |
| `StreamProgress.ReadOn` | src/liblsquic/lsquic_stream.c:1530-1594 | Progress, frame by frame: when the bytes up to e are held, a reader that takes all of every frame comes to e if and only if it is not in the first block with e past it, FIN known, and the stream ending exactly one block on; and in that place it is told FIN before e |
| `StreamProgress.CanReachIff` | src/liblsquic/lsquic_stream.c:1530-1594 | Progress, however the reader reads: with the bytes up to e held, some legal sequence of gets, reads and releases comes to e if and only if the reader is not trapped: not told FIN before, not about to release a frame that ends the stream too early, and not before the last byte of the first block of a stream that ends one block on |
| `StreamProgress.TrappedForGood` | src/liblsquic/lsquic_stream.c:1699-1708 | A trapped reader stays short of e whatever it does |
| `StreamProgress.EveryByteComesOut` | src/liblsquic/lsquic_stream.c:1530-1594 | In every run from the start, whatever the frames say about the end of the stream, every byte taken in with no gap before it comes out: the run can be continued by reads alone so that the output is the stream and covers it, or the reader has been told that the stream is over |
| `StreamProgress.FinComesOut` | src/liblsquic/lsquic_di_nocopy.c:408-449 | With the reader at a known FIN, reading on ends the stream for it, whatever empty frames are queued in front |
| `StreamAccept.ConformingSenderIsAccepted` | src/liblsquic/lsquic_stream.c:1131-1178 | After any run of a sender that keeps to one final size the stream is not broken, and its next frame is refused if and only if it has FIN and bytes, the stream is not read to its end, and a block is at a final size that is a block boundary, or will be because the frame is not known to the list, and is partly read or conflicts with a queued frame; so never, if no empty frame was sent there |
| `StreamProgress.AllThatArrivedComesOut` | src/liblsquic/lsquic_stream.c:1131-1178 | End to end: in every run of such a sender, if the frames that arrived cover all unread bytes below e, the reader can go on to have exactly the stream up to e if and only if it is not trapped |
| `StreamProgress.WholeFramesComeOut` | src/liblsquic/lsquic_stream.c:1530-1594 | The same for a reader that takes all of every frame: it comes to have them if and only if it is not in the one place of the first block where the flag misleads it, and there the stream ends early |
| `StreamProgress.WholeStreamComesOut` | src/liblsquic/lsquic_stream.c:1131-1178 | End to end with FIN: if all bytes of the stream arrived and one of its FINs was not refused, the reader can go on to have exactly the stream and then be told its end at the final size, if and only if it is not trapped |
| `StreamAccept.AcceptedFinIsKnown` | src/liblsquic/lsquic_stream.c:1131-1178 | In every run of such a sender, once a FIN was not refused every later state knows FIN at the final size, or the reader was told it there |
| `StreamRun.ArrivalIsNotLost` | src/liblsquic/lsquic_di_nocopy.c:377-404 | A frame that is not refused leaves every unread byte it covers held, whichever handler it met, whether it counted as new, duplicate or overlap, and whatever the bytes are |
| `StreamRun.FinIsForever` | src/liblsquic/lsquic_di_hash.c:369-424 | From the moment the hash handler has recorded FIN, every later state of every run, whatever its frames say, has the same FIN, has no byte at or past it that was not there, loses none there while the reader is not past it, and hands out an empty frame with FIN at that offset (section 4.5 of RFC 9000) |
| `StreamRun.NoBytePastFinOverRuns` | src/liblsquic/lsquic_di_hash.c:414-424 | Once a FIN was accepted, no later state of any run has a byte at or past it, if and only if no byte was then stored beyond the block after the last one of the frame |
| `Switching.SwitchKeepsUnread` | src/liblsquic/lsquic_di_nocopy.c:461-491 | The switch fails if and only if a queued frame lies past a queued FIN; otherwise the hash handler holds exactly the unread bytes of the list, and FIN exactly when the FIN frame was still queued |
| `Switching.InsertAllKeeps` | src/liblsquic/lsquic_di_nocopy.c:473-486 | The emptying loop from any intermediate state: bytes accumulate to the union, FIN comes from where a frame says it is, and refusal happens exactly for a frame past FIN |
| `DiSwitch.SwitchImpl` | src/liblsquic/lsquic_di_nocopy.c:461-491 | The two handler objects: the list is emptied into a fresh, valid hash handler with fresh blocks, whose contents are those of inserting the frames in turn, or null |
| `DiSwitch.SameReadable` | src/liblsquic/lsquic_di_nocopy.c:529-543 | After a successful switch both handlers report the same number of readable bytes, the longest unread run at the read offset |
| `DiSwitch.ReadableAcrossSwitch` | src/liblsquic/lsquic_di_hash.c:664-675 | On the objects: asking before and after a switch gives the same answer, and the switch fails exactly for a frame past FIN |
| `HashSpec.InsertStoresExactly` | src/liblsquic/lsquic_di_hash.c:352-427 | An insert that gets past the early checks adds exactly the unread part of its frame to the unread bytes; any other changes nothing |
| `HashSpec.InsertVerdict` | src/liblsquic/lsquic_di_hash.c:369-424 | A frame is a duplicate if and only if it ends before the read offset and has no FIN; it is refused if and only if it contradicts the final size, has FIN behind the reader, or has FIN with something stored after it; a duplicate changes nothing |
| `HashSpec.InsertAddsBlocks` | src/liblsquic/lsquic_di_hash.c:395-412 | The blocks added are exactly those that the unread part of the frame has bytes in; for no bytes, the one its end is in |
| `HashSpec.InsertKeepsInv` | src/liblsquic/lsquic_di_hash.c:352-427 | Every insert, refused or not, keeps blocks aligned, every byte in its block, and no byte at the FIN offset |
| `HashSpec.FinIsFinal` | src/liblsquic/lsquic_di_hash.c:369-379 | FIN once recorded never moves, and no later insert stores a byte at or past it |
| `HashSpec.FinAcceptedIff` | src/liblsquic/lsquic_di_hash.c:414-424 | A FIN that keeps to the final size is recorded if and only if, before it, no byte was stored between its end and the end of its last block and the next block was not in the table, not even empty |
| `HashSpec.NoBytePastFinIff` | src/liblsquic/lsquic_di_hash.c:414-424 | After an accepted FIN no stored byte is at or past it, if and only if all bytes stored before were below the end of the block after the last one of the frame |
| `HashSpec.RefusedIff` | src/liblsquic/lsquic_di_hash.c:361-424 | With all that is stored within a final size n, a frame that keeps to n is refused if and only if it has FIN and bytes, the reader is short of n, and a block is in the table at n |
| `HashSpec.EmptyBlockRefusesFin` | src/liblsquic/lsquic_di_hash.c:414-421 | A stream of one block whose FIN came in an empty frame, and then again with its bytes: the second is refused though no byte lies past FIN |
| `HashSpec.ByteBeyondFinPossible` | src/liblsquic/lsquic_di_hash.c:417-418 | The look-ahead is only one block deep: a concrete state in which a byte beyond the next block survives a FIN before it |
| `HashSpec.FinByteAbsent` | src/liblsquic/lsquic_di_hash.c:414-424 | The one-block look-ahead is still enough to know that no byte is stored at the FIN offset itself |
| `HashSpec.GetHandsOutRun` | src/liblsquic/lsquic_di_hash.c:507-576 | A frame is handed out if and only if there is a byte, or FIN, at the read offset; it then covers exactly the run of valid bytes from there to the first gap or the end of the block |
| `HashSpec.GetAtFinIsEmptyFin` | src/liblsquic/lsquic_di_hash.c:531-566 | In every state a get at the recorded FIN offset yields an empty frame with FIN set |
| `HashSpec.FinFlagRightIff` | src/liblsquic/lsquic_di_hash.c:525-528 | The FIN flag of a frame with bytes compares a block-relative sum with the absolute FIN offset; it is right if and only if the read offset is zero or neither the run nor that sum ends at FIN |
| `HashSpec.MisleadsIff` | src/liblsquic/lsquic_di_hash.c:525-528 | The frame handed out for a stored byte claims FIN although its bytes do not end there, if and only if the read offset is not zero and twice its place in the block plus the run is the FIN offset |
| `HashSpec.MisleadsInFirstBlock` | src/liblsquic/lsquic_di_hash.c:525-528 | Within a final size that happens in the first block only, with FIN known and the stream shorter than two blocks |
| `HashSpec.MisleadsShortOf` | src/liblsquic/lsquic_di_hash.c:525-528 | With all bytes up to e held, the frame misleads and falls short of e if and only if the reader is in the first block, e is not, FIN is known, and the stream ends one block past the reader |
| `HashSpec.PrematureFin` | src/liblsquic/lsquic_di_hash.c:525-528 | Bytes 0 to 80 stored, 20 read, FIN announced at 100: the frame handed out at 20 claims FIN though bytes 80 to 100 are missing |
| `HashSpec.DoneLosesNothingUnread` | src/liblsquic/lsquic_di_hash.c:580-601 | Releasing a frame may remove its block, and then no byte at or past the read offset is lost and FIN stays |
| `HashSpec.DoneFreesIff` | src/liblsquic/lsquic_di_hash.c:580-601 | Releasing a frame leaves its block in the table if and only if the block has a valid byte at the read position or after it; a block that goes takes its bytes with it, and every other block, its bytes and FIN stay |
| `StreamBlocks.ReadBlocksAreFreed` | src/liblsquic/lsquic_di_hash.c:580-601 | In every state of every run, whatever its frames say, no block of the table lies wholly before the read offset, but for one just read to its end whose release is next |
| `StreamBlocks.ReleaseFreesIff` | src/liblsquic/lsquic_di_hash.c:580-601 | After a release in any run the block read from is in the table if and only if it holds an unread byte; and the stream may go back to a list if and only if that was the only block, it holds none, and there is no FIN |
| `HashSpec.CopyFirst` | src/liblsquic/lsquic_di_hash.c:396-412 | The first round of the copying loop stores the prefix of the frame that is in its block |
| `HashSpec.CopyNext` | src/liblsquic/lsquic_di_hash.c:396-412 | Every later round starts at a block boundary, stores the next part, and the rounds together store the whole frame |
| `HashSpec.RunBelowUnique` | src/liblsquic/lsquic_di_hash.c:471-500 | The run of valid bytes in a block is determined by being valid throughout and ending at a gap or the block end |
| `DataBlocks.DataBlock.Write` | src/liblsquic/lsquic_di_hash.c:276-329 | Marks and stores exactly the clipped source bytes, for every word alignment, changes no other bit or byte, and returns how many fitted |
| `DataBlocks.DataBlock.HasBytesAfter` | src/liblsquic/lsquic_di_hash.c:333-348 | True if and only if some byte at or after the offset is valid, to the end of the block |
| `DataBlocks.DataBlock.NAvailBytes` | src/liblsquic/lsquic_di_hash.c:471-500 | The maximal run of valid bytes from the given bit, never past the end of the block |
| `DataBlocks.DataBlock.CountOnes` | src/liblsquic/lsquic_di_hash.c:471-500 | The word-by-word count: all bits counted are set and the next one, if the bitmap has one, is clear |
| `DataBlocks.RunInWord` | src/liblsquic/lsquic_di_hash.c:471-500 | Counting the trailing zeros of the complement counts the run of ones in a word |
| `DataBlocks.HeadMask` | src/liblsquic/lsquic_di_hash.c:294-306 | The mask built for a write that starts inside a word has exactly the bits of the bytes stored there |
| `DataBlocks.StoredInParts` | src/liblsquic/lsquic_di_hash.c:276-329 | Head, whole words and tail together store all of the source bytes and nothing else |
| `DataBlocks.StoredShows` | src/liblsquic/lsquic_di_hash.c:276-329 | Storing bytes in a block is adding them to the map from stream offset to byte |
| `DataBlocks.TailEndsRun` | src/liblsquic/lsquic_di_hash.c:471-500 | Because bits past the last data byte are never set, a run that stops in the bitmap stops in the block |
| `Words.CtzIsLowestBit` | src/liblsquic/lsquic_di_hash.c:455-466 | The portable halving rounds find the position of the lowest set bit of every non-zero word |
| `Words.BitOfShr` | src/liblsquic/lsquic_di_hash.c:338-345 | What a right shift does to the set of bits; likewise its siblings for or, and, complement and masks |
| `HashTable.Find` | src/liblsquic/lsquic_di_hash.c:228-238 | A block is found if and only if one with that offset is present |
| `HashTable.Grow` | src/liblsquic/lsquic_di_hash.c:175-209 | Twice the buckets, every old bucket split by the next hash bit into its two new ones |
| `HashTable.GrownHolds` | src/liblsquic/lsquic_di_hash.c:175-209 | Doubling loses and duplicates no block, and leaves each in the bucket its offset hashes to |
| `HashTable.InsertHolds` | src/liblsquic/lsquic_di_hash.c:213-224 | Adding to the tail of the right bucket adds exactly that block |
| `HashTable.RemoveHolds` | src/liblsquic/lsquic_di_hash.c:242-249 | Removing takes away exactly that block |
| `DiHash.HashDataIn.constructor` | src/liblsquic/lsquic_di_hash.c:116-151 | A new handler is valid and holds no block, no byte and no FIN |
| `DiHash.HashDataIn.GrowTable` | src/liblsquic/lsquic_di_hash.c:175-209 | On the object: the same blocks in twice the buckets |
| `DiHash.HashDataIn.InsertBlock` | src/liblsquic/lsquic_di_hash.c:213-224 | The block joins, and the block count is at most half the buckets afterwards |
| `DiHash.HashDataIn.RemoveBlock` | src/liblsquic/lsquic_di_hash.c:242-249 | The block leaves and the count follows |
| `DiHash.HashDataIn.NewBlock` | src/liblsquic/lsquic_di_hash.c:253-272 | An empty block at that offset joins the table and changes no byte |
| `DiHash.HashDataIn.CopyToBlock` | src/liblsquic/lsquic_di_hash.c:399-410 | One round: the block is found or made, and takes the bytes that fit |
| `DiHash.HashDataIn.CopyAll` | src/liblsquic/lsquic_di_hash.c:396-412 | The loop terminates having stored all of the frame; it reports the last block written |
| `DiHash.HashDataIn.InsertDataFrame` | src/liblsquic/lsquic_di_hash.c:352-427 | Result and new contents are those of the insert on the sparse byte map |
| `DiHash.HashDataIn.LooksPastFin` | src/liblsquic/lsquic_di_hash.c:414-418 | What the look-ahead before FIN sees |
| `DiHash.HashDataIn.SetupDataFrame` | src/liblsquic/lsquic_di_hash.c:507-543 | The frame set up is the one the sparse byte map gives, or none |
| `DiHash.HashDataIn.GetFrame` | src/liblsquic/lsquic_di_hash.c:547-576 | Get on the object is get on the sparse byte map, also where the block is absent |
| `DiHash.HashDataIn.Read` | src/liblsquic/lsquic_di_hash.c:507-543 | The bytes copied out of the block are those of the map at the read offset |
| `DiHash.HashDataIn.FrameDone` | src/liblsquic/lsquic_di_hash.c:580-601 | The block stays in the table if and only if it has a valid byte at or after the read position; and the switch back is asked for exactly when it goes, was the only block, and there is no FIN |
| `DiHash.HashDataIn.ReadableBytes` | src/liblsquic/lsquic_di_hash.c:664-675 | The loop over gets terminates and returns the length of the longest run at the read offset |
| `NocopySpec.InsertKeepsInv` | src/liblsquic/lsquic_di_nocopy.c:201-337 | In every reachable state the frames are sorted and disjoint, and the frame, byte and hole counters are exact; the unconditional decrement takes away a hole that was there |
| `NocopySpec.HolesAfterInsert` | src/liblsquic/lsquic_di_nocopy.c:305-322 | The hole count after linking in a frame, from the gaps to both neighbours |
| `NocopySpec.OkFits` | src/liblsquic/lsquic_di_nocopy.c:201-337 | OK is reported only where the frame overlaps no other and nothing read, and it links in exactly that frame |
| `NocopySpec.InsertStoresExactly` | src/liblsquic/lsquic_di_nocopy.c:201-337 | OK adds exactly the bytes of the new frame, none queued or read before; any other result changes nothing |
| `NocopySpec.DupBringsNothing` | src/liblsquic/lsquic_di_nocopy.c:207-336 | DUP is reported only for a frame with no unread byte that is not queued and no FIN that is not known |
| `NocopySpec.InsertVerdict` | src/liblsquic/lsquic_di_nocopy.c:207-336 | Which of the four verdicts a frame gets, each if and only if, by the queued frames: refused for contradicting the final size; otherwise a duplicate if it is behind the read offset or there without a new FIN, or the last frame at or before it has its offset and size and its FIN; otherwise an overlap if it is partly read, one of it and a queued frame starts inside the other, or that last frame has its offset and size; otherwise linked in |
| `NocopySpec.InsertAccepts` | src/liblsquic/lsquic_di_nocopy.c:207-336 | So a frame with bytes is linked in if and only if it is not refused, starts at or past the read offset, and overlaps no queued frame |
| `NocopySpec.NewsIsNotRefused` | src/liblsquic/lsquic_di_nocopy.c:207-336 | A frame that keeps to the final size and brings an unread byte that is not queued, or an unknown FIN, is linked in or makes the list give way |
| `NocopySpec.CanGetIff` | src/liblsquic/lsquic_di_nocopy.c:408-425 | There is a frame to hand out if and only if some queued frame is read up to the read offset; so whenever the byte there is queued, or FIN is |
| `NocopySpec.GetHandsOut` | src/liblsquic/lsquic_di_nocopy.c:408-425 | The frame handed out has the queued bytes from the read offset on |
| `NocopySpec.ReadKeepsInv` | src/liblsquic/lsquic_di_nocopy.c:408-425 | Reading part of the first frame keeps order, counters and FIN knowledge |
| `NocopySpec.DoneKeepsInv` | src/liblsquic/lsquic_di_nocopy.c:429-449 | Releasing a frame that was read to its end keeps the counters exact, loses no unread byte and remembers its FIN |
| `DiNocopy.NocopyDataIn.constructor` | src/liblsquic/lsquic_di_nocopy.c:131-153 | An empty list |
| `DiNocopy.NocopyDataIn.FindNeighbors` | src/liblsquic/lsquic_di_nocopy.c:230-257 | The backward search finds the neighbours of the offset and how many frames follow it |
| `DiNocopy.NocopyDataIn.Screen` | src/liblsquic/lsquic_di_nocopy.c:207-228 | The verdicts that need no search |
| `DiNocopy.NocopyDataIn.Classify` | src/liblsquic/lsquic_di_nocopy.c:207-303 | The verdict is that of the case analysis on positions; on OK the neighbours to link between |
| `DiNocopy.NocopyDataIn.Link` | src/liblsquic/lsquic_di_nocopy.c:305-334 | List and counters with the frame linked in |
| `DiNocopy.NocopyDataIn.InsertFrame` | src/liblsquic/lsquic_di_nocopy.c:201-337 | Result and new list are those of the insert on values |
| `DiNocopy.NocopyDataIn.GetFrame` | src/liblsquic/lsquic_di_nocopy.c:408-425 | A frame is handed out whenever the byte at the read offset is queued, or FIN is queued there; what is handed out has that byte or ends there |
| `DiNocopy.NocopyDataIn.FrameDone` | src/liblsquic/lsquic_di_nocopy.c:429-449 | The first frame leaves; counters and the FIN-reached flag follow |
| `DiNocopy.NocopyDataIn.ReadableBytes` | src/liblsquic/lsquic_di_nocopy.c:529-543 | The walk returns the longest run of unread bytes at the read offset |
| `FrabList.Fral.constructor` | src/liblsquic/lsquic_frab_list.c:29-39 | An empty list |
| `FrabList.Fral.Write` | src/liblsquic/lsquic_frab_list.c:70-97 | Appends exactly the bytes, moves none that were there, and the size follows |
| `FrabList.Fral.Read` | src/liblsquic/lsquic_frab_list.c:109-134 | Returns the oldest bytes, as many as asked for and there, and leaves the rest in order |
| `FrabList.Fral.Size` | src/liblsquic/lsquic_frab_list.c:101-105 | The number of bytes written and not yet read |
| `FrabList.Fral.PatchBuffer` | src/liblsquic/lsquic_frame_writer.c:235-251 | Overwriting bytes of one buffer overwrites the contents in the same place |
| `FrabList.PatchContents` | src/liblsquic/lsquic_frame_writer.c:235-251 | A patch inside buffer i shows in the contents at the start of that buffer plus the position, and moves nothing |
| `FrabList.TakeFirstReads` | src/liblsquic/lsquic_frab_list.c:117-131 | Taking bytes off the first buffer takes them off the front of the contents |
| `Http2.ParseInvertsEncode` | src/liblsquic/lsquic_frame_writer.c:220-233 | Every sequence of frames within the length limit parses back to itself under section 4.1 of RFC 7540 |
| `Http2.HeaderLayout` | src/liblsquic/lsquic_frame_writer.c:552-567 | The nine bytes of a frame header: length and stream identifier high byte first, between them the type and each flag at its bit |
| `HeaderFraming.CloseFull` | src/liblsquic/lsquic_frame_writer.c:256-292 | Writing the header of a full last frame, as one that others follow, leaves the block open for the next |
| `HeaderFraming.CloseLast` | src/liblsquic/lsquic_frame_writer.c:210-252 | Writing the header of the last frame, as the last, completes the block |
| `HeaderFraming.ClosedParses` | src/liblsquic/lsquic_frame_writer.c:210-292 | A completed block parses as one frame of the block type and CONTINUATION frames whose payloads concatenate to the input, all but the last full and END_HEADERS only on the last |
| `FrameWriter.HeaderFramer.constructor` | src/liblsquic/lsquic_frame_writer.c:187-198 | Nothing written yet, whatever the list still holds |
| `FrameWriter.HeaderFramer.SavePtr` | src/liblsquic/lsquic_frame_writer.c:202-206 | The saved pointer is at the end of what has been written |
| `FrameWriter.HeaderFramer.PatchHeader` | src/liblsquic/lsquic_frame_writer.c:235-251 | The nine bytes before the saved pointer are overwritten, in one buffer or across the boundary of two |
| `FrameWriter.HeaderFramer.TerminateFrame` | src/liblsquic/lsquic_frame_writer.c:210-252 | The header of the current frame, with its length, type and flags, replaces its placeholder |
| `FrameWriter.HeaderFramer.WriteNewFrame` | src/liblsquic/lsquic_frame_writer.c:264-288 | One round that closes a full frame, if there is one, and starts the next |
| `FrameWriter.HeaderFramer.WriteMore` | src/liblsquic/lsquic_frame_writer.c:277-288 | One round into a frame with room |
| `FrameWriter.HeaderFramer.Write` | src/liblsquic/lsquic_frame_writer.c:256-292 | The payload grows by exactly the chunk, whatever its size |
| `FrameWriter.HeaderFramer.Finish` | src/liblsquic/lsquic_frame_writer.c:210-252 | The list holds what it held before and then the completed block |
| `FrameWriter.WriteHeaderBlock` | src/liblsquic/lsquic_frame_writer.c:394-426 | For every chunking, frame size, buffer size and leftover content, what is appended parses as one header block that carries the input |
| `SettingsWriter.WriteFrame` | src/liblsquic/lsquic_frame_writer.c:552-588 | Appends exactly one SETTINGS frame |
| `SettingsWriter.WriteSettings` | src/liblsquic/lsquic_frame_writer.c:591-615 | None is an error; otherwise what is appended parses as SETTINGS frames within the size limit that carry exactly the settings, every frame but the last with as many as fit |
| `SettingsWriter.SettingsRoundTrip` | src/liblsquic/lsquic_frame_writer.c:573-585 | Identifiers and values parse back from their six-byte form (section 6.5.1 of RFC 7540) |
| `SettingsWriter.SettingsLayout` | src/liblsquic/lsquic_frame_writer.c:573-585 | Every setting is in its six bytes, identifier and value high byte first |
| `CertEntries.GetEntriesSize` | src/liblsquic/lsquic_crt_compress.c:381-405 | Equals the number of bytes serialization writes |
| `CertEntries.SerializeCertEntries` | src/liblsquic/lsquic_crt_compress.c:407-437 | Fills the head of the buffer with the entries and the end marker, leaves the rest, and reports the length |
| `CertEntries.EntryLayout` | src/liblsquic/lsquic_crt_compress.c:408-436 | The bytes of an entry: type 1, 2 or 3, then the hash in eight bytes and the index in four, low byte first |
| `CertEntries.GetCertsCount` | src/liblsquic/lsquic_crt_compress.c:440-482 | The counting walk as a function of the bytes |
| `CertEntries.WalksAgree` | src/liblsquic/lsquic_crt_compress.c:440-578 | On every byte string: if the count succeeds, the unchecked parser never reads past the end nor writes more slots than counted, and if it succeeds finds that many; if the count fails, the parser cannot succeed |
| `CertEntries.ParseOutcomes` | src/liblsquic/lsquic_crt_compress.c:440-578 | On every byte string: the parser reads past the end if and only if the bytes run out before the end marker and every common certificate named before that exists; it succeeds if and only if the marker is there and every one named exists; the count succeeds if and only if the marker is there |
| `CertEntries.ParserOverReads` | src/liblsquic/lsquic_crt_compress.c:502-516 | An input on which the parser reads past the end |
| `CertEntries.ParseInvertsSerialize` | src/liblsquic/lsquic_crt_compress.c:407-578 | Parsing serialized entries, whatever follows them, gives the entries and the certificates they stand for, and stops right behind them |
| `CertStore.ComputeHash64` | src/liblsquic/lsquic_crypto.c:33-44 | The 64-bit FNV-1a hash |
| `CertStore.PublishedHashes` | src/liblsquic/lsquic_crypto.c:33-44 | Its prime is 2^40 + 0x1b3 and its offset basis the published one; the hashes of the empty input and of "a" are the published ones |
| `CertStore.HeldIsFound` | src/liblsquic/lsquic_crt_compress.c:537-545 | A held certificate is found by its hash if no other held one collides with it |
| `CertStore.FirstHeldIsFirst` | src/liblsquic/lsquic_crt_compress.c:537-545 | What is found by a hash is the first held certificate of that hash, and nothing if there is none |
| `CertStore.CompareIsOrder` | src/liblsquic/lsquic_crt_compress.c:215-227 | Zero exactly for equal certificates, and antisymmetric |
| `CertStore.CompareIsLexicographic` | src/liblsquic/lsquic_crt_compress.c:215-227 | The order is that of the bytes at the first difference, and a proper beginning comes first |
| `CertStore.CompareIsTransitive` | src/liblsquic/lsquic_crt_compress.c:215-227 | Transitive, strictly if either step is |
| `CertStore.SortedByNeighbours` | src/liblsquic/lsquic_crt_compress.c:215-227 | A set is sorted if and only if each certificate is before the next |
| `CertStore.BinarySearch` | src/liblsquic/lsquic_crt_compress.c:256-277 | What it finds is the certificate; on a sorted set, finding nothing means it is not there |
| `CertStore.GetCommonCert` | src/liblsquic/lsquic_crt_compress.c:194-212 | Looks only at the first set of that hash, and there only below its size |
| `CertStore.CommonCertIsFirst` | src/liblsquic/lsquic_crt_compress.c:194-212 | The lookup finds the certificate at the index in the first set of that hash, and nothing without such a set or past its size |
| `CertStore.MatchLooksUp` | src/liblsquic/lsquic_crt_compress.c:194-282 | With distinct set hashes, a match in any set looks up to the same certificate |
| `CertStore.MatchCommonCert` | src/liblsquic/lsquic_crt_compress.c:231-282 | A match is in a set the client mentions and looks up to the certificate; with sorted sets, no match means it is in none of them |
| `CrtCodec.IsCached` | src/liblsquic/lsquic_crt_compress.c:352-364 | Whether the hash is among those the client sent |
| `CrtCodec.GetCertsEntries` | src/liblsquic/lsquic_crt_compress.c:328-379 | Every entry is the right choice: cached if the client says it holds the hash, else common if a mentioned set has it, else compressed |
| `CrtCompress.SameDictionary` | src/liblsquic/lsquic_crt_compress.c:286-314 | The dictionary depends only on the certificates that are not compressed, so both sides build the same |
| `CrtCompress.MakeDict` | src/liblsquic/lsquic_crt_compress.c:286-314 | The dictionary is as long as the certificates that are not compressed and the common substrings together; each such certificate is in it behind all those that follow it in the chain, and the substrings come last |
| `CrtCompress.DictPlaces` | src/liblsquic/lsquic_crt_compress.c:304-310 | Where each certificate is in the dictionary, from any place of the chain on |
| `CrtCompress.PackedPlaces` | src/liblsquic/lsquic_crt_compress.c:655-669 | The compressed part has every compressed certificate in the order of the chain, each behind its length in four bytes |
| `CrtCompress.MessageLayout` | src/liblsquic/lsquic_crt_compress.c:638-676 | A message is the entries and their end marker and, if anything is compressed, the length of the compressed part in four bytes, low byte first, and that part deflated under the dictionary |
| `CrtCompress.UnpackInvertsPack` | src/liblsquic/lsquic_crt_compress.c:655-797 | Taking the compressed certificates out of the stream inverts putting them in, with the others in place |
| `CrtCompress.MessageParses` | src/liblsquic/lsquic_crt_compress.c:581-690 | Both walks accept every message, and what follows the entries is the stream |
| `CrtCompress.RoundTrip` | src/liblsquic/lsquic_crt_compress.c:581-813 | For every list and every fitting choice of entries: decompression returns the list if and only if at most 128 KB are compressed and the client still holds what was sent by hash |
| `CrtCodec.HonestClientGetsChain` | src/liblsquic/lsquic_crt_compress.c:581-813 | For a client that holds what it claims, without collisions, the chain comes back if and only if at most 128 KB are compressed |
| `CrtCodec.CompressCerts` | src/liblsquic/lsquic_crt_compress.c:581-690 | Sends the message for the chosen entries, which fit the certificates |
| `CrtCodec.ParseEntries` | src/liblsquic/lsquic_crt_compress.c:485-578 | The parsing walk, with its unchecked reads made visible as an outcome |
| `CrtCodec.Unpack` | src/liblsquic/lsquic_crt_compress.c:774-797 | The loop that fills in the compressed certificates; every byte must be used |
| `CrtCodec.DecompressCerts` | src/liblsquic/lsquic_crt_compress.c:694-813 | Decompression as a function of the message, with as many certificates as were counted |
| `Attq.Queue.constructor` | src/liblsquic/lsquic_attq.c:38-57 | An empty queue |
| `Attq.Queue.Swap` | src/liblsquic/lsquic_attq.c:97-107 | Two elements trade places, and both know where they are |
| `Attq.Queue.Heapify` | src/liblsquic/lsquic_attq.c:176-203 | Restores the heap from one position that may be too large |
| `Attq.Queue.Add` | src/liblsquic/lsquic_attq.c:110-154 | The queue is a min-heap of exactly the old elements and the new one, each at the index it records and each connection linked to its element |
| `Attq.Queue.Remove` | src/liblsquic/lsquic_attq.c:206-238 | The same from any position: exactly that element leaves, its connection is unlinked, and the rest is a heap with right indices |
| `Attq.Queue.Pop` | src/liblsquic/lsquic_attq.c:157-173 | Nothing if and only if nothing is below the cutoff; otherwise a minimum strictly below it, which leaves |
| `Attq.Queue.Next` | src/liblsquic/lsquic_attq.c:262-269 | A minimum, or nothing exactly when the queue is empty |
| `Attq.Queue.DrainDue` | src/liblsquic/lsquic_engine.c:2083-2092 | The loop of the engine collects exactly the elements due, each once, in time order, and leaves the others |
| `Attq.SiftUpStep` | src/liblsquic/lsquic_attq.c:143-149 | One step up moves the only possible violation to the parent |
| `Attq.SiftDownStep` | src/liblsquic/lsquic_attq.c:176-203 | One step down moves it to the smaller child, or there is none left |
| `Attq.RootIsMin` | src/liblsquic/lsquic_attq.c:157-173 | The root of a heap is a minimum |
| `Attq.RemovedIsHeapBut` | src/liblsquic/lsquic_attq.c:221-235 | When the last element takes the hole there is at most one violation, above or below it as the code decides |
| `SamplerSpec.BytesConserved` | src/liblsquic/lsquic_bw_sampler.c:95-262 | Over every run, sent equals acked plus lost plus the sizes of packets that carry state, plus exactly what acks at another size than the sent one leave over |
| `SamplerSpec.StableRunConserves` | src/liblsquic/lsquic_bw_sampler.c:95-262 | So with stable sizes bytes are conserved |
| `SamplerSpec.TotalsAreLedger` | src/liblsquic/lsquic_bw_sampler.c:95-262 | The running totals equal sums over the trace that are defined without the sampler |
| `SamplerSpec.StateIsOfItsSending` | src/liblsquic/lsquic_bw_sampler.c:95-262 | A packet carries state if and only if it was sent and has met no fate since; its totals and flag are those of the sampler before that sending, and its last ack the one of the sampler right after it |
| `SamplerSpec.LastAckIsLatestMark` | src/liblsquic/lsquic_bw_sampler.c:122-190 | In every run the last ack of the sampler is the latest mark of the trace: the time, the sending time and the bytes sent up to and with the packet of the latest counted ack, or of the latest counted send into an empty pipe; all zero if there is none |
| `SamplerSpec.MakesSampleIff` | src/liblsquic/lsquic_bw_sampler.c:202-227 | An ack makes a sample if and only if the packet is out, its sending has a latest mark whose packet was not sent at time zero, and the ack is later than that mark |
| `SamplerSpec.EachSendCountedOnce` | src/liblsquic/lsquic_bw_sampler.c:95-262 | Counted on the trace alone, every send of a packet that was not out has exactly one ack or loss after it, or the packet is one that carries state |
| `SamplerSpec.RunIsOrdered` | src/liblsquic/lsquic_bw_sampler.c:210-231 | In every run none of the byte differences taken at an ack is negative |
| `SamplerSpec.SampleIsSlowerRate` | src/liblsquic/lsquic_bw_sampler.c:205-251 | The bandwidth of a sample is the largest rate that two counts on the trace allow: the bytes acked since its packet was sent over the time since the latest mark of that sending, and the bytes sent from the packet of that mark to its own over the time between the two sendings; without such a time the first alone, up to the largest number. Its RTT is the time from sending to ack, and it is app-limited exactly if the sampler was at the sending |
| `SamplerSpec.AppLimitedUntil` | src/liblsquic/lsquic_bw_sampler.c:46-200 | In every run the sampler is app-limited if and only if, since the sampler began or was last told so, no ack of a packet that was out had a number above that of the last packet sent before |
| `SamplerSpec.NumberIsLast` | src/liblsquic/lsquic_bw_sampler.c:108-108 | That number is the one of the latest send of a packet that was not out, and zero before the first |
| `BwSampler.Sampler.constructor` | src/liblsquic/lsquic_bw_sampler.c:25-43 | Starts in the starting state of the sampler runs, app-limited |
| `BwSampler.Sampler.AppLimitedNow` | src/liblsquic/lsquic_bw_sampler.c:46-53 | Takes the step that starts an app-limited phase |
| `BwSampler.Sampler.PacketSent` | src/liblsquic/lsquic_bw_sampler.c:94-152 | Takes the sending step of the sampler runs on the object and the packet, which then carries exactly the state recorded for it; keeps the byte differences non-negative |
| `BwSampler.Sampler.PacketLost` | src/liblsquic/lsquic_bw_sampler.c:155-167 | Takes the loss step: the packet gives up its state and its sent size is counted lost, or nothing happens |
| `BwSampler.Sampler.PacketAcked` | src/liblsquic/lsquic_bw_sampler.c:170-262 | Takes the ack step; returns a sample exactly when that step makes one, with the largest bandwidth that both of its intervals allow, and the time from sending to ack as RTT |
| `Minmax.EstimateIsRecentMax` | src/liblsquic/lsquic_minmax.c:67-132 | The estimate is zero before the first measurement; then it is a measurement at most a window old, not below any that came since it, and not below any measurement of the last window that was a peak when it came |
| `Minmax.PeakIsHeld` | src/liblsquic/lsquic_minmax.c:67-132 | A measurement that was not below the estimate when it came holds the estimate up for the whole window |
| `Minmax.UpMaxHolds` | src/liblsquic/lsquic_minmax.c:113-132 | An update lowers the estimate only when the window has passed since it was taken |
| `Minmax.UpMaxAtLeast` | src/liblsquic/lsquic_minmax.c:113-132 | No update leaves the estimate below the new measurement |
| `Minmax.UpMaxKeepsChoices` | src/liblsquic/lsquic_minmax.c:113-132 | Every update keeps the three choices in order of time, each the largest since it was taken |
| `Minmax.UpMaxIsLargest` | src/liblsquic/lsquic_minmax.c:67-132 | After an update the estimate is the largest of the new measurement and the choices still within the window |
| `Minmax.UpMaxSpreads` | src/liblsquic/lsquic_minmax.c:67-109 | While the estimate lives, past a quarter of its window the second choice is a later measurement, and past half of it the third is later still or the second is new |
| `Minmax.EveryUpdateSpreads` | src/liblsquic/lsquic_minmax.c:67-132 | So it is at every update of every run of the filter |
| `BbrRuns.WindowAlwaysInBounds` | src/liblsquic/lsquic_bbr.c:763-988 | In every state of every run the window reported is between the minimum and the maximum, in all modes and recovery phases |
| `BbrRuns.ModesFollowFullBandwidth` | src/liblsquic/lsquic_bbr.c:633-837 | In every state of every run DRAIN and PROBE_BW imply full bandwidth, STARTUP excludes it, and it implies a sample that was not app-limited |
| `BbrRuns.BetweenReinits` | src/liblsquic/lsquic_bbr.c:633-944 | Without re-initialization in between: once full bandwidth is reached STARTUP never returns, before that the window never shrinks, and it never grows by more than the bytes acked |
| `BbrRuns.WindowEarnedByAcks` | src/liblsquic/lsquic_bbr.c:906-944 | Without re-initialization the window is at most the initial one plus all bytes acked |
| `BbrRuns.FullBwAssertionHolds` | src/liblsquic/lsquic_bbr.c:660-668 | The assertion made when full bandwidth is declared cannot fail |
| `BbrRuns.StayEndsExactly` | src/liblsquic/lsquic_bbr.c:783-837 | A stay in PROBE_RTT ends at an ACK if and only if that ACK is at least 200 ms after the one at which in flight first fell under the probe window plus a packet, and a round started since; the exit is to PROBE_BW exactly at full bandwidth |
| `BbrRuns.StayClock` | src/liblsquic/lsquic_bbr.c:799-834 | During a stay the exit time and the round flag say when in flight first fell below and whether a round started since |
| `BbrRuns.StayKeepsWindow` | src/liblsquic/lsquic_bbr.c:906-910 | A stay in PROBE_RTT leaves the stored window alone |
| `BbrRuns.EndAckKeeps` | src/liblsquic/lsquic_bbr.c:992-1050 | The end of an ACK keeps every invariant; the window grows by at most the bytes acked and shrinks only at full bandwidth |
| `BbrRuns.StepKeeps` | src/liblsquic/lsquic_bbr.c:334-1050 | So does every event |
| `BbrPath.EstimateIsRecentSample` | src/liblsquic/lsquic_bbr.c:444-468 | In every state of every run, with the samples recorded since the last re-initialization defined from the run: the bandwidth estimate is zero if there are none, else one of them, at most ten rounds older than the latest, not below any since it and not below any peak of those ten rounds |
| `BbrPath.FilterOfSamples` | src/liblsquic/lsquic_bbr.c:444-468 | In every state of every run the filter is what the maximum filter makes of exactly those samples, in order and with their rounds |
| `BbrPath.EstimateCoversAck` | src/liblsquic/lsquic_bbr.c:444-468 | The estimate after an ACK of any run is not below any of its samples that is not app-limited, nor below a single sample of either kind |
| `BbrPath.RoundsAreCounted` | src/liblsquic/lsquic_bbr.c:1008-1017 | The round count is the number of ACKs since the last re-initialization that acked past the end of their round |
| `BbrPath.EpochCountsBytes` | src/liblsquic/lsquic_bbr.c:540-564 | In every state of every run the aggregation epoch began with the latest ACK before which bytes came no faster than the estimate, and its bytes are those acked since |
| `BbrPath.AckHeightIsExcess` | src/liblsquic/lsquic_bbr.c:540-566 | The ack-height filter is what the maximum filter makes of the excesses of acked over expected bytes at the ACKs that continued an epoch |
| `BbrPath.RunMinRttIsRecentMin` | src/liblsquic/lsquic_bbr.c:458-498 | At every ACK of every run that brings samples, the minimum RTT afterwards is at most the RTT of each, and was taken or confirmed at most ten seconds before |
| `BbrPath.MinRttIsLeastSample` | src/liblsquic/lsquic_bbr.c:458-498 | In every state of every run the minimum RTT is the RTT of a sample of the ACK that renewed it last, and not above that of any sample since; it is zero while none has |
| `BbrPath.RenewsIff` | src/liblsquic/lsquic_bbr.c:470-498 | The tests on the smallest RTT of the samples renew the minimum if and only if some sample has an RTT and there was no minimum, its RTT is smaller, or the minimum is older than ten seconds |
| `BbrPath.RecoveryStartsWithLoss` | src/liblsquic/lsquic_bbr.c:504-536 | Recovery is entered, in conservation, if and only if an ACK that acks bytes reports a loss |
| `BbrPath.RecoveryEndsExactly` | src/liblsquic/lsquic_bbr.c:504-536 | Recovery ends if and only if an ACK without a loss acks a packet sent after the latest loss was reported; until then it goes from conservation to growth exactly when a round starts |
| `BbrPacing.GainsFollowMode` | src/liblsquic/lsquic_bbr.c:571-741 | In every state of every run the pacing and window gains are those of the mode, and in PROBE_BW those of the place in the cycle |
| `BbrPacing.PacingRateNeverFalls` | src/liblsquic/lsquic_bbr.c:842-901 | Before full bandwidth, and without re-initialization, the pacing rate never falls |
| `BbrPacing.StepGains` | src/liblsquic/lsquic_bbr.c:842-901 | One step of a run keeps the gains of the mode. At full bandwidth, and with an estimate that is not zero, the pacing rate is the estimate times the gain; before, it is the initial window per round trip first and then the larger of itself and the estimate times the gain; without an estimate it stays |
| `BbrModes.ProbeRttEnteredIff` | src/liblsquic/lsquic_bbr.c:783-797 | In every run PROBE_RTT is entered if and only if an ACK that acked bytes brought a sample more than ten seconds after the known minimum RTT was last renewed by a sample or confirmed by leaving PROBE_RTT |
| `BbrModes.StampIsLatest` | src/liblsquic/lsquic_bbr.c:470-498 | In every state of every run the age of the minimum RTT counts from the latest such step since re-initialization; without one no minimum is known |
| `BbrModes.ModeAfterAck` | src/liblsquic/lsquic_bbr.c:719-741 | Otherwise STARTUP lasts until full bandwidth, DRAIN until in flight is down to the target at gain one, and PROBE_BW goes on; one ACK may pass through DRAIN |
| `BbrModes.FullBandwidthIff` | src/liblsquic/lsquic_bbr.c:633-672 | In every run full bandwidth is reached if and only if three checks in a row found the estimate less than a quarter above the latest one that had grown; a check is a round start whose last sample was not app-limited |
| `BbrModes.PlateauIsCounted` | src/liblsquic/lsquic_bbr.c:633-672 | The counters of that test are the ones counted over the run since re-initialization |
| `BbrModes.LastSampleIs` | src/liblsquic/lsquic_bbr.c:444-456 | Whether the last sample was app-limited is what the last sample of the latest ACK with samples said |
| `BbrModes.CycleMovesOnIff` | src/liblsquic/lsquic_bbr.c:572-620 | In every run a phase of the gain cycle gives way to the next if and only if it drains and in flight is down to the target, or it has lasted a minimum RTT since the ACK that began it and, if it probes, there was a loss or in flight reached its target |
| `BbrModes.CycleBeginsAnywhereButDraining` | src/liblsquic/lsquic_bbr.c:688-706 | PROBE_BW begins with one of the seven phases that do not drain, picked by the random byte |
| `BbrModes.WindowMoves` | src/liblsquic/lsquic_bbr.c:906-944 | At the end of an ACK of any run, outside PROBE_RTT: before full bandwidth the window grows by all bytes acked while it is below its target or less than the initial window was ever acked, and otherwise stays; at full bandwidth it grows by them up to the target and the ack height, or falls to those at once |
| `BbrModes.ReportedWindow` | src/liblsquic/lsquic_bbr.c:763-778 | In every state of every run the window reported is the least one in PROBE_RTT, in recovery the smaller of the two windows, and otherwise the congestion window |
| `BbrModes.RecoveryWindowMoves` | src/liblsquic/lsquic_bbr.c:949-988 | In every run the recovery window is what is in flight and was acked on entering; then it shrinks by what is lost, grows in growth by what is acked, and stays at least what is in flight and was acked and the least window |
| `BbrModes.TargetIsGainTimesBdp` | src/liblsquic/lsquic_bbr.c:231-300 | The target window is the gain times the product of bandwidth and round-trip time, rounded down, at least the least window; the gain times the initial window while the product comes to nothing |
| `BbrAcks.AckIsOfItsEvents` | src/liblsquic/lsquic_bbr.c:334-403 | In every state of every run the time, bytes acked and lost, losses, largest packet number and samples of the latest ACK are those of the events since it was opened |
| `BbrAcks.RoundIsOfItsEvents` | src/liblsquic/lsquic_bbr.c:358-374 | The last number sent and the end of the round are those of the latest send, and of the latest send before the ACK that started the round or recovery |
| `BbrAcks.RoundStartsIff` | src/liblsquic/lsquic_bbr.c:1008-1017 | In every run an ACK starts a round if and only if it acks bytes and a packet numbered above the last one sent when the current round began, or that had no valid number |
| `BbrAcks.SamplerFollowsRun` | src/liblsquic/lsquic_bbr.c:334-386 | In every state of every run the sampler has run over exactly the sends, acks and losses of the run and the app-limited phases begun by a send with room in the window or an ACK in PROBE_RTT, so that the sampler theorems hold here |
| `BbrAcks.AckSampleIsSlowerRate` | src/liblsquic/lsquic_bbr.c:334-354 | So the bandwidth of every sample of a run is the largest rate that both counts over those events allow |
| `BbrSender.Sender.constructor` | src/liblsquic/lsquic_bbr.c:167-216 | The object starts in the starting state of the runs the theorems are about |
| `BbrSender.Sender.Reinit` | src/liblsquic/lsquic_bbr.c:167-227 | Takes the re-initialization step of a run and keeps the invariant: the sampler and the recovery state stay |
| `BbrSender.Sender.GetWindow` | src/liblsquic/lsquic_bbr.c:763-778 | The window reported: within bounds, the least one in PROBE_RTT, in recovery the smaller of the two windows, otherwise the congestion window |
| `BbrSender.Sender.PacketSent` | src/liblsquic/lsquic_bbr.c:315-374 | Takes the sending step of a run on the object, its sampler and the packet, and keeps the invariant |
| `BbrSender.Sender.PacketLost` | src/liblsquic/lsquic_bbr.c:378-386 | Takes the loss step of a run and keeps the invariant |
| `BbrSender.Sender.StartAck` | src/liblsquic/lsquic_bbr.c:390-403 | Takes the step that opens an ACK and keeps the invariant |
| `BbrSender.Sender.PacketAcked` | src/liblsquic/lsquic_bbr.c:334-354 | Takes the step for one acked packet, with its sample if there is one, and keeps the invariant |
| `BbrSender.Sender.TakeSamples` | src/liblsquic/lsquic_bbr.c:444-468 | The loop over the samples equals folding them in order into flags, bandwidth filter and smallest RTT, and touches nothing else of the path |
| `BbrSender.Sender.UpdateBandwidthAndMinRtt` | src/liblsquic/lsquic_bbr.c:438-499 | Refines the measuring stage of the step; a sample that was not app-limited is never forgotten, and an expired minimum RTT is dated now |
| `BbrSender.Sender.UpdateRecoveryState` | src/liblsquic/lsquic_bbr.c:504-536 | Refines the recovery stage: a loss means recovery until past the last packet sent, and without one recovery ends exactly when a later packet is acked |
| `BbrSender.Sender.UpdateAckAggregation` | src/liblsquic/lsquic_bbr.c:540-567 | Returns by how much the bytes of the epoch exceed those the estimate allows; none exactly when a new epoch starts with this ACK, otherwise the epoch grows by it and the filter is at least that high |
| `BbrSender.Sender.UpdateGainCyclePhase` | src/liblsquic/lsquic_bbr.c:572-620 | Refines the cycling stage: moves to the next phase exactly when the condition of the run theorem holds, and keeps the gain that of the place in the cycle |
| `BbrSender.Sender.CheckIfFullBwReached` | src/liblsquic/lsquic_bbr.c:633-672 | Refines the full-bandwidth stage: it is declared only at the third round without growth and after a sample that was not app-limited, the source assertion being proved where it stands |
| `BbrSender.Sender.MaybeExitStartupOrDrain` | src/liblsquic/lsquic_bbr.c:719-741 | Refines the stage: never leaves STARTUP with full bandwidth, leaves DRAIN only with in flight down to the target, and touches no other mode |
| `BbrSender.Sender.MaybeEnterOrExitProbeRtt` | src/liblsquic/lsquic_bbr.c:783-837 | Refines the PROBE_RTT stage, sampler included: enters exactly when the minimum RTT has expired, with pacing gain one, and moves the PROBE_RTT clock as the stay theorems need |
| `BbrSender.Sender.CalculatePacingRate` | src/liblsquic/lsquic_bbr.c:842-901 | Refines the pacing stage: at full bandwidth the estimate times the gain; before, the initial window per round trip first and then no fall and the estimate times the gain when that is more |
| `BbrSender.Sender.CalculateCwnd` | src/liblsquic/lsquic_bbr.c:906-944 | Refines the window stage: stays in bounds, grows by all the bytes acked below the target, at full bandwidth up to the target and the ack height, and does not change in PROBE_RTT |
| `BbrSender.Sender.CalculateRecoveryWindow` | src/liblsquic/lsquic_bbr.c:949-988 | Refines the recovery-window stage: at least the minimum and what is in flight and acked, shrinks by no more than what is lost, grows by what is acked in growth, and in conservation not beyond |
| `BbrSender.Sender.FinishAck` | src/liblsquic/lsquic_bbr.c:992-1050 | The whole end of an ACK is one step of the runs the theorems are about, and keeps the invariant |
| `Fnv.Accumulator.Times` | src/liblsquic/lsquic_crypto.c:98-132 | For all factors: the product modulo 2^128, less 2^64 where a carry is lost; so it is the product if and only if the two shifted middle terms do not overflow the low word |
| `Fnv.SmallFactorLosesNothing` | src/liblsquic/lsquic_crypto.c:98-132 | A factor whose low word is below 2^32 loses no carry |
| `Fnv.SomeFactorLosesCarry` | src/liblsquic/lsquic_crypto.c:121-123 | A factor that does |
| `Fnv.ProductByLimbs` | src/liblsquic/lsquic_crypto.c:100-113 | The partial products the code forms make up the product, up to multiples of 2^128 |
| `Fnv.PortableInc` | src/liblsquic/lsquic_crypto.c:134-144 | The portable loop computes FNV-1a on 128 bits for every input |
| `Fnv.NativeInc` | src/liblsquic/lsquic_crypto.c:68-76 | So does the native one |
| `Fnv.PortableHash3` | src/liblsquic/lsquic_crypto.c:147-156 | The three-part portable hash is the hash of the concatenation |
| `Fnv.NativeHash3` | src/liblsquic/lsquic_crypto.c:78-89 | And so is the native one, so the two agree on every input |
| `Fnv.ShortFormsAgree` | src/liblsquic/lsquic_crypto.c:91-165 | Both serialize a hash to the same 12 bytes on a little-endian machine |
| `Fnv.ShortBytes` | src/liblsquic/lsquic_crypto.c:91-95 | These are its low twelve bytes, lowest first |
| `Fnv.Parameters` | src/liblsquic/lsquic_crypto.c:136-151 | The prime is 2^88 + 0x13b and the offset basis the published one |
| `Fnv.HashOfA` | src/liblsquic/lsquic_crypto.c:68-76 | The hash of "a" is the published one |
| `ArtFeedback.NextIsTowardBand` | src/liblsquic/lsquic_art_feedback.c:57-69 | Exactly when the redundancy r goes up (r(n-k) < n) or down (r(n-k) >= 2n) for k losses among n feedbacks |
| `ArtFeedback.WalksToTheBand` | src/liblsquic/lsquic_art_feedback.c:57-69 | The redundancy after any number of calls with a fixed window, in closed form: straight to the nearer edge of the band, one per call, no overshoot, and then still |
| `ArtFeedback.Settles` | src/liblsquic/lsquic_art_feedback.c:57-69 | It settles at some r with n <= r(n-k) < 2n and stays |
| `ArtFeedback.GrowsForever` | src/liblsquic/lsquic_art_feedback.c:57-69 | With nothing but losses it grows by one at every call |
| `ArtFeedback.Next` | src/liblsquic/lsquic_art_feedback.c:57-69 | One call never goes below one and moves by at most one |
| `ArtFeedback.NextByCount` | src/liblsquic/lsquic_art_feedback.c:57-69 | For any number k of losses among n feedbacks: up if and only if r(n-k) < n, down if and only if r(n-k) >= 2n, and down to one without feedback |
| `ArtFeedback.LossesAreOnes` | src/liblsquic/lsquic_art_feedback.c:79-87 | The losses counted are the feedbacks of value one |
| `ArtFeedback.Controller.constructor` | src/liblsquic/lsquic_send_ctl.c:364-383 | Empty window, and redundancy 2i-1 in round i |
| `ArtFeedback.Controller.RecordFeedback` | src/liblsquic/lsquic_send_ctl.c:1213-1234 | The window is always the last ten feedbacks of the whole history |
| `ArtFeedback.Controller.ReplicaLossRate` | src/liblsquic/lsquic_art_feedback.c:71-91 | The share of feedbacks of value one among the last ten of the whole history, zero when there are none |
| `ArtFeedback.Controller.DuplicateNumber` | src/liblsquic/lsquic_art_feedback.c:57-69 | With k ones among the last n <= 10 feedbacks of the history the redundancy r of the round goes up by one if and only if r(n-k) < n, down by one if and only if r(n-k) >= 2n, and down to one without feedback; no other round changes |

## Left out

- Buffers that are part of a struct (`db_set`, `db_data`, frame buffers, `sc_rounds_map`) are sequence-valued fields of the object, and linked lists and buckets are sequences of objects: update in place is modelled, aliasing between list links is not.
- The scalar fields of `struct lsquic_bbr` are grouped into a few records.
- BbrPath.EstimateCoversAck: asks that the round count is below 2^64.
- BbrPath.EstimateIsRecentSample: asks that the round count is below 2^64.
- Memory allocation always succeeds, except where the source passes the failure on unchanged and nothing else happens; a failed allocation in the FIFO write, which leaves its size behind the stored bytes, is not modelled.
- Overflow of byte counters, offsets, packet numbers and times past 64 bits; wrap-around is modelled in bitmap words, FNV words, filter and cycle times, and the RTT of a sample.
- Gains and ART's rates are real numbers: floating-point rounding is not modelled, a product that is assigned to an integer is truncated.
- `check_efficiency` and the other hints that suggest a switch; switches may happen at any moment instead.
- A stream with HTTP headers that the reader has not read yet, where a read after FIN still hands out the headers; a reader that filters DATA frames.
- The reader asks for readable bytes only between frames, not between get and done, since the query moves the hash handler's last block.
- Freeing of packets and frames by the caller, memory accounting, dumps and logging.
- HPACK encoding: a header block arrives as chunks of bytes. Header frames without a payload byte, a frame size of zero and a settings frame size below six are outside the working range of the writer.
- `lsquic_frame_writer_flush`, `write_priority` and the checks of header names and sizes.
- zlib: a pair of functions of dictionary and bytes, the second inverting the first. That deflate reports an error for an empty certificate is part of zlib and not modelled.
- The contents of the common certificate sets and substrings: any sets with distinct hashes and fewer than 2^32 certificates each; completeness of the search asks for sorted sets.
- CrtCodec.DecompressCerts: is stated for 1 to 9999 certificates and for input that the counting walk accepts, as the source asserts of its caller.
- CrtCodec.ParseEntry: the hashes of held certificates are computed up front, not at the first cached entry.
- `lsquic_attq_count_before`, which is only a lower bound, and the reason a tick was scheduled.
- Attq.Queue.Add: is for a connection that is in no queue, as all callers ensure.
- BBR options that no code turns on (rate-based startup, slower startup, probe RTT by bandwidth-delay product, extending the minimum RTT, drain to target, ack aggregation in startup, exiting quiescence, flexible app-limited), what the two fields that only these options read mean, and the query for the pacing rate.
- BbrSender.Sender.FinishAck: the connection's minimum RTT and the random byte for the gain cycle are parameters.
- BwSampler.Sampler.PacketSent: the warn-once flag and the abort of the connection when memory runs out are not modelled.
- ArtFeedback.Controller.DuplicateNumber: is for rounds 1 to 19; the source indexes an array of 20 without a check, and round zero, which starts wrapped around, belongs to no lost packet.
- `lsquic_cubic.c`, `lsquic_adaptive_cc.c`, the sample programs, cryptography, packet parsing, QPACK, the event loop and all other files of the library.
