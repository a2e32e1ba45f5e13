# SG2002 small-core firmware: a verified model

The firmware runs on the small core of an SG2002. It enumerates a USB bus through a DWC2 controller, negotiates
a UVC video stream, gathers JPEG frames from isochronous packets, parses their headers, loads the tables into the
JPEG unit, and shares a UART and a mailbox with the big core. This project models the parts of it in which
something can go wrong, and proves what they do.

Hardware is modelled by what the code can see of it: a schedule of channel outcomes, a stream of micro-frames, the
answers of hubs and devices, arbitrary words written by the other core. The theorems hold for all of them, but for
what their contracts say: exactly-once delivery supposes a device and a controller that keep to the data-toggle rules,
and exclusion by the line lock has the two side conditions named below.
State that the source changes in place is a class here, and each of its methods is tied to a function on
values; the lemmas are about those functions. Verify with `dafny verify dfyconfig.toml`.

## Files

| part | files |
|---|---|
| Canonical Huffman tables and codes | `Huffman.dfy`, `HuffmanDecode.dfy` |
| JPEG header: specification, printer and meaning, parser | `JpegHeader.dfy`, `JpegPrinter.dfy`, `JpegMeaning.dfy`, `JpegTables.dfy`, `JpegTruncated.dfy`, `JpegParser.dfy` |
| JPEG unit: plane layout and start, table selectors, table upload, from header to upload | `JpuLayout.dfy`, `JpuGeometry.dfy`, `JpuSelectors.dfy`, `JpuUpload.dfy`, `JpuMeaning.dfy`, `JpuPrinted.dfy` |
| JPEG unit memory | `Allocator.dfy`, `AllocatorPool.dfy`, `WordBits.dfy` |
| USB channel and control transfers | `Dwc2.dfy`, `UsbErrors.dfy`, `UsbChannel.dfy`, `UsbControl.dfy` |
| USB tree walk | `TreeWalk.dfy`, `TreeNumbering.dfy`, `TreeExclusive.dfy` |
| UVC descriptors and stream negotiation | `UvcDescriptor.dfy`, `UvcMeaning.dfy`, `UvcSelection.dfy`, `UvcFrameChoice.dfy`, `UvcParser.dfy`, `UvcStream.dfy`, `UvcAlternates.dfy` |
| UVC frame assembly | `FrameSpec.dfy`, `FrameTurns.dfy`, `FrameCapture.dfy`, `FrameGaps.dfy` |
| Cross-core line lock and mailbox | `LineLock.dfy`, `LineLockTurn.dfy`, `Mailbox.dfy` |
| Arithmetic, options and results used throughout | `Arith.dfy`, `Wrappers.dfy` |

## Where the code does less than it is meant to

Each of these is proved with the exact condition under which the code does what is wanted, and with an input for
which it does not.

- The mark for "no code of this length", 0xFFFF, is also the all-ones 16-bit code. A table that uses that code
  cannot decode its last symbol (`EverySymbolDecodesIff`, `LastOfFullTableLost`). ITU-T T.81 reserves the code.
- A frame header with other than three components loses its sampling factors and table selectors, unless they are
  those already in force (`ComponentsKeptIff`, `GreySelectorLost`).
- A luma plane of 65536 by 65536 bytes counts as zero in 32 bits, and the check against the output buffer passes
  for a buffer that is too small (`GuardSufficesIff`, `HugeFrameUncounted`).
- A Huffman table with more values than the unit has room for makes the upload longer than 540 words; tables
  lie where the unit expects them iff each fills its room exactly (`WordsExactIff`, `InPlaceIff`,
  `ThirteenDcValuesTooLong`).
- A Huffman table goes into the slot that the lowest bits of its class and number name, so a table numbered 2 takes
  the place of table 0. The table in force under a name is the one printed last under it iff the last one alike says
  the same; with classes and numbers of 0 and 1 it always is (`NamedTableInForceIff`, `TableTwoReplaces`).
- A header cut short within its scan header is accepted, with the data offset that the whole of it would have. It is
  refused iff it is cut before the end of the scan's length field (`CutHeaderRefusedIff`).
- Strides and rows follow the sampling factors for every size iff these are 4:2:0, 4:2:2, 4:4:0 or 4:4:4 with chroma
  sampled once; any other sampling is laid out as if it were one of them (`FollowsIff`, `FourOneOne`).
- Table selectors are recorded up to 15, but the unit is given one bit for each. It is told the tables that the scan
  names iff no selector exceeds 1 (`SelectorsReadBackIff`, `SelectorSpills`).
- The pool's base is rounded up without shortening the pool, so the pool may end past the memory it was given. The
  firmware's own does, by 0x2000 bytes, and its only allocation takes all of it (`StaysInsideIff`,
  `FirmwarePoolEscapes`). A buffer at address 0 is never released (`FreeUndoesAllocIff`, `ZeroIsNeverFreed`).
- The retry loop of a transfer can reach its end, which the source declares unreachable (`FallthroughIff`,
  `FallsThrough`).
- A port whose reset took but whose clean-up request fails is passed over, with its device still at address 0; the
  next port reset then brings up a second one there (`ExclusiveIff`, `TwoAtZero`). Over a tree of
  ports and devices that may all fail, no two ever meet there iff no port but the last one reset is such
  (`ExclusiveTreeIff`).
- `frame_rank` is documented to prefer the frame nearest to the preferred area. Without an exact match it prefers the
  smallest, with one exception: a frame of more pixels than the preferred area plus 2^31 wraps around to the top
  and is chosen first (`SmallestIsChosenIff`, `GiantWins`). The frame chosen is a nearest one iff no area listed lies
  strictly between the one chosen and its mirror image in the preferred area (`NearestIff`, and for frames
  of fewer than 2^31 pixels `NearestAmongDrawableIff`; `FartherWins`).
- An exact match is documented to rank highest. It is chosen iff no frame listed outranks it by a condition on areas
  (`ExactWinsIff`). For every preference there is a list for which it is not (`NoPreferenceIsSafe`, `GiantWins`);
  among frames of fewer than 2^31 pixels that takes a preferred area of at least 2000000
  (`ExactSafeAmongDrawableIff`).
- The table of alternate settings is documented to hold those of one endpoint, but it takes in every isochronous IN
  endpoint of every streaming interface. Each choice is a setting of the selected endpoint iff all entries that are
  the first of their width are (`ChoicesOwnIff`, `OtherInterfaceChosen`).
- An interval range with its ends the wrong way round panics in `clamp` (`ChooseFrameInterval`, `ReversedRangePanics`).
- `LAST_EOF_FID` stores the FID of the packet that ended the wait, not that of the frame. It is stale iff the FID has
  turned an even number of times by the end of the frame (`StaleIff`); one dropped fragment does it
  (`StoredFidCanBeStale`).
- A frame that ends with the turn of the FID has consumed the first packet of the next frame. A clean next frame is
  captured whole iff that did not happen and its FID is not the one stored, which is decided by the parity of the
  turns (`NextFrameCapturedIff`, `SecondFrameLost`). If the first packet held the only SOI, the next capture times out
  at the end of that frame, or skips it if the stored FID is stale (`TurnCostsNextFrame`). The four rounds of `capture_frame` never repeat (`Camera.CaptureFrame`).
- The line lock excludes if and only if nobody breaks in and no handler runs between main's raising its flag and
  its setting `LOCK_HELD` (`MutualExclusionIff`, `IsrInWindowBreaks`, `ForcedEntryBreaks`).

## Model

| member | source | states |
|---|---|---|
| Huffman.HuffTable.constructor | src/drivers/jpu/header.rs:171-180 | a new table has the arrays that belong to an empty list of lengths |
| Huffman.HuffTable.Generate | src/drivers/jpu/header.rs:182-208 | fills MINCODE, MAXCODE and VALPTR for any BITS with the closed forms First, First + bits - 1 and Prior, and the marks for empty lengths |
| Huffman.FirstBound | src/drivers/jpu/header.rs:184-206 | for all byte counts the running code stays below 2^32 and the pointer below 255 per length, so u32 arithmetic never wraps |
| Huffman.FirstIsWeightedSum | src/drivers/jpu/header.rs:187-206 | the first code of length i+1 is the sum of bits[j] * 2^(i-j) over the shorter lengths |
| Huffman.CanonicalCode | src/drivers/jpu/header.rs:187-206 | the code that Annex C of ITU-T T.81 numbers for symbol k is MINCODE of its length plus its rank in that length |
| Huffman.CodesFitIffKraft | src/drivers/jpu/header.rs:187-206 | all codes fit their lengths iff the Kraft sum is at most 2^16 |
| Huffman.SentinelIffAllOnes | src/drivers/jpu/header.rs:47-49 | the 0xFFFF mark equals the code of a non-empty length iff the all-ones 16-bit code is in use |
| Huffman.PrefixFree | src/drivers/jpu/header.rs:187-206 | no generated code is a prefix of a later one |
| HuffmanDecode.DecodeOne | src/drivers/jpu/header.rs:182-208 | DECODE of figure F.16 over the generated arrays reads exactly one code and returns its value, whatever follows |
| HuffmanDecode.RoundTrip | src/drivers/jpu/header.rs:182-208 | for every usable list of lengths without the all-ones code, decoding the encoding of any run of symbols gives back their values |
| HuffmanDecode.AllOnesLost | src/drivers/jpu/header.rs:47 | DECODE never finds the symbol that owns the all-ones code |
| HuffmanDecode.EverySymbolDecodesIff | src/drivers/jpu/header.rs:47-208 | every symbol of a usable table decodes iff the all-ones 16-bit code is unused |
| HuffmanDecode.LastOfFullTableLost | src/drivers/jpu/header.rs:46-208 | one code of each length to 15 and two of 16: a usable table with a symbol that does not decode |
| JpegHeader.StepAt | src/drivers/jpu/header.rs:258-392 | one round of the loop moves strictly forward or ends |
| JpegHeader.DhtUpdate | src/drivers/jpu/header.rs:397-432 | a table segment ends in a record or in an index out of range, never in an error text |
| JpegHeader.DqtUpdate | src/drivers/jpu/header.rs:434-472 | a quantisation segment ends in a record or in an index out of range, never in an error text |
| JpegPrinter.SegmentStep | src/drivers/jpu/header.rs:275-390 | a printed segment of any kind takes the parser to its last byte and changes the record as the segment says |
| JpegPrinter.HuffsParsed | src/drivers/jpu/header.rs:405-429 | any list of printed Huffman tables is read in order, each into the slot of its class and number; which slot that is says JpegTables |
| JpegPrinter.QuantsParsed | src/drivers/jpu/header.rs:442-469 | any list of printed quantisation tables, of 8 or 16 bits, is read in order |
| JpegPrinter.ItemsParsed | src/drivers/jpu/header.rs:258-392 | any list of segments with any number of fill bytes between them is read in order |
| JpegPrinter.HeaderRoundTrip | src/drivers/jpu/header.rs:254-395 | parsing any printed header followed by any bytes gives exactly its meaning, with ecs_offset the printed length |
| JpegMeaning.HuffInForce | src/drivers/jpu/header.rs:409-426 | after any sequence of segments a slot holds the last table printed for it, or what it held before; by class and number in JpegTables |
| JpegMeaning.QuantInForce | src/drivers/jpu/header.rs:444-468 | the same for quantisation tables |
| JpegTables.PrintedTableInForce | src/drivers/jpu/header.rs:120-122 | with classes and numbers of 0 and 1, slot 2 * Th + Tc of the parsed record holds the last table printed under exactly that Tc and Th, or nothing |
| JpegTables.AlikeTableInForce | src/drivers/jpu/header.rs:120-122 | for any class and number, that slot holds the last table printed under a class and number with the same lowest bits |
| JpegTables.NamedTableInForceIff | src/drivers/jpu/header.rs:120-122 | for any class and number the slot holds the last table printed under them iff the last one alike has the same lengths and values |
| JpegTables.TableTwoReplaces | src/drivers/jpu/header.rs:120-122 | DC tables 0 and 2 in one segment: the last one alike to DC 0 is table 2 |
| JpegTruncated.CutHeaderRefusedIff | src/drivers/jpu/header.rs:258-392 | every printed header cut short, anywhere, ends in an error text and never in a panic iff it is cut before the end of the scan's length field; later it parses, with the whole length as data offset |
| JpegMeaning.ComponentsKeptIff | src/drivers/jpu/header.rs:285-312 | whatever the record held before, components are recorded as printed iff there are three of them, or they are sampled 1x1 with the selectors already in force |
| JpegMeaning.GreySelectorLost | src/drivers/jpu/header.rs:308-312 | a one-component 640x480 frame with table 1 is recorded with table 0 |
| JpegMeaning.ParsedTableDecodes | src/drivers/jpu/header.rs:254-432 | from printed header to data: the parsed table in a slot, through its generated arrays, decodes any run encoded with the printed one |
| JpegParser.QuantTable.Read | src/drivers/jpu/header.rs:446-464 | the 64 coefficients are those of the segment, in either width, as far as the data goes |
| JpegParser.JpegHeaderInfo.constructor | src/drivers/jpu/header.rs:224-251 | the record starts out as the initial header |
| JpegParser.JpegHeaderInfo.ReadComponents | src/drivers/jpu/header.rs:289-294 | the three component entries |
| JpegParser.JpegHeaderInfo.ReadSelectors | src/drivers/jpu/header.rs:342-353 | the selectors of up to three scan components, the others unchanged |
| JpegParser.JpegHeaderInfo.ParseSof | src/drivers/jpu/header.rs:281-312 | the record after a frame header is the specified one |
| JpegParser.JpegHeaderInfo.ParseDri | src/drivers/jpu/header.rs:372-375 | the record after a restart-interval segment |
| JpegParser.JpegHeaderInfo.ParseSos | src/drivers/jpu/header.rs:342-356 | the record after a scan header, with the offset of the entropy-coded data |
| JpegParser.JpegHeaderInfo.ReadTableInto | src/drivers/jpu/header.rs:411-426 | one table read in place, its arrays regenerated, or a panic exactly when values run past 256 |
| JpegParser.JpegHeaderInfo.ReadSlot | src/drivers/jpu/header.rs:406-426 | the table goes into the slot of its Tc and Th and no other changes |
| JpegParser.JpegHeaderInfo.ParseDht | src/drivers/jpu/header.rs:397-432 | the in-place loop leaves the record that DhtUpdate gives, and panics iff it does |
| JpegParser.JpegHeaderInfo.ReadQuantSlot | src/drivers/jpu/header.rs:443-468 | one table into the buffer that Tq names, or a panic exactly for Tq of 4 or more with data present |
| JpegParser.JpegHeaderInfo.ParseDqt | src/drivers/jpu/header.rs:434-472 | the in-place loop leaves the record that DqtUpdate gives, and panics iff it does |
| JpegParser.JpegHeaderInfo.Round | src/drivers/jpu/header.rs:258-392 | one round of the loop does what StepAt says |
| JpegParser.ParseJpegHeader | src/drivers/jpu/header.rs:254-395 | the imperative parser returns what Parse specifies, on every byte string |
| JpuLayout.CompInfoReadsBackIff | src/drivers/jpu/decoder.rs:165-177 | all sampling factors can be read back from comp_info iff none exceeds 3 |
| JpuSelectors.ConfigurePicture | src/drivers/jpu/decoder.rs:227-238 | the loop shifts in the selectors of the three components, and the word holds three bits of each index |
| JpuSelectors.SelectorsReadBackIff | src/drivers/jpu/decoder.rs:227-238 | all table selectors can be read back from the picture control word iff none exceeds 1 |
| JpuSelectors.SelectorSpills | src/drivers/jpu/decoder.rs:227-238 | selectors 0, 2, 0 read back as 1, 0, 0 |
| JpuLayout.FrameLayout | src/drivers/jpu/decoder.rs:140-200 | the layout in 32-bit arithmetic, with comp_info and block count accumulated over the components |
| JpuGeometry.FollowsIff | src/drivers/jpu/decoder.rs:141-163 | for legal factors and every size, strides and rows are the least whole MCUs that cover the frame, with chroma in proportion, iff the sampling is one of four |
| JpuGeometry.FourOneOne | src/drivers/jpu/header.rs:296-306 | 4:1:1 at 640x480 is taken for 4:4:4 and laid out wrongly |
| JpuGeometry.PlanesFollow | src/drivers/jpu/decoder.rs:141-163 | for a countable frame of the four samplings: luma is stride times rows of whole MCUs, each chroma plane its share by the factors, the total their sum |
| JpuGeometry.GreyPlanes | src/drivers/jpu/decoder.rs:141-163 | a grey frame is whole 8x8 blocks and has no chroma |
| JpuGeometry.BlocksOf | src/drivers/jpu/decoder.rs:166-177 | the block count is the sum over the components of the products of their factors |
| JpuGeometry.StartedIff | src/drivers/jpu/decoder.rs:73-84 | a countable frame is started iff its three planes, by strides and rows, fit the buffer |
| JpuLayout.PlanesFitStridesIff | src/drivers/jpu/decoder.rs:141-163 | luma size is stride times rows, and has room for the image, iff that product is below 2^32; then chroma size is chroma stride times chroma rows |
| JpuLayout.GuardSufficesIff | src/drivers/jpu/decoder.rs:73-84 | a buffer that passes the size check has room for all three planes iff the luma product is below 2^32 |
| JpuLayout.PlaceFrame | src/drivers/jpu/decoder.rs:74-95 | the hardware is started only on consecutive, disjoint planes inside the buffer, and the registers hold their bases |
| JpuLayout.GramSetup | src/drivers/jpu/decoder.rs:362-407 | the two pages fetched and the word and bit pointers written, from the data offset |
| JpuLayout.PointersFindData | src/drivers/jpu/decoder.rs:364-394 | the pointers address the byte at stream + ecs_offset in the internal buffer, and the bytes after it follow to the end of the second page |
| JpuUpload.Word16Iff | src/drivers/jpu/decoder.rs:263-279 | a code word is the 32-bit sign extension of its low 16 bits iff the code has no more bits or bit 15 is set; the code can be read back |
| JpuUpload.Word8Extends | src/drivers/jpu/decoder.rs:287-309 | pointer and value words are the sign extensions of their bytes |
| JpuUpload.UsableCodesExtend | src/drivers/jpu/decoder.rs:259-292 | for every usable table all code and pointer words uploaded are sign extensions |
| JpuUpload.DataOfUpload | src/drivers/jpu/decoder.rs:256-318 | the data register sees all minima, then maxima, pointers and values, each in table order 0, 2, 1, 3 |
| JpuUpload.WordsExactIff | src/drivers/jpu/decoder.rs:294-314 | the data register receives exactly 540 words iff the surpluses and shortfalls of the four tables cancel |
| JpuUpload.InPlaceIff | src/drivers/jpu/decoder.rs:296-314 | every table's values lie at the unit's offset for them iff no table has a surplus or shortfall |
| JpuUpload.FullWordsExactIff | src/drivers/jpu/decoder.rs:294-314 | for tables read whole: 540 words, all in place, iff no DC table counts more than 12 values and no AC table more than 162 |
| JpuUpload.JpuRegs.WriteCodes | src/drivers/jpu/decoder.rs:262-267 | appends the words of one array, in order |
| JpuUpload.JpuRegs.WriteValues | src/drivers/jpu/decoder.rs:296-313 | appends the counted values and the filler of one table, or panics exactly when the count runs past the values |
| JpuUpload.JpuRegs.WriteCodeTables | src/drivers/jpu/decoder.rs:261-268 | appends one kind of array of all four tables in the unit's order |
| JpuUpload.JpuRegs.WriteCodeSection | src/drivers/jpu/decoder.rs:259-292 | the phase and address of one kind, and its arrays |
| JpuUpload.JpuRegs.WriteValueTables | src/drivers/jpu/decoder.rs:296-314 | the same for the values; panics iff one of the tables does |
| JpuUpload.JpuRegs.UploadHuffTables | src/drivers/jpu/decoder.rs:256-318 | the register log grows by exactly the specified upload |
| JpuMeaning.PrintedTablesUpload | src/drivers/jpu/decoder.rs:64-88 | after parsing any printed header the upload does not panic, and is 540 words long iff every table fits its room |
| JpuMeaning.HugeFrameUncounted | src/drivers/jpu/decoder.rs:140-163 | the printed 65535x65535 frame, all sampled 1x1, parses to a header whose luma plane counts as 0 bytes |
| JpuMeaning.ThirteenDcValuesTooLong | src/drivers/jpu/decoder.rs:296-313 | the printed DC table of thirteen values of four bits parses to one that sends thirteen, one too many, and misses 540 words |
| JpuPrinted.PrintedTablesSent | src/drivers/jpu/decoder.rs:256-318 | from a printed baseline header to the data register: 540 words, at their places MINCODE, MAXCODE, VALPTR and values of the tables printed last as DC 0, DC 1, AC 0 and AC 1, sign-extended, all ones where there is none |
| JpuPrinted.UploadWrites | src/drivers/jpu/decoder.rs:256-318 | the upload is the four sections of the data in turn, under phases 0x003, 0x403, 0x803 and 0xC03, with addresses 0x440 and 0x880 before the second and third, and phase 0 at the end |
| Allocator.LowestFitIff | src/drivers/jpu/mem.rs:61-87 | the search returns the lowest run of n free pages, and nothing iff there is none |
| Allocator.InitMeans | src/drivers/jpu/mem.rs:47-55 | a new pool has up to 64 free pages of 16 KiB from the first page boundary on |
| Allocator.AllocMeans | src/drivers/jpu/mem.rs:59-88 | an allocation is page-aligned, just large enough, the lowest that fits, inside the pool, and clears exactly its pages; None iff no run fits |
| Allocator.FreeUndoesAllocIff | src/drivers/jpu/mem.rs:90-103 | releasing an allocation restores every bit iff it is empty or does not start at address 0 |
| Allocator.AllocSound | src/drivers/jpu/mem.rs:59-88 | an allocation keeps live buffers placed, disjoint and exactly the cleared bits |
| Allocator.FreeSound | src/drivers/jpu/mem.rs:90-103 | so does a release |
| Allocator.AnyHistory | src/drivers/jpu/mem.rs:47-103 | after any history of allocations of any size and releases of live buffers: live buffers aligned, inside the pool, pairwise disjoint, and a bit is clear iff a live buffer covers its page |
| Allocator.StaysInsideIff | src/drivers/jpu/mem.rs:47-50 | no allocation leaves the memory given at initialisation iff the bytes cut from its end cover those skipped at its start |
| Allocator.FirmwarePoolEscapes | src/platform.rs:53-54 | with the firmware's pool, its one allocation of 0x40000 bytes ends 0x2000 bytes past the pool |
| Allocator.ZeroIsNeverFreed | src/drivers/jpu/mem.rs:23-25 | a page at address 0 stays taken when it is released |
| AllocatorPool.JpuMemoryPool.constructor | src/drivers/jpu/mem.rs:37-44 | the pool starts without pages |
| AllocatorPool.JpuMemoryPool.InitWith | src/drivers/jpu/mem.rs:47-55 | all pages of the clamped, rounded size are free |
| AllocatorPool.JpuMemoryPool.Take | src/drivers/jpu/mem.rs:59-88 | the single-pass search over bitmap words returns and clears what Alloc specifies |
| AllocatorPool.JpuMemoryPool.ClearRun | src/drivers/jpu/mem.rs:73-76 | clears the bits of one run and no others |
| AllocatorPool.JpuMemoryPool.Release | src/drivers/jpu/mem.rs:90-103 | sets the bits that Free specifies |
| WordBits.OneBit | src/drivers/jpu/mem.rs:65-101 | setting or clearing bit i of a 64-bit word changes bit i alone |
| UsbChannel.RetryLoop | src/drivers/usb/dwc2/channel.rs:122-160 | how the retry loop ends, from any attempt and budget, against any sequence of snapshots |
| UsbChannel.XferDoneIff | src/drivers/usb/dwc2/channel.rs:114-161 | at most 65 attempts; Ok iff only retried attempts, at most 8 of them transaction errors, precede a clean completion |
| UsbChannel.XferEnds | src/drivers/usb/dwc2/channel.rs:114-161 | in the bits of the snapshots: which attempts are tried again, at most 64, and which result or error the last one decides, STALL before XACTERR before NAK before a missing XFERCOMPL |
| UsbChannel.FallthroughIff | src/drivers/usb/dwc2/channel.rs:126-160 | the end of the loop is reached iff the 65th attempt is a transaction error, with budget left and all before it retried |
| UsbChannel.FallsThrough | src/drivers/usb/dwc2/channel.rs:126-160 | 64 NAKs and a transaction error reach the end of the loop |
| UsbChannel.TakenOnce | src/drivers/usb/dwc2/channel.rs:114-161 | under every schedule of NAKs, lost packets and lost handshakes a retried OUT packet is taken at most once, and exactly once if the transfer completes |
| UsbChannel.ControlPackets | src/drivers/usb/dwc2/control.rs:86-109 | retried SETUP and status packets act as if sent once |
| UsbControl.NormalizeMps | src/drivers/usb/dwc2/control.rs:286-291 | the packet size is the byte itself if it is 8, 16, 32 or 64, and 8 otherwise |
| UsbControl.Controller.Arm | src/drivers/usb/dwc2/channel.rs:89-111 | one attempt sends the packet that registers and DMA window describe and reports what the host sees |
| UsbControl.Controller.Xfer | src/drivers/usb/dwc2/channel.rs:114-161 | the loop ends as the specified transfer does, and every attempt of it writes the same size and PID |
| UsbControl.Controller.Copy | src/drivers/usb/dwc2/control.rs:268-270 | copies bytes into the DMA window and changes nothing else of it |
| UsbControl.ControlEp.SetupStage | src/drivers/usb/dwc2/control.rs:86-97 | the eight request bytes go out as one SETUP transfer |
| UsbControl.ControlEp.StatusStage | src/drivers/usb/dwc2/control.rs:100-109 | a zero-length DATA1 transfer in either direction |
| UsbControl.ControlEp.Write | src/drivers/usb/dwc2/control.rs:252-282 | the loop over chunks with alternating toggles, and STATUS after it, is the specified control write |
| UsbControl.ControlEp.WriteNoData | src/drivers/usb/dwc2/control.rs:203-206 | a SETUP transfer and, if it completes, the status transfer, with result, device and time |
| UsbControl.ControlEp.SetAddress | src/drivers/usb/dwc2/control.rs:154-161 | at address 0 the request goes out as such a transfer, and the handle moves iff it completes; elsewhere nothing is sent |
| UsbControl.NoDataWriteReaches | src/drivers/usb/dwc2/control.rs:203-206 | under every schedule a request without data that completes reached the device and was confirmed by STATUS; one that fails may have reached it |
| UsbControl.DataStageExact | src/drivers/usb/dwc2/control.rs:259-279 | the data stage delivers the packets up to where it stopped in order and once, the one it stopped at at most once |
| UsbControl.StopsAtPacket | src/drivers/usb/dwc2/control.rs:260-279 | a failing data stage stops at a multiple of the packet size |
| UsbControl.ControlWriteIsPlay | src/drivers/usb/dwc2/control.rs:252-282 | a write of at most 4096 bytes is its packets in turn, SETUP, chunk k with DATA1 iff k is even, STATUS as an IN of DATA1, up to the first failure, whose result it returns; a longer one sends nothing |
| UsbControl.ControlWriteDoneIff | src/drivers/usb/dwc2/control.rs:252-282 | Done iff at most 4096 bytes and SETUP, every chunk and STATUS each complete on the schedule after those before them |
| UsbControl.NoDataWriteDoneIff | src/drivers/usb/dwc2/control.rs:203-206 | Done iff SETUP and STATUS complete in turn |
| UsbControl.ControlWriteExactlyOnce | src/drivers/usb/dwc2/control.rs:252-282 | a control write that succeeds was accepted exactly and the device saw STATUS; one that fails left the device untouched or with exactly the completed packets, with or without one more, and with STATUS seen only if they are all of the data |
| TreeWalk.WalkPorts | src/drivers/usb/hub.rs:162-169 | for arbitrary answers the mutual recursion terminates, on addresses left and then ports left, and addresses only grow |
| TreeWalk.Walker.EnumerateDevice | src/drivers/usb/device.rs:41-65 | one enumeration: an address is used up before SET_ADDRESS is sent |
| TreeWalk.Walker.EnumeratePort | src/drivers/usb/hub.rs:107-138 | one port: which failures mean "nothing here" |
| TreeWalk.Walker.ConnectResetSequence | src/drivers/usb/hub.rs:92-97 | the reset takes even when the request that follows it fails |
| TreeWalk.Walker.WalkSubtree | src/drivers/usb/hub.rs:144-171 | the loop over the ports is the specified walk, ended by the first hard failure |
| TreeWalk.Walker.WalkOne | src/drivers/usb/hub.rs:162-169 | one port and everything behind it; an empty port is passed over |
| TreeWalk.Walker.DispatchDevice | src/drivers/usb/hub.rs:208-231 | hubs are walked, other devices go to a driver |
| TreeWalk.Walker.EnumerateRoot | src/drivers/usb/root.rs:78-98 | the walk from the root port, where "nothing here" becomes an error |
| TreeNumbering.AddressesConsecutive | src/drivers/usb/device.rs:43-47 | on any bus whatever, the k-th device enumerated gets address 1 + k, at most 126; no two share one |
| TreeNumbering.WalkIsPass | src/drivers/usb/hub.rs:107-231 | for every finite tree of ports and devices, any of which may fail in any of their requests, the recursive walk resets and enumerates the same, with the same addresses and the same result, as one pass over the occupied ports in preorder up to the first device failure |
| TreeNumbering.PreorderNumbering | src/drivers/usb/hub.rs:144-231 | when no device fails, the devices behind ports that let the walk in get the addresses from 1 in preorder, as many as 126; the walk succeeds iff the root device is let in and there are no more, and otherwise ends with an empty root port or a full address space |
| TreeNumbering.DispatchFinds | src/drivers/usb/hub.rs:208-231 | the walk behind a device is a pass over the ports behind it, unless its descriptor or driver fails |
| TreeExclusive.PortOrderly | src/drivers/usb/hub.rs:107-169 | in every walk no port is reset twice, and a reset device that is not stranded is addressed before anything else happens, or the walk ends |
| TreeExclusive.ExclusiveIff | src/drivers/usb/hub.rs:119-129 | on any bus two devices are never at address 0 together iff no port is reset after a device was stranded there |
| TreeExclusive.ExclusiveTreeIff | src/drivers/usb/hub.rs:107-171 | for any tree, ports and devices failing as they may: two devices are never at address 0 together iff none but the last port to be reset keeps its device there; all occupied ports are reset, in preorder, if the walk succeeds |
| TreeExclusive.EveryResetFindsZeroFree | src/drivers/usb/hub.rs:107-138 | if no request fails after a reset and SET_ADDRESS works when it says so, every reset finds address 0 free |
| TreeExclusive.TwoAtZero | src/drivers/usb/hub.rs:119-122 | a hub that fails to clear one reset change ends up with two devices at address 0, in a walk that reports success |
| UvcDescriptor.BestIs | src/drivers/usb/uvc/descriptor.rs:421-437 | the running comparison keeps the first element that no other beats |
| UvcMeaning.IntervalIsNearest | src/drivers/usb/uvc/descriptor.rs:79-120 | the interval chosen is supported and no supported one is nearer to the preference; 0 iff none is supported |
| UvcMeaning.FrameInterval | src/drivers/usb/uvc/descriptor.rs:211-306 | a frame's interval is the supported one nearest to the preference; without one the start of its range, or the least of its list and its default |
| UvcMeaning.ReversedRangePanics | src/drivers/usb/uvc/descriptor.rs:104-106 | an interface and a 38-byte frame descriptor whose range runs from 2 to 1 stop the parse for any interval preference |
| UvcFrameChoice.ListedShortSides | src/drivers/usb/uvc/descriptor.rs:216-217 | every frame listed has 16-bit sides, so the statements below are about all of them |
| UvcFrameChoice.RankMeans | src/drivers/usb/uvc/descriptor.rs:311-328 | for all 16-bit sides the rank is that of an exact match, or the preferred area less the frame's, taken less 2^32 when it is oversized |
| UvcFrameChoice.SmallestSeenIsChosen | src/drivers/usb/uvc/descriptor.rs:311-328 | without an exact match the frame chosen is the first of least area, oversized areas counting as negative |
| UvcFrameChoice.SmallestIsChosenIff | src/drivers/usb/uvc/descriptor.rs:321-327 | without an exact match the frame chosen is the first of the smallest iff all frames are oversized or none is |
| UvcFrameChoice.NearestIff | src/drivers/usb/uvc/descriptor.rs:309-327 | without an exact match the frame chosen is nearest in area iff no area listed lies strictly between that of the smallest, or of the smallest oversized, and its mirror image in the preferred area |
| UvcFrameChoice.NearestAmongDrawableIff | src/drivers/usb/uvc/descriptor.rs:309-327 | the same for frames of fewer than 2^31 pixels, with the least area listed |
| UvcFrameChoice.FartherWins | src/drivers/usb/uvc/descriptor.rs:321-327 | 160x120 beats 640x360 for a preference of 640x480 |
| UvcFrameChoice.ExactWinsIff | src/drivers/usb/uvc/descriptor.rs:317-327 | in any list of 16-bit frames the exact match is chosen iff no other frame outranks it, by its area and the preferred one |
| UvcFrameChoice.NoPreferenceIsSafe | src/drivers/usb/uvc/descriptor.rs:317-327 | for every 16-bit preference some list of two has an exact match that is not chosen |
| UvcFrameChoice.ExactSafeAmongDrawableIff | src/drivers/usb/uvc/descriptor.rs:317-327 | among frames of fewer than 2^31 pixels an exact match is always chosen iff the preferred area is below 2000000, or too large to be matched by one |
| UvcFrameChoice.GiantWins | src/drivers/usb/uvc/mod.rs:34-38 | for the firmware's 640x480 a 65535x65503 frame displaces the exact match, and a 160x120 frame |
| UvcMeaning.SelectMeans | src/drivers/usb/uvc/descriptor.rs:398-477 | over the frames and endpoints parsed: a stream is selected iff nothing panics and both exist; MJPEG iff any of the frames is, first maximum of the rank in its kind; the first endpoint of maximum payload |
| UvcSelection.SelectedWhen | src/drivers/usb/uvc/descriptor.rs:398-457 | in the bytes of the descriptors: a panic iff a frame has a reversed range; a stream iff there are a frame descriptor and an isochronous IN endpoint in streaming interfaces; which of them is reported missing |
| UvcSelection.SelectedFrame | src/drivers/usb/uvc/descriptor.rs:211-307 | the frame selected is what some descriptor says, its index, sides, format and nearest interval read from their bytes; MJPEG iff any frame descriptor has subtype 7; none of its kind ranks higher |
| UvcSelection.SelectedEndpoint | src/drivers/usb/uvc/descriptor.rs:333-365 | the endpoint selected is what some descriptor says, with the number and setting of the interface it stands under; no other has a larger packet |
| UvcSelection.OnlyTotalCounts | src/drivers/usb/uvc/descriptor.rs:373-381 | bytes behind the total length change nothing |
| UvcSelection.TicksOf | src/drivers/usb/uvc/descriptor.rs:40-42 | durations become whole units of 100 ns |
| UvcMeaning.ChainTiles | src/drivers/usb/uvc/descriptor.rs:153-159 | the walk cuts the configuration into consecutive descriptors and stops only where no whole one begins |
| UvcMeaning.ChainLengths | src/drivers/usb/uvc/descriptor.rs:153-159 | each descriptor is as long as its bLength says |
| UvcParser.Desc.Ty | src/drivers/usb/uvc/descriptor.rs:162-164 | the type byte of the descriptor itself |
| UvcParser.Desc.Byte | src/drivers/usb/uvc/descriptor.rs:166-168 | a byte field read within the descriptor's own bytes, or None |
| UvcParser.Desc.Short | src/drivers/usb/uvc/descriptor.rs:170-173 | a 16-bit field within the descriptor's own bytes, or None |
| UvcParser.Desc.Word | src/drivers/usb/uvc/descriptor.rs:175-184 | a 32-bit field within the descriptor's own bytes, or None |
| UvcParser.NewDesc | src/drivers/usb/uvc/descriptor.rs:153-159 | the view is the head of the rest of the chain |
| UvcParser.ChooseFrameInterval | src/drivers/usb/uvc/descriptor.rs:79-120 | the loop chooses the specified interval, and panics iff a range ends before it begins |
| UvcParser.MinimumInterval | src/drivers/usb/uvc/descriptor.rs:220-236 | the least interval listed |
| UvcParser.ParseVsFrame | src/drivers/usb/uvc/descriptor.rs:211-307 | one frame descriptor as specified: skipped, picked or a panic; what is picked says UvcSelection |
| UvcParser.IsochCandidates.Consider | src/drivers/usb/uvc/descriptor.rs:333-365 | keeps the first endpoint of greatest payload and the first eight alternates, in place |
| UvcParser.OneDescriptor | src/drivers/usb/uvc/descriptor.rs:404-443 | one descriptor changes the context, gives a frame or feeds the endpoints, as specified |
| UvcParser.WalkDescriptors | src/drivers/usb/uvc/descriptor.rs:378-477 | the walk over the buffer selects what the chain of descriptors determines |
| UvcParser.ParseUvcVideoStream | src/drivers/usb/uvc/descriptor.rs:368-477 | the whole parse, with its errors, is a function of the chain |
| UvcStream.OneOrder | src/drivers/usb/uvc/descriptor.rs:502-522 | the loop's two running choices amount to one order of preference |
| UvcStream.ReselectedMeans | src/drivers/usb/uvc/descriptor.rs:489-522 | the alternate chosen is the first smallest that covers the payload, or else the first largest |
| UvcStream.UvcStreamSelection.ReselectIsochAltForPayload | src/drivers/usb/uvc/descriptor.rs:489-531 | the loop updates alternate and packet size to that choice; nothing changes without alternates or need |
| UvcStream.UvcStreamSelection.BuildProbeCommitPayload | src/drivers/usb/uvc/stream.rs:17-38 | every field of the 34-byte block, the rest zero |
| UvcStream.EstimateCovers | src/drivers/usb/uvc/stream.rs:28-34 | the frame size asked for is one byte a pixel, two if uncompressed, of at least 640 by 480, or the largest 32-bit number |
| UvcStream.UvcStreamSelection.StartStream | src/drivers/usb/uvc/stream.rs:71-151 | the requests sent, in order; the first hard failure ends it; COMMIT is the camera's offer with the payload agreed, and the new state |
| UvcStream.CommitFits | src/drivers/usb/uvc/stream.rs:109-133 | bytes 22 to 26 of COMMIT are the negotiated size: the offer, or the non-zero bandwidth of the table entry chosen where that is less; all else as offered; the offer stands if some entry covers it |
| UvcAlternates.ChoicesOwnIff | src/drivers/usb/uvc/descriptor.rs:333-365 | for every offer the entry chosen is a setting listed for the selected endpoint of the selected interface iff every table entry that is the first of its width is one |
| UvcAlternates.OtherInterfaceChosen | src/drivers/usb/uvc/descriptor.rs:359-362 | two streaming interfaces of 1024 and 512 bytes: the first is selected, and for an offer of 500 the setting of the second is chosen |
| FrameSpec.GatheringMeans | src/drivers/usb/uvc/capture.rs:129-173 | while a frame is gathered, the bytes held are the payloads of the run since the last turn of the FID |
| FrameSpec.FrameMeans | src/drivers/usb/uvc/capture.rs:110-174 | a finished frame is the payloads, from the first that begins FF D8, of one contiguous run of same-FID packets from a turn of the FID; no EOF inside the run; FF D9 at its end |
| FrameSpec.PacketRoundTrip | src/drivers/usb/uvc/capture.rs:24-47 | a payload header printed with any FID, EOF, other flags and further fields is legal and reads as printed, with or without a payload |
| FrameSpec.LegalIsPrinted | src/drivers/usb/uvc/capture.rs:24-47 | every legal packet is one of these |
| FrameSpec.CleanFrameCaptured | src/drivers/usb/uvc/capture.rs:110-174 | whatever came before, a clean frame after a turn of the FID is captured whole |
| FrameTurns.StaleIff | src/drivers/usb/uvc/capture.rs:116-168 | what is stored is the FID of the packet that ended the wait; it differs from the frame's iff the FID has turned an even number of times among the reads up to the end of the frame |
| FrameTurns.StoredFidCanBeStale | src/drivers/usb/uvc/capture.rs:151-168 | one fragment FF D8 without EOI, then a frame: the stored FID is not the frame's |
| FrameTurns.TurnCostsNextFrame | src/drivers/usb/uvc/capture.rs:93-174 | after a frame ended by a turn, the rest of the next frame makes the next capture time out, or wait on if the stored FID is stale |
| FrameTurns.NextFrameCapturedIff | src/drivers/usb/uvc/capture.rs:89-174 | after any finished capture, the next clean frame on the wire is captured whole iff the last did not end with a turn and the next FID differs from the last just when the FID has turned an odd number of times |
| FrameTurns.SecondFrameLost | src/drivers/usb/uvc/capture.rs:93-174 | two complete frames, the first without EOF: the first is captured, the capture of the second times out |
| Dwc2.LowElevenBits | src/drivers/usb/dwc2/isoch.rs:19-21 | the packet size has the low eleven bits of the field and no others |
| FrameCapture.Camera.ReadUframe | src/drivers/usb/dwc2/isoch.rs:81-128 | one micro-frame as specified: an error, nothing, or its bytes, cut to the packet size, in the work area; which is which says FrameGaps |
| FrameCapture.ReadMeans | src/drivers/usb/dwc2/isoch.rs:67-75 | a read passes over micro-frames that bring nothing and takes the next one as it is, or times out when all it may look at bring nothing |
| FrameCapture.Camera.ReadPayload | src/drivers/usb/dwc2/isoch.rs:67-75 | the first of at most 80000 micro-frames that is not empty: its bytes, in the work area, or its error |
| FrameCapture.Camera.DmaWriteAt | src/drivers/usb/dwc2/dma.rs:57-68 | writes the bytes and no others, or fails past the end of the window |
| FrameCapture.Camera.TailIsEoi | src/drivers/usb/uvc/capture.rs:78-81 | whether the assembled bytes end FF D9 |
| FrameCapture.Camera.AppendPacket | src/drivers/usb/uvc/capture.rs:56-71 | appends a payload behind the assembled bytes, and changes no other byte of the window |
| FrameCapture.Camera.TakePacket | src/drivers/usb/uvc/capture.rs:136-172 | append and end test together are one step of the specification |
| FrameCapture.Camera.WaitForTurn | src/drivers/usb/uvc/capture.rs:117-127 | the wait ends at the first packet whose FID turned, or at an error, having read the micro-frames in order |
| FrameCapture.Camera.GatherOne | src/drivers/usb/uvc/capture.rs:146-173 | one round of the second loop is one step of the specification, on the next read |
| FrameCapture.Camera.TryFrame | src/drivers/usb/uvc/capture.rs:110-174 | the two loops end as the fold over the successive reads of the micro-frames does, with its bytes in the buffer |
| FrameCapture.Camera.CaptureFrame | src/drivers/usb/uvc/capture.rs:89-106 | one try decides: result and stored FID are those of a single fold over the successive reads, and only the frame area and the work area change |
| FrameGaps.NextReadIs | src/drivers/usb/dwc2/isoch.rs:67-128 | with never 80000 blank micro-frames in a row, blank meaning halted without STALL or AHBERR and missed, garbled, refused, incomplete or empty, the next read is the first that is not blank: STALL, bus error, a channel that does not halt, or bytes; a timeout when none is left |
| FrameGaps.BlanksUnseen | src/drivers/usb/dwc2/isoch.rs:109-117 | blanks inserted anywhere in the stream, short of 80000 in a row, change neither the reads of a capture nor its result and bytes |
| FrameGaps.LongGap | src/drivers/usb/dwc2/isoch.rs:67-75 | 80000 blanks in a row end the read in a timeout |
| LineLock.AlwaysInv | src/logger.rs:79-138 | the invariant of both cores, their handlers and their flags, over every interleaving and whatever turn holds |
| LineLock.NoNesting | src/logger.rs:73-83 | main and handler of one core never both hold the lock |
| LineLock.MutualExclusionIff | src/logger.rs:79-138 | in every interleaving of both cores and their handlers the two cores never both print, iff there is no forced entry and no handler inside main's acquire window |
| LineLock.IsrInWindowBreaks | src/logger.rs:84-92 | a handler that runs in the window lowers main's flag, and both cores get in |
| LineLock.ForcedEntryBreaks | src/logger.rs:120-123 | a core that has spun out breaks in on the one that prints |
| LineLock.WaitEnds | src/logger.rs:106-124 | each step of a wait uses some of it up, whatever the other core does; entry without permission only beyond the spin limit |
| LineLock.WaitBounded | src/logger.rs:101-124 | in every run a core takes fewer than 5 * (LOCK_SPIN_LIMIT + 1) + 4 steps of its own while it waits, whatever the other core and the handlers do |
| LineLock.SpinsAlwaysBounded | src/logger.rs:105-124 | in every run the spin count stays within its limit |
| LineLock.NeverBothBlocked | src/logger.rs:107-119 | when both cores yield to each other one of them may go on at once |
| LineLockTurn.TurnDecides | src/logger.rs:107-118 | a core that reads its own turn keeps its flag up; one that reads the other's lowers its flag with its next step |
| LineLockTurn.OwnerGoesIn | src/logger.rs:101-127 | in every interleaving of two waits, the core whose turn it is and whose flag is up goes in unforced once the other has taken four steps and then it two, while neither runs out of spins |
| LineLockTurn.SomeoneGoesIn | src/logger.rs:101-127 | the same from any point of both waits, after four steps of each: one of the two goes in |
| LineLockTurn.ContentionHappens | src/logger.rs:101-109 | such a contention is reached, with all spins to go |
| LineLockTurn.TurnIsGiven | src/logger.rs:130-138 | turn is written by a core that leaves, to the other, and by nothing else |
| LineLock.Words.LineLockWait | src/logger.rs:101-127 | against any words the loops end within the limit plus one rounds; in with flag and LOCK_HELD up, and against a raised flag only beyond the limit; the flag is lowered exactly after a raised flag and a turn that is not its own have been read |
| LineLock.Words.LookAtTurn | src/logger.rs:107-118 | one look at turn: with its own turn nothing but that read happens |
| LineLock.Words.GiveWay | src/logger.rs:109-118 | lowers the flag, reads turn until it is its own or the spins are used up, raises the flag |
| LineLock.Words.LineUnlock | src/logger.rs:130-138 | LOCK_HELD down, then turn to the other, then the flag down |
| LineLock.Words.LineLockTry | src/logger.rs:79-98 | never waits, and changes nothing while main holds the lock |
| Mailbox.ClaimedExactlyOnce | src/drivers/mailbox.rs:110-129 | in every interleaving the claims are the messages rung, each once, in order, with its own payload |
| Mailbox.NeverStranded | src/drivers/mailbox.rs:123-128 | a sender that still waits for its bit to clear has its message pending or in the handler's hands |
| Mailbox.RepliesFollowClaims | src/ipc.rs:110-118 | reply_seq counts the replies modulo 2^32; the replies are the claims in order, without the fifth of a handler entry |
| Mailbox.SwitchesFollow | src/ipc.rs:161-171 | pause and mute are what the messages acted on set, in order |
| Mailbox.SwitchesAre | src/ipc.rs:161-168 | in every run pause is on iff the last message 0xF049_50aa acted on has a non-zero aa, mute likewise by 0xF049_57aa; no other message changes them |
| Mailbox.ReplyWords | src/ipc.rs:110-118 | in every run, unless a reply is being written, the reply words hold the last message answered, marked valid |

## Left out

- Control reads (`src/drivers/usb/dwc2/control.rs:215-245`): what the IN packets hold is the device's business; only their status is part of the transfers modelled here.
- The device's own reaction to SET_ADDRESS in `UsbControl`: the device there has no address; addresses are followed in the tree walk.
- Devices that break the data-toggle rules of section 8.6 of USB 2.0, and controllers that report a completed OUT packet the device did not take: excluded by `Honest`.
- Port power and the waits of `walk_subtree`, `first_interface_class`, driver matching: they change no address and no order.
- TreeNumbering.PreorderNumbering: no device fails; `WalkIsPass` is the statement for devices that do, and `AddressesConsecutive` for buses that are no tree.
- `parse_uvc_control_entities`, the SETUP byte constructors and `uvc/control.rs`: straight-line field access.
- Descriptor logging, with its frame rates: output only.
- `upload_quant_tables` and the remaining register writes of the decoder: fixed copies; `mcu_info` packs fields without a property of its own.
- The register words of `upload_huff_tables` are numbers, and its `&`, `|` and shifts are written as remainders and sums.
- Polling for the end of a decode, resets and caches: hardware behaviour.
- Addresses and sizes of the allocator are unbounded: a pool that ends at the top of the 64-bit address space is not modelled. A second initialisation while buffers are live is not modelled.
- AllocatorPool.JpuMemoryPool.Release: the early return of `jpu_free` on an empty buffer is part of it.
- The buffers inside `HuffTable`, `QuantTable` and the endpoint candidates are sequence fields of their objects, updated element by element; the model says nothing of their addresses.
- FrameCapture.Camera.ReadUframe: what a failed micro-frame leaves in the work area is not said; micro-frames come from a finite list, at whose end the channel stops halting; delays and frame parity are not modelled.
- The line-lock words are sequentially consistent: the fences of the source are not modelled one by one. `print` inside the mailbox handler on drain overflow waits for the lock with `line_lock_wait`; a handler that waits is not modelled.
- Mailbox: the message that sets the input format of the IVE is answered like any other and changes no switch; `notify` and `doorbell_big` write one way only and are not modelled. Cache write-backs are not modelled.
- Real time, watchdog, UART output and the rest of the platform bring-up.
