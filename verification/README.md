# SubuwuTuner tools: verified models

Models of the analysis tools of the SubuwuTuner repository, with proofs of what they promise.
`dafny verify dfyconfig.toml` checks everything.

## Structure

| files | component |
|---|---|
| `Basics` | options, results, byte strings and their big-endian reading |
| `IsoTp`, `Reassembler`, `Segmentation`, `ReassemblySafety` | ISO-TP reassembly (section 9.6 of ISO 15765-2:2016) |
| `Transfers`, `TransferCodec`, `TransferWarnings`, `TransferExtraction`, `EndToEnd` | flash-transfer extraction (sections 14.2 to 14.5 of ISO 14229-1:2013), from image to CAN frames and back |
| `SecurityAccess` | seed and key exchanges (section 9.4 of ISO 14229-1:2013) |
| `Polls`, `PollCodec`, `PollOrder`, `PollExtraction`, `PollTraffic` | pairing and aggregating memory and DID polls, from CAN frames |
| `Connectivity`, `UnionFind`, `ClusterSurvey` | union-find with path halving, against connected components |
| `ToExpr` | reduction of conversion expressions to affine form |
| `Overlay`, `Inheritance`, `Flattened` | keyed, ordered tree merge and flattening of a base chain |
| `AxisRegistry` | the axis table and the axes of an extracted table |
| `RealAlgebra`, `Correlation`, `LeastSquares`, `Quantile`, `RankQuantile` | Pearson R squared, quantile resampling, rank-quantile matching |
| `Feistel`, `SeedKey`, `KnownKeys`, `Scaffold` | key arithmetic on 32-bit words |
| `Fields`, `Descriptor`, `Inventory` | interpolation descriptors: decoding and the ROM scan |
| `Runs`, `EditRuns`, `Siblings`, `Discover` | differing runs, clusters, patches, checksum discovery |
| `Checksum` | the modulo 2^16 image checksum |

Loops and objects that change state are methods and classes proved against functions on values; the
properties are lemmas about those functions. Python floats are `real`, cipher words are `bv32`, all
other integers are unbounded. Byte strings are sequences of integers below 256 (`bv8` in the ciphers).
`hide` statements keep a definition out of a proof that does not need it.

## Findings

Where the code does not do what it is for, each with a concrete input and the exact condition.

- An upload's data travels in the ECU's replies, and extraction takes payload from the request ID only
  (`tools/extract_uds_transfer.py:172-201`): an upload yields a transfer with an empty payload
  (`UploadLosesData`; exactly when, `EmptyPayloadExact`). Replies never influence the result
  (`RepliesIrrelevant`).
- A `63` reply is given to the first read in flight (`tools/extract_rmba_polls.py:177-188`), which is not
  always the oldest: re-polling an address keeps its old place (`RepollOvertakes`; exactly when,
  `OldestFirstExactly` over a trace and `StepOrder` per message).
- A second seed reply after the key is paired with the earlier key
  (`tools/extract_subaru_sa.py:187-244`; `StaleKey`; exactly when, `KeyAnswersSeed`).
- The pack format has no `axis_y` below two dimensions (`docs/11-definition-format.md:484`);
  `_extract_table` can leave one (`tools/defgen/defgen.py:1192-1217`; `SurplusAxis`; exactly when,
  `SurplusAxisExactly`).
- `scan` ends with an uncaught packing error when a descriptor's own address does not fit 32 bits
  (`tools/rom_interp_inventory.py:64`; `BelowZeroFails`; exactly when, `ScanFailsExactly`; never inside
  the 32-bit address space, `ScanInside`).
- `score_runs` documents a result sorted by length and returns address order
  (`tools/checksum_discover.py:117-150`; `NotSorted`; exactly when, `SortedExactly`).

Limits of what the tools can see:

- Losing Consecutive Frames never produces a message, but a loss can go unnoticed and leave a stale entry
  in flight (`tools/sniff_common.py:182-202`; exactly when, `LostFramesNeverEmit`).
- The scaffold's documentation bounds its table space by 32 bits of effective offset
  (`tools/solve_ssmcan1.py:61-69`); every offset occurs, so the bound is met exactly (`EveryOffset`).
- No offset can differ in every pair of more than 256 equally long images
  (`tools/checksum_discover.py:177-193`; `TooManyImages`).

## Model

| member | source | states |
|---|---|---|
| `IsoTp.StripSingle` | tools/sniff_common.py:66-81 | the single-frame reader and the reassembler agree on every non-empty Single Frame; the reader alone answers, with the empty message, a frame whose first byte is 0 |
| `IsoTp.StripExact` | tools/sniff_common.py:66-81 | the reader gives a message exactly for its length byte, the message itself and any padding |
| `IsoTp.DisregardedExact` | tools/sniff_common.py:121-205 | byte for byte, the frames that change nothing: flow control and above, empty or cut-short Single Frames, malformed First Frames |
| `Reassembly.Reassembler.Feed` | tools/sniff_common.py:121-205 | the mutable per-ID table refines the one-ID transition `IsoTp.Next`: new table and returned message, all other IDs untouched, entries never shared |
| `Reassembly.Reassembler.ReadFirst` | tools/sniff_common.py:135-167 | 12-bit and 32-bit escape First Frames: the declared length and carried bytes, or length 0 for a malformed one |
| `Reassembly.Reassembler.Start` | tools/sniff_common.py:165-180 | a First Frame replaces whatever was in flight on its ID; a message that fits it leaves at once |
| `Reassembly.Reassembler.Continue` | tools/sniff_common.py:182-202 | a Consecutive Frame in sequence extends its own message, any other drops it |
| `Reassembly.Reassembler.InFlightBytes` | tools/sniff_common.py:207-210 | the number of bytes collected so far, for exactly the IDs in flight |
| `Segmentation.SegmentationRoundTrip` | tools/sniff_common.py:121-202 | every legal segmentation (Single Frame, short or escape First Frame, padding, nibble wrap) of every payload returns nothing until its last frame, then exactly the payload, whatever was in flight before |
| `Segmentation.MessagesRoundTrip` | tools/sniff_common.py:121-202 | a sequence of segmented messages comes back message by message, with the time of each last frame |
| `Segmentation.ClassicSegments` | tools/sniff_common.py:121-202 | every payload of 1 to 2^32-1 bytes has a legal segmentation into 8-byte frames, so the round trip is not vacuous |
| `Segmentation.PrefixState` | tools/sniff_common.py:182-202 | the exact entry (bytes, next nibble) after every proper prefix of a segmentation |
| `ReassemblySafety.Interleaving` | tools/sniff_common.py:121-202 | under any interleaving the outputs and the entry of one ID are those of a fresh reassembler fed only its frames |
| `ReassemblySafety.PendingProvenance` | tools/sniff_common.py:121-202 | in every reachable state an entry is incomplete, its nibble is below 16, and its bytes are one First Frame plus a gap-free run |
| `ReassemblySafety.EmissionProvenance` | tools/sniff_common.py:121-202 | on arbitrary traces every emitted message has its declared length and is explained by one Single Frame, or one First Frame and a gap-free run |
| `ReassemblySafety.LostFramesNeverEmit` | tools/sniff_common.py:182-202 | losing any non-empty set of a message's Consecutive Frames never yields a message; the loss is noticed if and only if some surviving frame has a number of earlier losses that is not a multiple of 16 |
| `Transfers.Recovered` | tools/extract_uds_transfer.py:126-221 | on any message list the state machine gives exactly one transfer per well-formed request, in order, each the summary of its own session |
| `Transfers.WarningsExact` | tools/extract_uds_transfer.py:142-221 | the warnings, kind by kind, are as many as the irregularities of the capture, and there are none if and only if it is regular |
| `TransferWarnings.WarningsListed` | tools/extract_uds_transfer.py:142-221 | the whole warning list, values and order: what each message raises in the session open when it arrives, then the session left open at the end |
| `TransferCodec.RequestExact` | tools/extract_uds_transfer.py:98-123 | a request decodes to a format, widths, address and size if and only if it writes them: 34 or 35, 1 to 4 bytes per field, big-endian, anything after |
| `TransferCodec.IrregularCapture` | tools/extract_uds_transfer.py:142-221 | a concrete capture with all five warnings, its two transfers and the warnings' values |
| `TransferWarnings.GapsAttributed` | tools/extract_uds_transfer.py:180-193 | the gap warnings raised between a request and the next number exactly the gaps of that transfer's own block counters |
| `TransferWarnings.WrapsUnlessWarned` | tools/extract_uds_transfer.py:186-198 | with no gap warning in a transfer's own stretch its wrap count is (first counter + blocks - 1) / 256, whatever the rest of the capture holds |
| `TransferWarnings.CutExists` | tools/extract_uds_transfer.py:142-171 | every transfer has its stretch of the capture: from its request up to the next |
| `Transfers.Conservation` | tools/extract_uds_transfer.py:142-221 | received size = payload length = sum of that session's block bodies; if that session's own counters have no gap, its wrap count is (first counter + blocks - 1) / 256 |
| `Transfers.EmptyPayloadExact` | tools/extract_uds_transfer.py:172-201 | a transfer's payload is empty if and only if every block message of its session is two bytes long |
| `Transfers.UploadLosesData` | tools/extract_uds_transfer.py:142-221 | a concrete upload (35, 36 01, 36 02, 37): two blocks, 512 bytes declared, no payload, no warning |
| `Transfers.WrapsFrom` | tools/extract_uds_transfer.py:186-198 | a gap-free run of counters wraps (previous + length) / 256 times |
| `TransferExtraction.ExtractTransfers` | tools/extract_uds_transfer.py:126-221 | the frame loop over two live reassemblers and mutable transfers returns what `Transfers.Extract` says of the messages on the request ID |
| `TransferExtraction.Handle` | tools/extract_uds_transfer.py:142-206 | one message moves the mutable state as the reference transition does |
| `TransferExtraction.AddBlock` | tools/extract_uds_transfer.py:172-201 | a block extends the open transfer in place, with its warnings and wrap count |
| `TransferExtraction.RepliesIrrelevant` | tools/extract_uds_transfer.py:142-221 | captures that agree on the frames of the request ID extract alike, whatever else they hold |
| `EndToEnd.RequestDecodes` | tools/extract_uds_transfer.py:98-123 | a request written with any 1 to 4 byte address and size width decodes to that address and size |
| `EndToEnd.RoundTrip` | tools/extract_uds_transfer.py:98-221 | any list of jobs (what the tester's blocks carry, block split, start counter, widths, service ID), among messages of other services, segmented in any legal way, with flow control and malformed frames on the same ID and any frames on other IDs, is extracted exactly, with no warning; for downloads that is the image |
| `EndToEnd.SingleImageRoundTrip` | tools/extract_uds_transfer.py:98-221 | the same for one download: one transfer, its payload, address, sizes, block count and wraps |
| `EndToEnd.UploadReported` | tools/extract_uds_transfer.py:98-221 | an upload, whose blocks are bare counters: its address, declared size and block count are reported, with no data |
| `SecurityAccess.ExtractPairs` | tools/extract_subaru_sa.py:124-256 | the loop over mutable `pending_*` fields returns the pairs of the phase machine |
| `SecurityAccess.Collector.OnFrame` | tools/extract_subaru_sa.py:159-254 | in every reachable state the nullable fields encode one phase (key needs seed, seed needs request, one level), and one frame moves them as the phase machine does |
| `SecurityAccess.EventExact` | tools/extract_subaru_sa.py:159-254 | a frame counts as a request, seed, key, acknowledgement or refusal if and only if it is a Single Frame of exactly those bytes from the right ID |
| `SecurityAccess.WindowExact` | tools/extract_subaru_sa.py:159-254 | a window after a seed request yields a pair if and only if some acknowledgement completes the exchange: one pair, with the last seed and last key seen, that of the first such acknowledgement |
| `SecurityAccess.TraceExact` | tools/extract_subaru_sa.py:124-256 | the pairs of any trace are those of its completing windows, in order, and never outnumber the seed requests |
| `SecurityAccess.IrrelevantFrames` | tools/extract_subaru_sa.py:159-168 | deleting frames that are no SecurityAccess event changes nothing |
| `SecurityAccess.ExchangesRecovered` | tools/extract_subaru_sa.py:124-256 | complete exchanges among any unrelated frames are recovered exactly and in order |
| `SecurityAccess.KeyAnswersSeed` | tools/extract_subaru_sa.py:190-244 | a pair joins a key with the seed it was sent for if and only if no seed reply came between key and acknowledgement |
| `SecurityAccess.StaleKey` | tools/extract_subaru_sa.py:187-244 | a concrete trace in which a late second seed is paired with the earlier key |
| `Polls.RequestsConserved` | tools/extract_rmba_polls.py:133-204 | on every trace the decoded requests are, with multiplicity, the completed polls plus the in-flight ones a re-poll overwrote |
| `PollCodec.RmbaExact` | tools/extract_rmba_polls.py:80-98 | a memory read decodes to an address and a size if and only if it writes them: 23, both widths (1 to 4 bytes each), both fields big-endian, anything after |
| `PollCodec.RdbiExact` | tools/extract_rmba_polls.py:101-110 | an identifier read decodes to the two bytes after 22, high byte first, and nothing else decodes |
| `PollCodec.SaidReported` | tools/extract_rmba_polls.py:80-204 | a question and its answer, written out in bytes, are reported with exactly the address, size and value written |
| `PollCodec.QuestionEffect` | tools/extract_rmba_polls.py:139-170 | a question about something in flight takes the older poll's place; any other goes to the end |
| `PollCodec.MemoryReplyEffect` | tools/extract_rmba_polls.py:177-188 | a 63 reply completes the first memory read in flight with its value, and no other poll |
| `PollCodec.IdentifierReplyEffect` | tools/extract_rmba_polls.py:189-204 | a 62 reply completes the poll of its identifier, wherever it stands, and no other |
| `PollCodec.RejectionEffect` | tools/extract_rmba_polls.py:170-188 | a rejection completes every poll of its service, unanswered and in order, and keeps every other |
| `PollCodec.NoEffect` | tools/extract_rmba_polls.py:170-176 | response-pending replies and rejections of other services change nothing |
| `Polls.HalfDuplex` | tools/extract_rmba_polls.py:133-204 | on half-duplex traces, with other services, malformed requests and response-pending replies anywhere and a last request perhaps unanswered, every request is reported once, in order, with the value of its own reply |
| `Polls.NoiseIgnored` | tools/extract_rmba_polls.py:133-204 | messages that ask for no poll and end none change nothing but the list of malformed requests |
| `PollTraffic.HalfDuplexFrames` | tools/extract_rmba_polls.py:118-204 | the same frame by frame: both sides segmented in any legal way, one message at a time, with flow control, malformed frames and other IDs anywhere between |
| `PollTraffic.WrittenPolls` | tools/extract_rmba_polls.py:80-204 | from the frames up: reads of any address, size and widths, and of any identifier, are reported with exactly that address, size and value |
| `PollTraffic.EcuMessages` | tools/extract_rmba_polls.py:133-138 | the ECU side of the two-reassembler loop is the response ID's reassembled message stream |
| `PollOrder.AgesAreNumbers` | tools/extract_rmba_polls.py:139-188 | in every reachable state the age of a poll in flight is the number of the message that asked for it |
| `PollOrder.DrainExact` | tools/extract_rmba_polls.py:177-188 | the reads in flight stand by age if and only if answering them one by one takes the oldest each time |
| `PollOrder.StepOrder` | tools/extract_rmba_polls.py:139-204 | replies, rejections, DID polls and all other messages keep that order; a read request keeps it if and only if its address is not in flight or is the newest read in flight |
| `PollOrder.OldestFirstExactly` | tools/extract_rmba_polls.py:139-204 | on a trace reads are always due oldest first if and only if every read request on it meets that condition |
| `PollOrder.OldestAnswered` | tools/extract_rmba_polls.py:177-188 | along such a trace every memory reply completes the oldest read in flight |
| `Polls.RepollOvertakes` | tools/extract_rmba_polls.py:139-188 | a concrete trace in which a re-polled address takes the reply of an older read |
| `PollExtraction.ExtractPolls` | tools/extract_rmba_polls.py:118-220 | the frame loop over two reassemblers reports, per address in key order, the summary of the completed polls; counts add up to their number |
| `PollExtraction.AggregatePolls` | tools/extract_rmba_polls.py:206-220 | one record per polled key, sorted, with the counts, the request times and the first `max_samples` values |
| `PollExtraction.RecordExact` | tools/extract_rmba_polls.py:206-220 | a record, poll by poll: the request times of exactly the polls of its key, in order, and the first samples, up to the limit, of exactly those answered |
| `PollExtraction.CountsConserved` | tools/extract_rmba_polls.py:206-220 | the poll counts of the records add up to the completed polls |
| `PollExtraction.TesterMessages` | tools/extract_rmba_polls.py:133-138 | the tester side of the two-reassembler loop is the request ID's reassembled message stream |
| `UnionFind.UF.Find` | fixtures/private/cluster_survey.py:60-64 | path halving terminates, returns the root and leaves every element's root unchanged |
| `UnionFind.UF.Union` | fixtures/private/cluster_survey.py:66-69 | the new root map is the old one with the two classes merged |
| `UnionFind.HalvingKeepsRootMap` | fixtures/private/cluster_survey.py:60-64 | one halving step keeps the forest acyclic and every root |
| `UnionFind.HangingMerges` | fixtures/private/cluster_survey.py:66-69 | hanging one root under another moves exactly the elements of its class |
| `Connectivity.LabelsExact` | fixtures/private/cluster_survey.py:60-69 | a labelling kept by the merges gives two nodes one label if and only if a path of edges joins them |
| `Connectivity.MergeLabels` | fixtures/private/cluster_survey.py:66-69 | merging two labels keeps the labelling exact for one more edge |
| `ClusterSurvey.ClusterBucket` | fixtures/private/cluster_survey.py:81-101 | the clusters are exactly the connected components of the similarity graph, largest first and those of one size by their first IDs; the survey divides by zero exactly when a sample other than the last is empty |
| `ClusterSurvey.EqualBytesExact` | fixtures/private/cluster_survey.py:90-91 | the loop's sum is the number of positions both samples have and agree at |
| `ClusterSurvey.EdgesExact` | fixtures/private/cluster_survey.py:86-93 | two samples are joined if and only if the first is not empty and 100 times the number of agreeing positions is at least the threshold times its length |
| `ClusterSurvey.EdgesOnly` | fixtures/private/cluster_survey.py:86-93 | only pairs of IDs of the bucket, the earlier first, are joined |
| `ClusterSurvey.ClustersUnique` | fixtures/private/cluster_survey.py:94-101 | there is one such list of clusters |
| `ClusterSurvey.ClustersPartition` | fixtures/private/cluster_survey.py:94-101 | every ID is in exactly one cluster |
| `ClusterSurvey.SameCluster` | fixtures/private/cluster_survey.py:81-101 | two IDs share a cluster if and only if a chain of similar samples joins them |
| `ClusterSurvey.HigherThresholdRefines` | fixtures/private/cluster_survey.py:86-93 | a higher threshold only splits clusters |
| `ToExpr.SimplifySound` | tools/defgen/defgen.py:113-160 | an accepted expression is defined at every x and equals factor * x + offset there |
| `ToExpr.SimplifyExact` | tools/defgen/defgen.py:113-160 | an expression is accepted if and only if it and all its subexpressions are total affine functions of x |
| `ToExpr.RejectionJustified` | tools/defgen/defgen.py:144-160 | each product or quotient rejected is truly quadratic or undefined somewhere |
| `ToExpr.ParsedExactly` | tools/defgen/defgen.py:163-182 | a missing or blank attribute leaves every value as it is; the factor and offset returned for a parsed one are the only ones it denotes; marked and unparsable ones have none |
| `Overlay.OverlayAssociative` | tools/defgen/defgen.py:823-854 | overlaying three levels gives the same element, nesting and child order included, whichever pair is merged first; repeated keys included |
| `Overlay.OverlayDict` | tools/defgen/defgen.py:823-854 | the overlay has the merged attributes and, as its children, the keyed merge of the two child dictionaries |
| `Overlay.StripExact` | tools/defgen/defgen.py:716-734 | stripping takes white space off either end, all of it and nothing else |
| `Overlay.SpaceExact` | tools/defgen/defgen.py:716-734 | white space is exactly the ten ASCII characters Python strips |
| `Overlay.LowerExact` | tools/defgen/defgen.py:834-837 | lower-casing moves each capital 32 code points up and leaves all else |
| `Overlay.MergeAssociative` | tools/defgen/defgen.py:839-854 | the ordered keyed merge of child lists is associative |
| `Inheritance.BaseOnRom` | tools/defgen/defgen.py:716-734 | a non-blank base attribute on the rom names the base, whatever its romid says |
| `Inheritance.BaseInRomid` | tools/defgen/defgen.py:716-734 | failing that, a non-blank base child of the romid does, whatever the romid's attribute says |
| `Inheritance.BaseOnRomid` | tools/defgen/defgen.py:716-734 | failing both, a non-blank base attribute of the romid does |
| `Inheritance.NoBase` | tools/defgen/defgen.py:716-763 | with all three blank the rom has no base and is flattened to itself |
| `Inheritance.XmlidText` | tools/defgen/defgen.py:709-713 | the xmlid is the stripped text of the romid's first xmlid child |
| `Inheritance.NoXmlid` | tools/defgen/defgen.py:709-713 | without a romid, or an xmlid in it, the xmlid is empty |
| `Inheritance.OwnBase` | tools/defgen/defgen.py:737-763 | a rom that names itself as its base is refused as a cycle |
| `Inheritance.CycleExact` | tools/defgen/defgen.py:737-763 | flattening terminates, and fails if and only if the base chain comes back to an xmlid |
| `Inheritance.NearestWins` | tools/defgen/defgen.py:737-820 | every scaling attribute, and every attribute and child of a table or of a table nested in it to any depth, comes from the nearest rom of the chain that has it |
| `Flattened.ReadsAttribute` | tools/defgen/defgen.py:765-854 | what it means to have one: the last table of that name, down the last nested tables of those types, carries the attribute |
| `Flattened.ReadsChild` | tools/defgen/defgen.py:765-854 | likewise for a whole child, the last with its tag |
| `Flattened.ReadsScaling` | tools/defgen/defgen.py:803-818 | likewise for an attribute of the last scaling of that name |
| `Flattened.ScalingsPileUp` | tools/defgen/defgen.py:857-866 | a flattened scaling has the children of all its definitions along the chain, the farthest rom's first |
| `Flattened.FlattenedOrder` | tools/defgen/defgen.py:796-819 | a flattened rom lists its tables, and its scalings, in the order of the farthest rom, then what each nearer one adds, none twice |
| `Flattened.OwnAttributes` | tools/defgen/defgen.py:765-767 | a flattened rom keeps its own attributes |
| `Inheritance.MergeReads` | tools/defgen/defgen.py:765-820 | one merge: what the child says stands, what it leaves open comes from the parent |
| `Inheritance.ChainIsAncestry` | tools/defgen/defgen.py:709-763 | the chain walked is exactly the sequence of bases |
| `Inheritance.RomIdMerged` | tools/defgen/defgen.py:769-785 | the merged romid exists if and only if the child has one; each field is the child's, else the parent's |
| `AxisRegistry.Pack.FindOrRegister` | tools/defgen/defgen.py:1250-1305 | the mutable axis table changes as `Resolve` says; an error leaves it as it was |
| `AxisRegistry.Pack.RegisterAxes` | tools/defgen/defgen.py:1162-1190 | the loop over nested axes leaves each side with the last registered id |
| `AxisRegistry.Pack.ExtractTable` | tools/defgen/defgen.py:1119-1217 | the table appended has resolving axes, earlier tables and axes are untouched |
| `AxisRegistry.Registered` | tools/defgen/defgen.py:1250-1305 | ids stay distinct, entries are only appended, the returned id names an axis of the requested length, address, data type and scaling; failure if and only if the id and all 99 alternatives are taken by axes that differ in one of these |
| `AxisRegistry.ResolvedExactly` | tools/defgen/defgen.py:1276-1305 | a free id is given out unchanged; an id with the same four values is reused and nothing added; otherwise the first alternative not taken is found again or filled, never the id itself |
| `AxisRegistry.AlternativesDiffer` | tools/defgen/defgen.py:1289-1293 | the alternatives of an id are distinct, and none is the id itself |
| `AxisRegistry.DecimalReads` | tools/defgen/defgen.py:1289-1293 | the numbers in alternative ids are in decimal, without leading zeros |
| `AxisRegistry.LengthsKeptApart` | tools/defgen/defgen.py:1264-1275 | the documented case: a 20-value "rpm" beside an 8-value "rpm" becomes "rpm_len20", and is found there again |
| `AxisRegistry.DimensionsRead` | tools/defgen/defgen.py:1119-1135 | only the end of the type counts: 3D, 2D, 1D, and one dimension for anything else |
| `AxisRegistry.ReRegistered` | tools/defgen/defgen.py:1250-1305 | after any further growth the same registration finds its axis and adds nothing |
| `AxisRegistry.FailureExact` | tools/defgen/defgen.py:1291-1305 | the search for an alternative id fails if and only if all are taken by other content |
| `AxisRegistry.SidesSound` | tools/defgen/defgen.py:1162-1190 | each side ends with an id naming an axis of the content its last child asked for |
| `AxisRegistry.TableFaithful` | tools/defgen/defgen.py:1119-1217 | dimensions 1 and 2 imply resolving axes with the right content; the declared dimensions stand if and only if the axes they need are there |
| `AxisRegistry.SurplusAxisExactly` | tools/defgen/defgen.py:1192-1217 | an axis id beyond the table's dimensions stays if and only if a scalar table has storage on that side, or a one-dimensional table on both sides |
| `AxisRegistry.SurplusAxis` | tools/defgen/defgen.py:1192-1217 | a concrete "2D" table that ends with one dimension and two axis ids |
| `Correlation.CauchySchwarz` | tools/cross_ref_ssm_a8.py:186-201 | the squared cross sum is at most the product of the two spreads, for all series of one length |
| `Correlation.CauchySchwarzTight` | tools/cross_ref_ssm_a8.py:186-201 | equality only for proportional deviations |
| `Correlation.R2Range` | tools/cross_ref_ssm_a8.py:186-201 | R squared lies in [0, 1]; a length mismatch is the only error |
| `Correlation.AffineInvariantLeft` | tools/cross_ref_ssm_a8.py:186-201 | R squared is unchanged by a non-zero affine map of the first series |
| `Correlation.AffineInvariantRight` | tools/cross_ref_ssm_a8.py:186-201 | ... and of the second |
| `Correlation.PerfectScore` | tools/cross_ref_ssm_a8.py:186-201 | for two series that vary the score is 1 if and only if one is an affine image of the other |
| `LeastSquares.Determination` | tools/cross_ref_ssm_a8.py:186-201 | R squared is the coefficient of determination of the least-squares line: no line leaves less than the share 1 - R2 of the spread, and one leaves exactly that |
| `Quantile.QuantileResample` | tools/cross_ref_ssm_a8.py:204-223 | the resampling loop returns one mean per bin of the sorted, cleaned values; nothing for an empty input or no bins |
| `Quantile.CleanedExact` | tools/cross_ref_ssm_a8.py:212-214 | the clean-up keeps the numbers, all of them and in order, and nothing else |
| `Quantile.QuantileRanks` | tools/cross_ref_ssm_a8.py:216-222 | with no more bins than values, value i of the result is the mean of the ranks k with i * len < (k + 1) * n <= (i + 1) * len |
| `Quantile.BinExists` | tools/cross_ref_ssm_a8.py:216-222 | those ranks are one stretch of at least one rank |
| `Quantile.QuantileRepeats` | tools/cross_ref_ssm_a8.py:216-222 | with more bins than values, value i is the one at the rank k with k * n <= i * len < (k + 1) * n |
| `Quantile.CutBounds` | tools/cross_ref_ssm_a8.py:216-222 | every cut is inside the series and no bin starts past its end |
| `Quantile.BinsCoverAll` | tools/cross_ref_ssm_a8.py:216-222 | with no more bins than values the bins are consecutive pieces that together are the sorted series |
| `Quantile.MassConserved` | tools/cross_ref_ssm_a8.py:204-223 | with no more bins than values, the bin means weighted with the bin sizes add up to the sum of the series |
| `Quantile.ResampledShape` | tools/cross_ref_ssm_a8.py:204-223 | the result never decreases and has one value per bin |
| `Quantile.PermutationInvariant` | tools/cross_ref_ssm_a8.py:212-215 | the result depends only on the multiset of values |
| `Quantile.SortedUnique` | tools/cross_ref_ssm_a8.py:215-215 | a multiset has one ascending arrangement, so any sort gives this result |
| `Quantile.ResampleAffine` | tools/cross_ref_ssm_a8.py:204-223 | resampling commutes with a * v + b for a > 0 |
| `RankQuantile.FeaturelessExact` | tools/cross_ref_ssm_a8.py:287-303 | a series is dropped if and only if it has fewer than five values, ends where it starts, or correlates with the bare rank of its values above the threshold |
| `RankQuantile.FeaturelessAffine` | tools/cross_ref_ssm_a8.py:287-303 | the ramp filter does not see a change of units |
| `RankQuantile.StraightLineRejected` | tools/cross_ref_ssm_a8.py:287-303 | every straight line is rejected, for any threshold below 1 |
| `RankQuantile.Recovered` | tools/cross_ref_ssm_a8.py:204-223 | a positively scaled and shifted copy, in any order and with any readings missing, scores exactly 1 if and only if the bins vary |
| `RankQuantile.Correlate` | tools/cross_ref_ssm_a8.py:306-343 | the nested loops return the scored pairs of the series that pass the filter |
| `RankQuantile.AllPairsExact` | tools/cross_ref_ssm_a8.py:331-343 | the result lists exactly the pairs of series of one width (1, 2 or 4 bytes) and one length, none empty, each with its R squared |
| `RankQuantile.KeptExact` | tools/cross_ref_ssm_a8.py:324-330 | a resampled series is compared if and only if it passes the filter |
| `RankQuantile.CopyReported` | tools/cross_ref_ssm_a8.py:306-343 | a rescaled copy of a series that varies and is no ramp is reported with score exactly 1 |
| `RankQuantile.ScoresInRange` | tools/cross_ref_ssm_a8.py:331-343 | every reported score is in [0, 1] and joins encodings of one width |
| `Feistel.F` | tools/solve_ssmcan1.py:821-832 | every S-box index is below 32 (each lookup demands it) and the result is below 2^16 |
| `Feistel.KnownValues` | tools/solve_ssmcan1.py:779-832 | F takes the values the repository pins, and equal half and key give 0xAAAA for every key |
| `Feistel.Entries` | tools/solve_ssmcan1.py:779-784 | the S-box table, entry by entry |
| `Feistel.FeistelForward` | tools/solve_ssmcan1.py:835-844 | the round loop is the fold of the rounds, first key first |
| `Feistel.FeistelInverse` | tools/solve_ssmcan1.py:847-856 | the reversed loop is the fold of the undone rounds, last key first |
| `Feistel.InverseForward` | tools/solve_ssmcan1.py:835-856 | inverse after forward is the identity for every state and every round-key list |
| `Feistel.ForwardInverse` | tools/solve_ssmcan1.py:835-856 | forward after inverse is the identity |
| `Feistel.InverseIsSwappedForward` | tools/solve_ssmcan1.py:835-860 | the inverse is the forward network with the halves swapped and the keys reversed |
| `SeedKey.SeedKeyRoundTrip` | tools/solve_ssmcan1.py:955-1023 | at levels 1, 3 and 5 the two functions are mutually inverse on all 4-byte values |
| `SeedKey.MutuallyInverse` | tools/solve_ssmcan1.py:955-1023 | for inputs of every length and every level, k is the key of s if and only if s is the seed of k; on inputs they refuse the two fail alike |
| `KnownKeys.KnownKey` | tools/tests/test_solve_ssmcan1.py:304-312 | seed 72 0B E3 22 has key 02 C5 BA 29 at level 1, the answer the repository pins |
| `KnownKeys.KnownKeyLevelThree` | tools/solve_ssmcan1.py:799-975 | the same seed worked out at level 3, with the table levels 3 and 5 share |
| `SeedKey.SeedToKeyInjective` | tools/solve_ssmcan1.py:955-975 | different seeds have different keys |
| `SeedKey.LevelsThreeAndFive` | tools/solve_ssmcan1.py:888-975 | levels 3 and 5 run one cipher: the level 5 key is the level 3 key of a permuted seed, permuted |
| `SeedKey.SeedShuffle` | tools/solve_ssmcan1.py:880-1023 | at each level the seed shuffle and its inverse undo each other |
| `SeedKey.KeyShuffle` | tools/solve_ssmcan1.py:880-1001 | at each level the key shuffle and its inverse undo each other |
| `Scaffold.EncryptLoop` | tools/solve_ssmcan1.py:140-169 | the 16-round loop computes the reference cipher; other than 4 seed bytes is an error |
| `Scaffold.CipherLinear` | tools/solve_ssmcan1.py:54-69 | the cipher is linear in seed and tables together |
| `Scaffold.ZeroTablesIdentity` | tools/solve_ssmcan1.py:135-169 | with zero tables the 16 rotations and the half swap cancel |
| `Scaffold.ClosedForm` | tools/solve_ssmcan1.py:140-169 | the cipher is the seed XOR the 16 round words, word r rotated left by 3r bits |
| `Scaffold.EncryptIsOffset` | tools/solve_ssmcan1.py:54-69 | encrypt(s, T) = s XOR encrypt(0, T) and encrypt(s, 0) = s, byte for byte |
| `Scaffold.AgreeOnOneAgreeOnAll` | tools/solve_ssmcan1.py:54-69 | table sets that agree on one seed agree on every seed |
| `Scaffold.EveryOffset` | tools/solve_ssmcan1.py:61-69 | each of the 2^32 offsets is that of some table set the constructor accepts, so the table space collapses to exactly those functions |
| `Descriptor.DecodeExact` | tools/rom_interp_descriptor.py:11-44 | decoding yields an item if and only if the image holds that item written big-endian, grid of x_count rows of y_count included |
| `Descriptor.ReadableExactly` | tools/rom_interp_descriptor.py:11-44 | some descriptor is written at an address if and only if header and targets lie in the image, the counts are not zero and the X type is known |
| `Descriptor.RowsExact` | tools/rom_interp_descriptor.py:33-33 | cutting the flat list gives the rows whose concatenation it is, for every count and width |
| `Fields.UnpackExact` | tools/rom_interp_descriptor.py:21-26 | fixed-width big-endian fields read as given values if and only if their encodings stand there |
| `Inventory.Scan` | tools/rom_interp_inventory.py:21-71 | the offset loop returns the candidates in order, or the first address that cannot be packed |
| `Inventory.SortedNeighbours` | tools/rom_interp_inventory.py:38-44 | for three non-empty ranges the sorted adjacent check is pairwise disjointness |
| `Inventory.IncreasingExact` | tools/rom_interp_inventory.py:17-18 | comparing neighbours is strict increase over all pairs |
| `Inventory.CandidateExact` | tools/rom_interp_inventory.py:27-53 | an offset passes the checks if and only if a descriptor is written there whose counts, pointers and alignment are in bounds, whose three areas share no address and whose axes ascend |
| `Inventory.ScanExact` | tools/rom_interp_inventory.py:21-71 | a finished scan reports exactly the word-aligned descriptors meeting every condition, each with exactly the places that hold its address |
| `Inventory.ScanAscends` | tools/rom_interp_inventory.py:27-71 | results come in strictly increasing address order |
| `Inventory.ScanFailsExactly` | tools/rom_interp_inventory.py:64-64 | the scan aborts if and only if some reported descriptor's own address is not 32 bits wide |
| `Inventory.ScanInside` | tools/rom_interp_inventory.py:64-64 | an image that lies in the 32-bit address space is always scanned to the end |
| `Inventory.BelowZeroFails` | tools/rom_interp_inventory.py:64-64 | a concrete 32-byte image, mapped from address -16, on which the scan aborts |
| `EditRuns.FindEditRuns` | tools/rom_diff_localize.py:62-76 | exactly the maximal differing runs of at least `min_run` bytes, in order and apart |
| `EditRuns.ClusterRuns` | tools/rom_diff_localize.py:79-96 | the loop that replaces the last cluster returns one cluster per group |
| `EditRuns.GroupsExact` | tools/rom_diff_localize.py:79-96 | the groups put every run in one cluster, cut exactly at the gaps longer than `merge_gap` |
| `EditRuns.GroupingUnique` | tools/rom_diff_localize.py:79-96 | no other grouping does |
| `EditRuns.ClustersFarApart` | tools/rom_diff_localize.py:79-96 | neighbouring clusters are more than `merge_gap` apart |
| `EditRuns.EditedConserved` | tools/rom_diff_localize.py:79-96 | edited bytes are neither lost nor counted twice |
| `EditRuns.AllEditsClustered` | tools/rom_diff_localize.py:62-96 | with `min_run` at most 1 the clusters count every differing byte |
| `EditRuns.DensityBounds` | tools/rom_diff_localize.py:46-59 | a cluster of proper runs spans at least its edited bytes and has some, so density is in (0, 1] |
| `Siblings.ChangedRuns` | tools/rom_sibling_fingerprint.py:12-20 | exactly the maximal runs of offsets where the images differ or one has ended |
| `Siblings.Compare` | tools/rom_sibling_fingerprint.py:22-30 | the row's counts and ends: changed bytes, first and last change, identical if and only if no run |
| `Siblings.PatchRestores` | tools/rom_sibling_fingerprint.py:12-20 | overwriting left with right over the runs and fitting to right's length gives right |
| `Siblings.PatchNeedsAll` | tools/rom_sibling_fingerprint.py:12-20 | any list whose patch gives right covers every differing byte |
| `Runs.OneAnswer` | tools/rom_sibling_fingerprint.py:12-20 | a set of offsets has one list of maximal runs, so `changed_runs` and `score_runs` have one possible answer |
| `Discover.DiffPair` | tools/checksum_discover.py:107-114 | exactly the differing offsets of the common length, ascending |
| `Discover.ScoreRuns` | tools/checksum_discover.py:117-150 | exactly the maximal runs of the offset set, each with its distance to the nearer of the two zones |
| `Discover.DistScoreExact` | tools/checksum_discover.py:143-148 | the score is the distance to 0x10000 or to 128 KiB below the end, whichever is nearer |
| `Discover.SortedExactly` | tools/checksum_discover.py:117-150 | the result is in the documented order, shortest first, if and only if no maximal run of the offset set is longer than one further right |
| `Discover.NotSorted` | tools/checksum_discover.py:117-150 | a concrete set, 0, 1 and 5, whose runs come back as lengths 2 and 1 |
| `Discover.RunsExpand` | tools/checksum_discover.py:117-150 | writing the runs out gives the offset set back, and their lengths its size |
| `Discover.AlwaysDiffering` | tools/checksum_discover.py:174-193 | the histogram keeps exactly the offsets that differ in every pair; there is no answer when there is no pair |
| `Discover.FamilyOffsets` | tools/checksum_discover.py:173-193 | over a family of images: exactly the offsets at which every two images of one length differ |
| `Discover.PairsExact` | tools/checksum_discover.py:177-185 | differing in every enumerated pair is differing in every two images of one length |
| `Discover.ColumnDistinct` | tools/checksum_discover.py:177-193 | for equally long images: exactly the offsets at which all bytes are distinct |
| `Discover.TooManyImages` | tools/checksum_discover.py:177-193 | with more than 256 images of one size no offset can differ in every pair |
| `Checksum.Sum16` | tools/verify_flash_checksum.py:47-63 | the loop computes the modulo 2^16 word sum; odd length is reported before an unknown byte order |
| `Checksum.Verify` | tools/verify_flash_checksum.py:66-81 | pass if and only if magic 55 55, even length, known byte order and sum 0x5AA5; each other verdict, and the error, under exactly its own condition |
| `Checksum.PassesExactly` | tools/verify_flash_checksum.py:66-81 | an even image behind the magic passes if and only if every slot holds what all the others leave for it |
| `Checksum.OneValueFits` | tools/verify_flash_checksum.py:47-63 | for every slot exactly one 16-bit value makes the sum 0x5AA5 |
| `Checksum.EverySlotFits` | tools/verify_flash_checksum.py:25-32 | an image has the right sum if and only if any one slot holds the target less the rest: the slot cannot be found from one image |
| `Checksum.RepairPasses` | tools/verify_flash_checksum.py:66-81 | writing that value in any slot behind the magic makes the image verify |
| `Checksum.EditKeepsSum` | tools/verify_flash_checksum.py:47-63 | an edit keeps the sum if and only if its word changes add up to 0 modulo 2^16 |
| `Checksum.LittleIsSwappedBig` | tools/verify_flash_checksum.py:47-63 | the little-endian sum is the big-endian sum of the byte-swapped image |
| `Checksum.BothOrders` | tools/verify_flash_checksum.py:47-63 | the two totals together are 257 times the byte sum |

## Left out

- File, console, JSON, TOML and command-line handling, and log parsing: the models start from frame lists, byte strings, parsed trees and dictionaries in key order.
- XML, Python and regular-expression parsing: expressions start at the syntax tree, definitions at the element tree; an unparsable expression is one constructor.
- Floating-point rounding: conversion expressions, cluster percentages and correlation are over the reals, and infinities do not occur among the readings.
- Warning texts: warnings and errors are constructors that carry the values the texts print.
- Text stripping and lower-casing cover ASCII only.
- `extract_transfers` keeps payloads as bytes; writing them to files and hashing them are not modelled.
- `_extract_table`: only the axis and dimension part; names, categories, addresses and scaling registration are left out.
- Polls and aggregated addresses are values; updating a record in place under an alias is not captured. The reassembler, the open transfers, the exchange collector, the union-find table and the axis table are objects.
- `load_samples`, the command line and the report of the cluster survey: the threshold is a parameter of the model, and that `main` parses a `--threshold` it does not pass on is not stated; IDs arrive as a list without repetition.
- `enumerate_f3xx_series`, `enumerate_ssm_a8_series` and `decode_raw`: table walks that would add easy members; encodings are an enumeration of the eight kinds.
- Feistel states, seeds and round keys are 32-bit words; the Python masks wider integers on entry.
- The Z3 solve, table recovery and code generation of `solve_ssmcan1.py`.
- Scan items omit the content hash and the grid minimum, maximum and distinct count.
- The likelihood labels, size grouping and report lines of `family_report`.
- `infer_endian`, `_try_both_endians` and the directory sweep of the checksum tool.
- The C++ flasher, edit history and code generation described in the repository's documentation are not part of this model.
