# Laboratory oracles and claim checker: a Dafny model

The repository carries two groups of Python programs beside its Rust system. *Laboratory oracles* rebuild, by other
means than the system does, what recording and transport must keep: RTP packets of H.264 NAL units, retained
recording windows, fragmented MP4, calibration receipts and recording catalogs. The *claim and proof-bundle checker*
decides whether the repository's public claims are backed by evidence. This project models the logic of both and
proves the laws that the programs show on fixtures or rely on, over all inputs.

The programs' loops are methods with loop invariants, and their stateful readers and ledgers are classes. Each such
method is proved equal to a function, or against a property, and the laws are lemmas about those. Exceptions and
failed `require`s are values of `Result` or `Option`.

| modules | what they model |
|---|---|
| `Bytes`, `Wire`, `Tables`, `Sorting` | big-endian numbers, length-prefixed text, counted tables, Python's `sorted` |
| `RtpDump`, `RtpDumpLaws`, `RtpDumpTheorems`, `RtpHeader`, `RtpDumpFields` | rtpdump records, FU-A fragmentation (section 5.8 of RFC 6184), sequence numbers (section 5.1 of RFC 3550) |
| `AnnexB`, `Windows`, `CapturePackets`, `CaptureLaws`, `CaptureFields` | Annex B splitting, independent windows, packetizing and rebuilding window by window |
| `RecordingWindow`, `RecordingWindowLaws`, `RecordingWindowObjects`, `RecordingWindowBuild`, `RecordingWindowFields` | a retained window: packets, packet-to-NAL-to-file maps, the five retained objects |
| `BitReader`, `ExpGolomb` | emulation prevention and Exp-Golomb codes (sections 7.4.1.1 and 9.1 of ITU-T H.264) |
| `Mp4`, `Mp4Walk`, `Mp4Samples` | movie fragments (section 8.8.8 of ISO/IEC 14496-12), and a demultiplexer written from the box definitions |
| `Coverage`, `CoverageLaws`, `Receipt`, `ReceiptLaws`, `ReceiptTheorems` | calibration-coverage partitions and the receipt codec |
| `Selection`, `Catalog`, `CatalogReader`, `CatalogDecode` | the recording catalog and interval queries on it |
| `Formula`, `FormulaLaws`, `FormulaUnits` | the derivation evaluator, what a formula means, and the unit checker |
| `Json`, `Worklist`, `WorklistLaws` | decoded documents, explicit-stack walks over them |
| `Schema`, `SchemaDocument`, `SchemaViolations`, `SchemaMeaning`, `SchemaRules`, `SchemaReports`, `SchemaEvaluator` | a document read as a schema and its preflight, the restricted JSON Schema evaluator, and what a document means by its own keywords |
| `Snapshot` | loading the tombstone index while others may write its files |
| `Blanking`, `Quoting`, `TlaLexer`, `TlaGrammar`, `LeanLexer`, `LeanLaws`, `LeanTokens` | comment and string blanking for TLA+ and Lean, and both languages' comments and literals as text |
| `Slo`, `Outcomes` | measurements against target conjuncts; fail-closed counting |

## What does not hold, and exactly when it does

- A NAL does not survive transport if it is of kind 28, which reads as a fragment, or if it is a picture sent in
  fragments with the forbidden bit set, which the fragment header drops. `RtpDumpTheorems.RoundTripExactly` and
  `CaptureLaws.RunExactly` have these conditions on both sides of an equivalence; rebuilding a capture also refuses
  kinds 0, 24 to 27 and 29 to 31. `RtpDumpTheorems.FragmentKindIsLost` and `RtpDumpTheorems.ForbiddenBitIsDropped` show
  the two failures on one-byte NALs.
- The sequence numbers around a loss agree exactly when a multiple of 65536 records is lost:
  `RtpDumpTheorems.GapShows`. Such a loss of whole NALs is delivered as if nothing was lost:
  `RtpDumpTheorems.WholeWrapIsInvisible`.
- The unit checker lets a bare number adopt the unit of the term it is added to, as its documentation says, so it
  accepts `x + 1` although doubling `x` does not double the sum: `Formula.BareOffsetIsAccepted`.
  `Formula.OffsetExactly` shows that such offsets are the only way in which a sum of sound terms fails to scale.
- The unit checker drops the sign of a count's power: one divided by a count passes as that count,
  `FormulaUnits.ReciprocalOfACountIsAccepted`. Exactly which formulas pass is `FormulaUnits.UnitsCheckExactly`.
- A payload that ends in zero is closed with an escape byte, on which the bit reader raises or which it keeps as data.
  It undoes escaping exactly for payloads that do not end in zero: `BitReader.ReaderUndoesEscaping`, with both failures
  in `BitReader.TrailingZerosAreMisread`.
- Annex B splitting returns a framed NAL only if it holds no start code and does not end in zero:
  `AnnexB.SplitUndoesFraming`.
- A second sequence or picture parameter set that differs from the first one of its kind is mapped to the bytes of the
  first one: `RecordingWindowLaws.ParameterSetTarget`, with such a window in
  `RecordingWindowBuild.SecondParameterSetIsMisnamed`.
- JSON equality is reflexive exactly on values without a NaN: `Schema.EqualToItself`.
- `encode` packs entries that `decode` refuses (unsorted keys, count sums of 0 or over 1024, a pose that is not
  finite): `ReceiptTheorems.RoundTripExactly` says which.

## Model

| member | source | states |
|---|---|---|
| `RtpDump.Make` | scripts/check_rtpdump_ingest_fixture.py:38-53 | The loop writes the specified file, or raises on an empty NAL or a record that does not fit 16 bits; the lemmas below are about that file |
| `RtpDump.Parse` | scripts/check_rtpdump_ingest_fixture.py:56-67 | The cursor loop equals the recursive reading of records, with its four refusals |
| `RtpDump.Reconstruct` | scripts/check_rtpdump_ingest_fixture.py:70-98 | The loop over `pending`, `last`, `output` and `copies` equals the run of a state machine over the records |
| `RtpDumpTheorems.Transport` | scripts/check_rtpdump_ingest_fixture.py:38-98 | Whatever is sent parses back to its records and is accepted over any number of sequence wraps, and arrives in order, unless some NAL is of kind 28 |
| `RtpDumpTheorems.RoundTripExactly` | scripts/check_rtpdump_ingest_fixture.py:38-98 | Reconstructing returns exactly the NALs sent if and only if each of them survives: its kind is not 28, and if it is sent in fragments its forbidden bit is clear |
| `RtpDumpTheorems.FragmentKindIsLost` | scripts/check_rtpdump_ingest_fixture.py:83-84 | A one-byte NAL of kind 28 is sent and not returned |
| `RtpDumpTheorems.ForbiddenBitIsDropped` | scripts/check_rtpdump_ingest_fixture.py:46-87 | The picture header 0x85, sent in fragments, comes back as 5 |
| `RtpDumpTheorems.SourceOffsets` | scripts/check_rtpdump_ingest_fixture.py:66-96 | For any accepted file, not only written ones: the records tile it from the header to its end, and every reported copy span holds the copied bytes |
| `RtpDumpTheorems.TruncationShows` | scripts/check_rtpdump_ingest_fixture.py:56-67 | A cut behind the header parses if and only if it falls between two records, and then gives the first records |
| `RtpDumpTheorems.TruncationKeepsAPrefix` | scripts/check_rtpdump_ingest_fixture.py:70-98 | The first records of a file are refused or rebuild the first NALs |
| `RtpDumpTheorems.AcceptedAreContiguous` | scripts/check_rtpdump_ingest_fixture.py:76-81 | In any accepted list of records neighbouring sequence numbers follow each other modulo 65536 |
| `RtpDumpTheorems.LossIsRefused` | scripts/check_rtpdump_ingest_fixture.py:76-81 | Deleting any 1 to 65535 records after the first and before the last is refused |
| `RtpDumpTheorems.GapShows` | scripts/check_rtpdump_ingest_fixture.py:52-80 | The numbers around a gap agree if and only if a multiple of 65536 records is missing |
| `RtpDumpTheorems.WholeWrapIsInvisible` | scripts/check_rtpdump_ingest_fixture.py:76-81 | The bound is tight: 65536 unfragmented NALs taken out anywhere leave a file that is accepted and rebuilds the others |
| `RtpDumpFields.EveryFieldIsWritten` | scripts/check_rtpdump_ingest_fixture.py:38-53 | Of the records that parse out of a made file: the first is the probation packet, each other one holds its NAL or its half of it behind the right fragment header, its number, timestamp 90000 and source 7, the marker exactly on the last packet of each NAL of kind 1 or 5, and the NAL's index in its offset field |
| `AnnexB.Split` | scripts/check_recording_capture_fixture.py:27-38 | The scanning and cutting loops equal the recursive splitting |
| `AnnexB.SplitNalsAreFramable` | scripts/check_recording_capture_fixture.py:27-38 | Whatever is split, no NAL that comes out contains a start code or ends in zero |
| `AnnexB.SplitUndoesFraming` | scripts/check_recording_capture_fixture.py:27-38 | Splitting returns the NALs of any framing, with start codes of any length and any number of trailing zeros, if and only if no NAL contains a start code or ends in zero |
| `Windows.IndependentWindows` | scripts/check_recording_capture_fixture.py:41-59 | The loop over `begin`, `prefix` and `has_picture` gives the windows that begin where a new one is called for; an empty NAL raises |
| `Windows.WindowsCoverTheStream` | scripts/check_recording_capture_fixture.py:41-59 | The windows concatenate to 0..n-1 |
| `Windows.WindowsAreIndependent` | scripts/check_recording_capture_fixture.py:41-59 | Windows are consecutive ranges; an IDR is only ever the first picture of its window, every window after the first has an IDR as its first picture, every closed one holds a picture |
| `CapturePackets.Packets` | scripts/check_recording_capture_fixture.py:62-80 | The loop over `seq` and `frame` gives the specified packets, and raises exactly for an empty NAL or more than 65535 packets |
| `CapturePackets.Reconstruct` | scripts/check_recording_capture_fixture.py:83-112 | The loop over `pending` and `previous` equals the run of a state machine over the packets |
| `CaptureLaws.RunExactly` | scripts/check_recording_capture_fixture.py:62-112 | Packets of consecutive NALs, numbered from anywhere, rebuild them if and only if each of them survives |
| `CaptureLaws.WindowRebuilds` | scripts/check_recording_capture_fixture.py:138-141 | Selecting the packets of any range of NALs from the whole stream rebuilds exactly that range, if and only if each NAL in it survives |
| `CaptureLaws.WindowByWindow` | scripts/check_recording_capture_fixture.py:133-158 | Every window rebuilds to its own NALs, and the packets selected window by window are all packets, once and in order |
| `CaptureFields.EveryFieldIsSent` | scripts/check_recording_capture_fixture.py:62-80 | Each packet names its NAL and holds its part of it; packets are numbered from 1, the marker is set exactly on the last packet of each picture, and the timestamp is 90000 plus 3600 for each picture before |
| `RecordingWindow.SendNal` | scripts/check_recording_window_fixture.py:64-82 | One NAL's loop gives its specified packets and sources, or raises past sequence number 65535; the running reconstruction matches |
| `RecordingWindow.BuildMaps` | scripts/check_recording_window_fixture.py:62-89 | The main loop gives all packets, all maps and the final cursor, or raises for a number that does not fit |
| `RecordingWindowBuild.Build` | scripts/check_recording_window_fixture.py:53-101 | Succeeds exactly when the parameter sets come first, no NAL is empty and every length fits its field; returns the five objects and the number of packets; the media's payload begins behind `mdat` at byte 112, and the final cursor is the media's end |
| `RecordingWindowBuild.ManifestDeterminesObjects` | scripts/check_recording_window_fixture.py:90-100 | Where the hash does not collide, windows with one manifest have the same source, initialization, media and index |
| `RecordingWindowBuild.ObjectsReadBack` | scripts/check_recording_window_fixture.py:90-97 | Behind their heads the source object and the index of whatever `build` returns give back its packets and maps |
| `RecordingWindowLaws.MapExact` | scripts/check_recording_window_fixture.py:63-88 | Every NAL's source spans tile [0, len), or [1, len) for three fragments, and each wire range of the named packet holds exactly those bytes behind the right fragment header |
| `RecordingWindowLaws.EveryPacketOnce` | scripts/check_recording_window_fixture.py:72-82 | Together the maps name the packets 1, 2, … to the last, each once and in order |
| `RecordingWindowFields.EveryHeaderIsWritten` | scripts/check_recording_window_fixture.py:72-82 | In a window that is built, each source of each NAL names a packet headed with that number, timestamp 90000 and source 7, with the marker exactly on the last packet of a picture |
| `RecordingWindowLaws.MediaTiled` | scripts/check_recording_window_fixture.py:57-61 | The NALs that are no parameter sets, behind their lengths, tile the media object from byte 112 to its end with matching bytes, and that is what the `mdat` box contains |
| `RecordingWindowLaws.InitHolds` | scripts/check_recording_window_fixture.py:34-56 | The initialization segment always contains both parameter sets, and the recorded spans name their bytes |
| `RecordingWindowLaws.ParameterSetTarget` | scripts/check_recording_window_fixture.py:84-87 | A NAL targets the segment if and only if it is a parameter set, and its span holds its bytes if and only if it equals the first one of its kind |
| `RecordingWindowBuild.DifferingSetIsMisnamed` | scripts/check_recording_window_fixture.py:84-87 | In whatever `build` returns, the span of a parameter set that differs from the first one of its kind does not hold its bytes |
| `RecordingWindowBuild.SecondParameterSetIsMisnamed` | scripts/check_recording_window_fixture.py:84-87 | Such a window is built, from three NALs |
| `RecordingWindowObjects.PacketsReadBack` | scripts/check_recording_window_fixture.py:90-91 | The source object's packet table reads back as the packets, with nothing left over |
| `RecordingWindowObjects.MapsReadBack` | scripts/check_recording_window_fixture.py:77-97 | The index's map table reads back as the maps: sources, fragments and targets |
| `RecordingWindowObjects.WindowIsAudited` | scripts/check_recording_window_fixture.py:53-101 | All of these laws at once, of whatever `build` returns |
| `RecordingWindowObjects.WindowReadsBack` | scripts/check_recording_window_fixture.py:88-97 | Both tables of whatever `build` returns read back |
| `BitReader.ReadRbsp` | scripts/check_avc_fixtures.py:7-15 | The loop over `i` and `zeros` equals recursive unescaping; `None` is the IndexError of an escape byte at the end |
| `BitReader.ReaderUndoesEscaping` | scripts/check_avc_fixtures.py:7-17 | Reading undoes the H.264 escape of a payload if and only if it does not end in zero |
| `BitReader.TrailingZerosAreMisread` | scripts/check_avc_fixtures.py:12-13 | The closing escape byte is kept as data behind one zero and raises behind two |
| `ExpGolomb.Reader.U` | scripts/check_avc_fixtures.py:18-22 | Reads `n` bits at the cursor, or refuses and stays |
| `ExpGolomb.Reader.Ue` | scripts/check_avc_fixtures.py:23-26 | Equals the specified unsigned reading, value and cursor |
| `ExpGolomb.Reader.Se` | scripts/check_avc_fixtures.py:27-29 | Equals the specified signed reading, value and cursor |
| `ExpGolomb.UnsignedExactly` | scripts/check_avc_fixtures.py:23-26 | From any offset a value is read if and only if its codeword of section 9.1 stands there, the cursor ends just behind it, and the reader refuses only where no codeword stands |
| `ExpGolomb.SignedExactly` | scripts/check_avc_fixtures.py:27-29 | The same for signed values |
| `ExpGolomb.ListExactly` | scripts/check_avc_fixtures.py:18-29 | A list of fixed, unsigned and signed elements is read from any offset if and only if its code stands there |
| `ExpGolomb.UniqueDecoding` | scripts/check_avc_fixtures.py:18-29 | Two lists of the same kinds of element whose codes agree, whatever follows each, are equal |
| `ExpGolomb.WrittenNalIsRead` | scripts/check_avc_fixtures.py:6-29 | Elements written into a payload, escaped into a NAL, are read back through both layers |
| `Mp4.WriteFragment` | scripts/check_mp4_fixtures.py:46-58 | Succeeds exactly when counts match and every number fits its field, and returns the specified fragment and its part before the media |
| `Mp4.MoofLength` | scripts/check_mp4_fixtures.py:53-56 | `moof` takes 88 + 16n bytes: the source's assertion |
| `Mp4Walk.FragmentReads` | scripts/check_mp4_fixtures.py:22-58 | A reader that walks the boxes finds base time, count and rows, and the data offset lands on the first media byte |
| `Mp4Samples.FragmentReadsBack` | scripts/check_mp4_fixtures.py:46-58 | Demultiplexing recovers for every sample its decode time, its presentation time, whether it has an IDR, and its NALs without parameter sets in order; the sizes end at the end of the file |
| `Coverage.Partition` | scripts/calibration_coverage_receipt_model.py:27-38 | Accepts exactly the collections of ranges, in any order, that cover every index of the interval once and stay inside it, save the ones the 64-bit guard refuses |
| `CoverageLaws.Compress` | scripts/calibration_coverage_receipt_model.py:40-47 | Returns the maximal runs of equal labels, `entry` never joined, which expand index by index to the labels with isolated witnesses renamed |
| `CoverageLaws.CompressedIsAccepted` | scripts/calibration_coverage_receipt_model.py:57-59 | What compresses the labels is a partition for 64-bit indices |
| `CoverageLaws.CompressionIsUnique` | scripts/calibration_coverage_receipt_model.py:40-47 | Only one list of ranges compresses given labels |
| `CoverageLaws.ProjectRelabels` | scripts/calibration_coverage_receipt_model.py:49-55 | Projecting is relabelling range by range, then sorting |
| `CoverageLaws.ProjectKeepsPartitions` | scripts/calibration_coverage_receipt_model.py:61-62 | A projection is a partition if and only if its source is |
| `CoverageLaws.ProjectCounts` | scripts/calibration_coverage_receipt_model.py:63-69 | How often each range occurs: others are kept, and on reject no witness is left and each becomes a gap |
| `CoverageLaws.ProjectIsIdempotent` | scripts/calibration_coverage_receipt_model.py:70-70 | Projecting twice is projecting once |
| `CoverageLaws.RepeatsAndHolesAreRefused` | scripts/calibration_coverage_receipt_model.py:71-75 | Repeating or leaving out any range of a partition is refused |
| `Receipt.Decoder.Take` | scripts/calibration_coverage_receipt_model.py:80-85 | Takes the next bytes and moves on, or refuses exactly when too few are left |
| `Receipt.Decoder.Integer` | scripts/calibration_coverage_receipt_model.py:86-87 | The big-endian number at the position |
| `Receipt.Decoder.Text` | scripts/calibration_coverage_receipt_model.py:88-92 | The length-prefixed text at the position, up to 65536 bytes |
| `Receipt.Decoder.Digest` | scripts/calibration_coverage_receipt_model.py:93-97 | The tagged digest at the position |
| `Receipt.Decode` | scripts/calibration_coverage_receipt_model.py:109-135 | Accepts exactly the canonical byte strings and returns their entries |
| `ReceiptTheorems.Encode` | scripts/calibration_coverage_receipt_model.py:99-107 | Packs exactly when the numbers fit, into the layout of its fields and entries |
| `ReceiptTheorems.LayoutsAreReceipts` | scripts/calibration_coverage_receipt_model.py:99-135 | A layout is canonical if and only if its fields and entries are good, and then decodes to its entries |
| `ReceiptTheorems.ReceiptsAreLayouts` | scripts/calibration_coverage_receipt_model.py:109-135 | Nothing else is accepted: a receipt is the layout of what is read from it |
| `ReceiptTheorems.RoundTripExactly` | scripts/calibration_coverage_receipt_model.py:99-135 | `decode(encode(entries, pose))` is the entries if and only if there are 1 to 16 with ascending keys and count sums in 1..1024, and the pose is finite |
| `ReceiptTheorems.ReceiptsArePrefixFree` | scripts/calibration_coverage_receipt_model.py:109-135 | No accepted receipt is a proper prefix of another |
| `ReceiptTheorems.ReceiptsFitTheBudget` | scripts/calibration_coverage_receipt_model.py:99-111 | With up to 16 entries an encoding takes 800 + 94n bytes, at most 2304 of the 8192 allowed |
| `ReceiptTheorems.KeysAscend` | scripts/calibration_coverage_receipt_model.py:126-132 | Comparing with the last key is enough: keys ascend over any distance |
| `CatalogReader.Reader.Take` | scripts/check_recording_catalog_fixture.py:64-68 | Takes the next bytes and moves on, or refuses exactly when too few are left |
| `CatalogReader.Reader.U64` | scripts/check_recording_catalog_fixture.py:70-71 | The 64-bit number at the position |
| `CatalogReader.Reader.String` | scripts/check_recording_catalog_fixture.py:73-76 | The text at the position, up to 65536 bytes |
| `CatalogReader.Reader.Digest` | scripts/check_recording_catalog_fixture.py:78-80 | The tagged digest at the position |
| `CatalogReader.EntryExactly` | scripts/check_recording_catalog_fixture.py:99-106 | An entry is read at an offset if and only if its bytes stand there |
| `CatalogDecode.PassingAreChained` | scripts/check_recording_catalog_fixture.py:103-104 | Entries that pass form a chain of ranges and repeat no slot and no window over any distance |
| `CatalogDecode.PageExactly` | scripts/check_recording_catalog_fixture.py:86-112 | The checks of a page, in the reader's terms, say that index and root are those of a list of valid entries |
| `CatalogDecode.DecodePage` | scripts/check_recording_catalog_fixture.py:86-112 | Accepts exactly the pages of valid catalogs and returns their entries, with the sets of slots, roots and closure they make |
| `CatalogDecode.Decode` | scripts/check_recording_catalog_fixture.py:86-112 | Accepts exactly those pages and returns the ranges of their entries, which are chained |
| `CatalogDecode.ManifestIgnoresOrder` | scripts/check_recording_catalog_fixture.py:37-40 | A manifest does not depend on the order of its children |
| `CatalogDecode.IndexAndRootDetermineEachOther` | scripts/check_recording_catalog_fixture.py:86-112 | Accepted pages with one index have one root and the same entries; with one root their indices have one hash |
| `CatalogDecode.Query` | scripts/check_recording_catalog_fixture.py:86-127 | On any accepted page and any start < end the pieces partition the query, a tick is selected if and only if a catalogued range contains it, and no two gaps touch |
| `Selection.Select` | scripts/check_recording_catalog_fixture.py:115-127 | The same for any chain of ranges, refused if and only if the query is empty |
| `Formula.Homogeneous` | scripts/claim_proof_bundle_checker.py:3831-3881 | Scaling the inputs of one unit by x scales every formula that has a dimension by x to the power of that unit's degree, and fails with division by zero just when it did before |
| `FormulaLaws.EvaluatesExactly` | scripts/claim_proof_bundle_checker.py:3730-3763 | A formula evaluates to v if and only if it means v, by one clause an operation: a difference is what gives the left operand when the right one is added, a quotient what gives it when multiplied; it is refused for a reason if and only if that reason comes first, the left operand's before the right one's and division by zero after both |
| `FormulaLaws.FormulaExactly` | scripts/claim_proof_bundle_checker.py:3722-3771 | The same of a whole formula, which is refused before anything else if it names no input |
| `FormulaLaws.Neutral` | scripts/claim_proof_bundle_checker.py:3730-3763 | Adding or subtracting 0, multiplying or dividing by 1, and negating twice change no formula, refused ones included |
| `FormulaLaws.Commutes` | scripts/claim_proof_bundle_checker.py:3734-3743 | Sums and products do not depend on the order of operands, and `l - r` is `l + (-r)` and `-(r - l)` |
| `FormulaLaws.SumsAssociate` | scripts/claim_proof_bundle_checker.py:3736-3737 | Sums do not depend on grouping |
| `FormulaLaws.ProductsAssociate` | scripts/claim_proof_bundle_checker.py:3740-3741 | Products do not depend on grouping |
| `FormulaLaws.ProductsDistribute` | scripts/claim_proof_bundle_checker.py:3736-3741 | Products distribute over sums and differences |
| `FormulaLaws.SumsAreUndone` | scripts/claim_proof_bundle_checker.py:3736-3752 | `(l - r) + r` and `(l + r) - r` evaluate as `l`, and `l + (-l)` as 0 |
| `FormulaLaws.ProductsAreUndone` | scripts/claim_proof_bundle_checker.py:3740-3745 | For a divisor other than zero `(l / r) * r` and `(l * r) / r` evaluate as `l`; for zero `l / r` is refused |
| `FormulaLaws.OnlyNamedInputsMatter` | scripts/claim_proof_bundle_checker.py:3728-3762 | Inputs that agree on the names of a formula give it the same value or refusal |
| `Formula.UnitSoundness` | scripts/claim_proof_bundle_checker.py:3722-3881 | A formula that passes the unit check and offsets no term by a bare number scales with its result unit and is unchanged by scaling any other, errors included |
| `Formula.OffsetExactly` | scripts/claim_proof_bundle_checker.py:3831-3881 | A sum of sound terms scales for all factors if and only if neither term is a nonzero bare number beside a term in the unit |
| `Formula.BareOffsetIsAccepted` | scripts/claim_proof_bundle_checker.py:3831-3881 | `x + 1` is accepted in any unit, and doubling `x` does not double it |
| `FormulaUnits.DimensionExactly` | scripts/claim_proof_bundle_checker.py:3839-3874 | A formula has a dimension if and only if all its names are inputs and the two terms of every sum that both name inputs have each unit to the same power and count the same; the dimension then holds exactly the powers and the count of the formula |
| `FormulaUnits.UnitsCheckExactly` | scripts/claim_proof_bundle_checker.py:3831-3881 | The unit check passes if and only if the formula is so and, if it names an input, has the result unit to the first power and no other, or counts it |
| `FormulaUnits.ReciprocalOfACountIsAccepted` | scripts/claim_proof_bundle_checker.py:3865-3866 | One divided by a count passes as that count |
| `Schema.EqualToItself` | scripts/claim_proof_bundle_checker.py:1381-1392 | A value equals itself if and only if no NaN is in it |
| `Schema.EqualIsSymmetric` | scripts/claim_proof_bundle_checker.py:1381-1392 | Equality does not depend on the order of its arguments, nor on the order of keys |
| `Schema.EqualIsTransitive` | scripts/claim_proof_bundle_checker.py:1381-1392 | Equality is transitive, across integers and floats too |
| `SchemaDocument.ReadsDictionaries` | scripts/claim_proof_bundle_checker.py:1500-1503 | Every decoded document is read as a schema whose properties are dictionaries, at any depth |
| `SchemaDocument.ProblemsExactly` | scripts/claim_proof_bundle_checker.py:1468-1522 | On any decoded document nothing is reported if and only if it nests at most 128 deep and every form in it, at any depth, is one the evaluator implements |
| `SchemaViolations.ObeysExactly` | scripts/claim_proof_bundle_checker.py:1525-1566 | The second list is empty if and only if the value obeys the schema but for its field lists |
| `SchemaViolations.ValidExactly` | scripts/claim_proof_bundle_checker.py:1525-1573 | A value is valid if and only if it obeys the schema otherwise and no field at any depth is ruled out by `additionalProperties` |
| `SchemaMeaning.KeywordsAreRead` | scripts/claim_proof_bundle_checker.py:1363-1367 | The reader takes each part of a schema from under its own key, and finds no unknown keyword if and only if every key is one of the sixteen names |
| `SchemaMeaning.OkExactly` | scripts/claim_proof_bundle_checker.py:1468-1522 | A document is read as an interpretable schema if and only if each of its keys is a keyword whose value has the interpreted form, at every depth, said of the document's own keys and values |
| `SchemaMeaning.MeansTheSame` | scripts/claim_proof_bundle_checker.py:1525-1573 | By the schema that a document is read as, a value is valid if and only if every keyword of the document holds of it, said of the document's own keys and values: types by name, `properties` and `additionalProperties` by the declared names, subschemas in turn |
| `SchemaRules.RuleExactly` | scripts/claim_proof_bundle_checker.py:1525-1562 | Of the value itself each rule is reported if and only if the document has that rule's keyword and it fails; a missing name if and only if `required` lists it |
| `SchemaRules.ProblemExactly` | scripts/claim_proof_bundle_checker.py:1481-1521 | A node is reported for each problem if and only if its document has that keyword in a form that is not interpreted |
| `SchemaReports.ViolationsExactly` | scripts/claim_proof_bundle_checker.py:1525-1566 | A violation with its place and rule is reported if and only if the keywords lead from the root to a value at that place under a subschema whose keyword for that rule fails of it |
| `SchemaReports.UnlistedExactly` | scripts/claim_proof_bundle_checker.py:1553-1566 | A field's path is reported as unknown if and only if the keywords lead to an object under a subschema that does not declare the field and has `additionalProperties: false` |
| `SchemaDocument.InterpretationProblems` | scripts/claim_proof_bundle_checker.py:1468-1522 | The depth test and the explicit stack over the decoded document terminate with exactly the problems of the recursive walk, in its order, each with its place and kind; none if and only if the document nests at most 128 deep and is interpretable |
| `SchemaEvaluator.SubsetCheck` | scripts/claim_proof_bundle_checker.py:1525-1566 | On such schemas the recursion terminates; the first list is the paths of the fields that are ruled out and the second every other violation with its place and rule, both in document order; the second is empty if and only if the value obeys the rest, both are if and only if it is valid by the declarative reading |
| `SchemaEvaluator.Accepts` | scripts/claim_proof_bundle_checker.py:1569-1573 | True exactly for valid values |
| `SchemaEvaluator.CheckDocument` | scripts/claim_proof_bundle_checker.py:1576-1590 | With a problem in the schema document the receipt is not looked at; there is none if and only if the document nests at most 128 deep and all its keywords have the interpreted forms; all three lists are empty if and only if besides every keyword of the document holds of the receipt |
| `Worklist.JsonDepthExceeds` | scripts/claim_proof_bundle_checker.py:820-833 | True exactly when containers nest deeper than the limit, by recursion on the value |
| `Worklist.CheckGenerations` | scripts/claim_proof_bundle_checker.py:1273-1312 | The explicit stack terminates with exactly the findings of the recursive walk in document order |
| `Worklist.ScanNanInfNegative` | scripts/claim_proof_bundle_checker.py:1999-2026 | The same, and true exactly when something was found |
| `WorklistLaws.GenerationsExactly` | scripts/claim_proof_bundle_checker.py:1273-1312 | A finding is reported if and only if its place lies below a field that holds generations and the node there is an object with a set `is_stale`, `stale` or `superseded` or a stale status (that of the empty text where there is none), or a text that is an alias or tombstoned |
| `WorklistLaws.NumbersExactly` | scripts/claim_proof_bundle_checker.py:1999-2026 | A place is reported if and only if the node there is a NaN or an infinity, or a text that names one |
| `Snapshot.RejectDuplicateKeys` | scripts/claim_proof_bundle_checker.py:796-802 | Returns the object if and only if its keys are distinct |
| `Snapshot.LoadTombstoneIndex` | scripts/claim_proof_bundle_checker.py:964-1071 | For every history of the file system, one state a step: succeeds exactly when the head checks, both listings, both passes and the build do, and returns the normal forms of exactly the tombstoned identifiers of the index that is built from the listed paths with the bytes the first pass found |
| `Snapshot.CopyIsWhatBothPassesSaw` | scripts/claim_proof_bundle_checker.py:1060-1068 | After success both listings agree, the copy holds exactly the listed files, each with the bytes both passes read, and each JSON file parsed without a repeated key |
| `Snapshot.OnlyTheFirstPassMatters` | scripts/claim_proof_bundle_checker.py:964-1071 | Two histories that show the same first pass give the same index, whatever was written around it |
| `Snapshot.SucceedsExactly` | scripts/claim_proof_bundle_checker.py:977-1071 | Where the hash does not collide, a load succeeds if and only if the head checks, the sizes, the first pass and the build do, the same paths are listed twice, and both readings of each find the same bytes |
| `Snapshot.ChangesAreRefused` | scripts/claim_proof_bundle_checker.py:1060-1068 | Any path in only one of the two listings, and any listed file whose two readings differ, makes the load fail |
| `Blanking.NestedCommentEnd` | scripts/claim_proof_bundle_checker.py:2955-2966 | The loop over `depth` and `j` equals recursive matching; from an opener it returns k if and only if the text up to k is a comment, and raises if and only if none begins there |
| `Blanking.CommentExactly` | scripts/claim_proof_bundle_checker.py:2955-2966 | The end of a comment is found if and only if the text up to it is that of a tree of nested comments and of characters that begin no opener or closer |
| `Quoting.StringExactly` | scripts/claim_proof_bundle_checker.py:3082-3089 | The scan for a closing quote ends at k if and only if the text up to k is a string: characters and backslash pairs between quotes |
| `TlaLexer.BlankTla` | scripts/claim_proof_bundle_checker.py:3067-3092 | The loop equals the recursive lexer, errors included |
| `TlaLexer.BlankTlaLaws` | scripts/claim_proof_bundle_checker.py:3067-3092 | Of every accepted text: equal length, same newlines, each character kept or blanked, no opener left, and a second pass changes nothing |
| `TlaGrammar.BlankTlaExactly` | scripts/claim_proof_bundle_checker.py:3067-3092 | A text is accepted with a result if and only if it is a row of comments with those nested in them, comments to the end of a line, strings on one line and characters at which none of them begins, and the result is that row with all but the characters blanked |
| `TlaLexer.LinesCompose` | scripts/claim_proof_bundle_checker.py:3067-3092 | Complete lines that are accepted lex apart from whatever follows them |
| `LeanLexer.LexFrom` | scripts/claim_proof_bundle_checker.py:2984-3040 | The loop over `i`, `in_ident` and `braces` equals the recursive lexer; the mutual recursion through interpolated strings terminates |
| `LeanLexer.LexInterpolated` | scripts/claim_proof_bundle_checker.py:3043-3064 | The loop equals the recursive reading of an interpolated string, refused at the nesting limit |
| `LeanLexer.LexLean` | scripts/claim_proof_bundle_checker.py:2976-2981 | The whole text by the recursive lexer |
| `LeanLexer.LexLeanLaws` | scripts/claim_proof_bundle_checker.py:2976-3064 | Of every accepted text: positions and newlines are kept to the end or to a `#exit`, each character is kept or blanked, code before the first comment or literal is kept, no quote and no comment opener is left |
| `LeanTokens.PlainStringExactly` | scripts/claim_proof_bundle_checker.py:3012-3019 | A plain string, which may hold line ends, ends at j if and only if one stands from its quote to j |
| `LeanTokens.CharLiteralExactly` | scripts/claim_proof_bundle_checker.py:3021-3024 | A character literal ends at j if and only if one of the four forms stands up to j: plain, escaped, two or four hexadecimal digits |
| `LeanTokens.RawStringExactly` | scripts/claim_proof_bundle_checker.py:3000-3007 | A raw string ends at j if and only if up to j stands an opener, text in which no closer with as many marks begins, and that closer |
| `LeanTokens.TokenExactly` | scripts/claim_proof_bundle_checker.py:2990-3024 | The lexer steps over exactly the comment or literal that begins at a place, blanks it, and refuses it for its kind if and only if it has no end; interpolated strings apart |
| `LeanLaws.CodeIsKept` | scripts/claim_proof_bundle_checker.py:2984-3040 | Every accepted text is a row of code characters, all kept, and of comments and literals, each lexed on its own and blank unless it is an interpolated string, up to the end or to a `#exit` |
| `LeanLaws.SecondPassChangesNothing` | scripts/claim_proof_bundle_checker.py:2976-3064 | Lexing what was lexed returns it, `#exit` and interpolated code included, given what Python's tables say of blanks, `#` and the letters of `exit` |
| `LeanLaws.PlainLeanIsKept` | scripts/claim_proof_bundle_checker.py:2976-3040 | Text without comments, literals and `#exit` is accepted as it is |
| `Slo.MatchThreshold` | scripts/claim_proof_bundle_checker.py:2116-2141 | Selects a conjunct if and only if exactly one is measured in the measurement's unit |
| `Slo.CheckConjuncts` | scripts/claim_proof_bundle_checker.py:2384-2411 | The loops over the `measured` dictionary give the specified findings in order: unbound units, what the tests of each measurement report, and the conjuncts without exactly one measurement |
| `Slo.ReportedExactly` | scripts/claim_proof_bundle_checker.py:2384-2411 | A conjunct is reported as unmeasured if and only if no measurement is in a unit that it alone has, as measured twice if and only if two or more are; a measurement as unbound if and only if its unit is that of no conjunct or of several |
| `Slo.NoFindingBijection` | scripts/claim_proof_bundle_checker.py:2385-2411 | Nothing is found if and only if every measurement selects a conjunct and passes its tests against it, and every conjunct is selected once |
| `Slo.NoFindingExactly` | scripts/claim_proof_bundle_checker.py:2385-2411 | Nothing is found if and only if there are conjuncts, no unit occurs twice on either side, both sides have the same units, and each measurement passes against the conjunct in its unit |
| `Slo.AsManyAsConjuncts` | scripts/claim_proof_bundle_checker.py:2385-2411 | Then there are as many measurements as conjuncts |
| `Slo.CheckCoherence` | scripts/claim_proof_bundle_checker.py:2252-2292 | Reports different operations if and only if two are, and missing overlap if and only if at least two windows, all valid, share no instant, with the latest start and the earliest finish |
| `Slo.CommonInstant` | scripts/claim_proof_bundle_checker.py:2252-2292 | Any number of valid windows share an instant if and only if any two of them overlap |
| `Outcomes.RecordedMeans` | scripts/claim_proof_bundle_checker.py:4635-4641 | Recording one more check is adding it to the set of checks that the table stands for |
| `Outcomes.Ledger.Record` | scripts/claim_proof_bundle_checker.py:4635-4641 | The table goes on to stand for all checks recorded so far |
| `Outcomes.Audit` | scripts/claim_proof_bundle_checker.py:5463-5549 | The run over surfaces and the retention directory gives the specified report: errors of rows, bundles and receipts, outcomes and receipt counts |
| `Outcomes.AuditBundle` | scripts/claim_proof_bundle_checker.py:5451-5462 | The run on one given bundle reports no claim verified, and the bundle as unpromoted if and only if it passes |
| `Outcomes.VerifiedExactly` | scripts/claim_proof_bundle_checker.py:5537-5549 | The verified count is the number of keys that some row promotes if nothing failed anywhere, and 0 otherwise |
| `Outcomes.FailingRowWithholds` | scripts/claim_proof_bundle_checker.py:5541-5547 | One more row with an error, of its own or of its bundle, anywhere forces the count to 0 |
| `Outcomes.FailingFindWithholds` | scripts/claim_proof_bundle_checker.py:5507-5546 | One more failing receipt, or failing retained bundle that no row cites, anywhere forces it to 0 |
| `Outcomes.CitedBundleIsSkipped` | scripts/claim_proof_bundle_checker.py:5522-5524 | A retained bundle that a row cites changes nothing, wherever it is met |
| `Outcomes.ReceiptsAddUp` | scripts/claim_proof_bundle_checker.py:5511-5520 | Every inspected receipt is passed, nonpassing, invalid, or of no recognized status |
| `Outcomes.ReceiptsCounted` | scripts/claim_proof_bundle_checker.py:5511-5520 | Each count of a run is the number of retained receipts of that kind: all, without error and passed, without error and of another recognized status, with an error |
| `Outcomes.OrderDoesNotMatter` | scripts/claim_proof_bundle_checker.py:5449-5549 | The report does not depend on the order of rows, surfaces or retained bundles |

## Left out

- Files, processes, the network, FFmpeg and ffprobe, command lines and printing; the snapshot protocol sees files as contents that change from step to step.
- SHA-256 is a function parameter; where a result needs that it does not collide, the lemma says so.
- JSON, TOML, regular-expression and Python expression parsing: the model starts from decoded values and trees, and which patterns translate and what they match are parameters.
- IEEE arithmetic in formulas (rounding, overflow, underflow guards): numbers are exact reals. The caps on a formula's length and depth are left out; all unsupported syntax is one leaf, which both programs refuse.
- SchemaEvaluator.SubsetCheck: the sentences that quote a value are not built; a violation is its place and the rule it breaks, and a place is a path whose text `SchemaViolations.Shown` gives.
- SchemaDocument.InterpretationProblems: a problem is its place and its kind, without the sentence that quotes the value.
- Slo.CheckConjuncts: what the tests of the statistic and of a measurement's own fields report is a parameter, because those compare single fields; their findings stand where the loop puts them.
- Outcomes.Audit: the errors that come from outside the claim tables and the retention directory are one number, and the counters that only report how much was scanned are left out.
- RecordingWindowBuild.Build: the constant boxes of the initialization segment and the fixed beginnings of the objects are parameters, because no law depends on them; `RecordingWindowBuild.FixtureHeads` has the latter.
- `Reader.scale` and the lists of SPS and PPS fields: fixed layouts without a law of their own.
- Lean and TLA+ keyword denylists, and the field-by-field registry and evidence comparisons of the other checkers: they would only add easy members.
- The Rust crates are not part of this model.
