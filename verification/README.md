# AxiomaCore-328 layout, characterization and sign-off tools in Dafny

This project models four small, pure parts of the AxiomaCore-328 tooling and proves what they promise.

1. **The GDSII Stream writers** (`layout/create_correct_gds.py` and `layout/create_minimal_gds.py`).
   - Every record is a big-endian 16-bit total length, then a word holding the record type in the high byte and the data type in the low byte, then the payload.
   - `write_record`, `write_int16`, `write_int32`, `write_string`, `write_time` and `write_xy_coords` are modelled as functions to byte sequences. Each returns a `Result`, and a `struct.error` or `UnicodeEncodeError` becomes a `WriteError`.
   - `create_axioma_gds` is the record sequence HEADER(600), BGNLIB, LIBNAME, UNITS, BGNSTR, STRNAME, ten BOUNDARY elements, ENDSTR, ENDLIB. It is written as a table of ten `Boundary` values walked by a recursive writer.
   - A model-side reader (`Records.ReadRecord`, `Records.Walk`) splits a stream by its declared lengths. The proofs show that the writers' output walks back to exactly the records written.
   - `write_time` reads the clock on each call, so `create_axioma_gds` takes two readings: one for BGNLIB and one for BGNSTR. Every result about it holds for any two readings, equal or not.
   - `create_minimal_gds` reads the clock once and puts that reading in both records. Its stream is proved byte-identical to the helper-based writer's for the same layout when both of that writer's readings are the one reading.
2. **The hex dump** of `create_minimal_gds.py`.
   - Each line holds a four-digit offset, sixteen hex pairs left-justified to width 48, and an ASCII column.
   - A model-side decoder reads a dump back, and the dump of any file round-trips to the bytes that were read.
3. **Speed grading** in `tools/characterization/silicon_characterization.py`.
   - The maximum stable frequency at 1.8 V and 25 °C.
   - The threshold binning into A328-32P … A328-8I / FAIL.
   - The speed-grade and functional-peripheral rows of the CSV summary.
4. **The physical-verification suite** in `scripts/verification/drc_lvs_verification.py`.
   - The DRC violation-count extractors.
   - The substring PASS tests on each tool's standard output.
   - The results map the runs build.
   - The report rows, the tape-out banner and the exit code.

Module layout:

| module | contents |
|---|---|
| `Wrappers` | `Option` and `Result` |
| `Bytes` | the `'>H'`/`'>l'` packers |
| `Records` | the record framing |
| `CorrectGds` | the helper-based writer |
| `MinimalGds` | the hand-packed writer |
| `HexDump` | the hex dump |
| `Text` | Python's `in`, `split`, `strip`, `int()` and `str()` on strings |
| `Characterization` | speed grading |
| `Verification` | the suite |

The clock, the tools' standard output, and whether the extracted SPICE file exists are parameters.

## Model

| member | source | states |
|---|---|---|
| Bytes.U16 | layout/create_correct_gds.py:18-20 | `'>H'` packs a value of 0..65535 into two bytes that read back, big-endian, as that value |
| Bytes.U16Unique | layout/create_correct_gds.py:13-14 | every two bytes are the `'>H'` packing of the value they read as, so the header words are determined by their values |
| Bytes.I32 | layout/create_correct_gds.py:22-24 | `'>l'` packs a signed 32-bit value into four bytes that read back, two's complement big-endian, as that value |
| Bytes.DecodeI32 | layout/create_correct_gds.py:46 | a packed coordinate reads as negative exactly when its first byte has the top bit set |
| Bytes.U16s | layout/create_correct_gds.py:40-41 | packing a list of 16-bit values gives two bytes per value that read back as the same list |
| Bytes.I32s | layout/create_correct_gds.py:44-46 | packing a list of coordinates gives four bytes per value that read back as the same list, in input order |
| Records.Encode | layout/create_correct_gds.py:10-16 | a record's bytes number 4 plus its payload length |
| Records.WriteRecord | layout/create_correct_gds.py:10-16 | writing succeeds exactly when 4 + payload fits 16 bits. The first word then equals the record's total byte count, the second is `rt * 256 + dt`, and the payload follows unchanged. An even payload reads back as the same record, so an empty one is exactly 4 bytes |
| Records.ReadRecord | layout/create_correct_gds.py:10-16 | whatever the reader accepts is exactly the encoding of a well-formed record of the declared length |
| Records.ReadEncoded | layout/create_correct_gds.py:10-16 | the reader takes back any well-formed record it meets at the start of a stream, whatever follows |
| Records.Walk | layout/create_correct_gds.py:49-147 | a stream the walker accepts is exactly the concatenated encodings of the well-formed records it returns |
| Records.WalkEncodeAll | layout/create_correct_gds.py:49-147 | walking the concatenated encodings of well-formed records by their declared lengths visits exactly those records and ends at the last byte |
| Records.TruncatedStreamRejected | layout/create_correct_gds.py:10-16 | a stream missing its final byte is rejected by the walker |
| Records.PeekEncoded | layout/create_correct_gds.py:157-160 | peeking a stream that starts with a record holding a payload word gives the record's total length, `rt * 256 + dt` and that first word |
| CorrectGds.ValidFitsU16 | layout/create_correct_gds.py:39-41 | every field of a real clock reading packs as an unsigned 16-bit value |
| CorrectGds.WriteInt16 | layout/create_correct_gds.py:18-20 | `write_int16` succeeds exactly for 0..65535 and gives a 6-byte record of data type 2 whose payload reads back as the value. Anything else raises |
| CorrectGds.WriteInt32 | layout/create_correct_gds.py:22-24 | `write_int32` succeeds exactly for signed 32-bit values and gives an 8-byte record of data type 3 whose payload reads back as the value |
| CorrectGds.StringPayload | layout/create_correct_gds.py:30-34 | the string payload is the ASCII bytes plus one NUL exactly when their count is odd, so it is always even |
| CorrectGds.WriteString | layout/create_correct_gds.py:30-35 | `write_string` succeeds exactly for ASCII text whose padded record fits, raising on non-ASCII. The result is a record of data type 6 with the padded payload |
| CorrectGds.StringRoundTrip | layout/create_correct_gds.py:30-35 | dropping one trailing NUL from a string payload gives back the text, for text that does not itself end in NUL at even length |
| CorrectGds.WriteTime | layout/create_correct_gds.py:37-42 | `write_time` gives a 28-byte record of data type 2 whose 24-byte payload reads back as (Y, M, D, h, m, s) twice. It raises exactly when a field does not fit 16 bits |
| CorrectGds.WriteXY | layout/create_correct_gds.py:44-47 | `write_xy_coords` gives a record of type 0x10 and data type 3, of length 4 + 4n, whose payload reads back as the coordinates in order. It raises on a coordinate outside 32 bits or an overlong list |
| CorrectGds.WriteBoundary | layout/create_correct_gds.py:74-78 | writing an element raises exactly when its layer, datatype or a coordinate does not pack. Otherwise it is the encoding of BOUNDARY, LAYER, DATATYPE, XY, ENDEL |
| CorrectGds.WriteBoundariesEncodes | layout/create_correct_gds.py:73-141 | writing the elements fails exactly when one does not pack. Otherwise it is their records' encoding, element after element |
| CorrectGds.WriteLibraryHeader | layout/create_correct_gds.py:53-63 | the library header raises exactly when a clock field or the library name does not pack |
| CorrectGds.WriteLibraryHeaderEncodes | layout/create_correct_gds.py:53-63 | the library header is the encodings of HEADER(600), BGNLIB with the first reading, LIBNAME and UNITS |
| CorrectGds.WriteStructure | layout/create_correct_gds.py:65-144 | the structure raises exactly when a clock field, the structure name or some element does not pack |
| CorrectGds.WriteStructureEncodes | layout/create_correct_gds.py:65-144 | the structure is the encodings of BGNSTR with the second reading, STRNAME, the elements and ENDSTR |
| CorrectGds.WriteLayout | layout/create_correct_gds.py:49-147 | writing a layout raises exactly when one of the two clock readings, a name, a layer or a coordinate does not pack. Otherwise it is the encodings of the layout's records, one after the other, with the first reading in BGNLIB and the second in BGNSTR |
| CorrectGds.LayoutPartsEncode | layout/create_correct_gds.py:49-147 | the library header, the structure and ENDLIB, written in turn, are the encoding of the layout's records |
| CorrectGds.LayoutRecordsBytes | layout/create_correct_gds.py:49-147 | the layout's bytes are the nine parts HEADER … STRNAME, the elements, ENDSTR, ENDLIB in file order |
| CorrectGds.LayoutTimestamps | layout/create_correct_gds.py:37-66 | BGNLIB holds the first reading's six fields twice and BGNSTR the second's. The two payloads agree exactly when the readings have the same fields |
| CorrectGds.LayoutCount | layout/create_correct_gds.py:49-147 | a layout is written as six header records, five per element and two closing records |
| CorrectGds.BoundariesTypes | layout/create_correct_gds.py:73-141 | the element records of n boundaries have the types BOUNDARY, LAYER, DATATYPE, XY, ENDEL repeated n times |
| CorrectGds.LayoutTypesOrder | layout/create_correct_gds.py:49-147 | the record types come in the order HEADER, BGNLIB, LIBNAME, UNITS, BGNSTR, STRNAME, the elements, ENDSTR, ENDLIB |
| CorrectGds.HeaderPeek | layout/create_correct_gds.py:54 | the first six bytes of any stream starting with the HEADER record read as length 6, word 0x0002, version 600 |
| CorrectGds.LayoutStream | layout/create_correct_gds.py:49-160 | for any two readings that pack, a layout that packs is written, walks back to exactly its records, and peeks as (6, 0x0002, 600) |
| CorrectGds.AxiomaElementsClosed | layout/create_correct_gds.py:77-140 | all ten XY lists have 10 integers and their first point equals their last |
| CorrectGds.AxiomaEncodable | layout/create_correct_gds.py:49-147 | every name, layer and coordinate of the AxiomaCore-328 layout packs |
| CorrectGds.CreateAxiomaGds | layout/create_correct_gds.py:49-147 | `create_axioma_gds` raises exactly when one of its two clock readings does not pack. Otherwise its output walks back to the AxiomaCore-328 layout's records and peeks as (6, 0x0002, 600) |
| CorrectGds.AxiomaStream | layout/create_correct_gds.py:49-160 | for any two real clock readings, equal or not, `create_axioma_gds` writes a stream that walks back to its records and whose header peeks as (6, 0x0002, 600) |
| CorrectGds.AxiomaShape | layout/create_correct_gds.py:49-147 | the AxiomaCore-328 layout is written as 58 records, in the order HEADER … STRNAME, ten elements, ENDSTR, ENDLIB |
| MinimalGds.PackedEncodes | layout/create_minimal_gds.py:15-64 | a hand-packed header `(4 + n, rt * 256 + dt)` followed by n payload bytes is the record's encoding |
| MinimalGds.PackedNameEncodes | layout/create_minimal_gds.py:24-41 | a hand-packed name record is the encoding of the unpadded name with data type 6 |
| MinimalGds.LibraryChunksEncode | layout/create_minimal_gds.py:14-41 | the six hand-packed library chunks are the encodings of the helper writer's first six records |
| MinimalGds.ElementChunksEncode | layout/create_minimal_gds.py:43-58 | the five hand-packed element chunks are the encodings of the helper writer's element records for layer 1 |
| MinimalGds.TailChunksEncode | layout/create_minimal_gds.py:60-64 | the hand-packed ENDSTR and ENDLIB are the encodings of the helper writer's last two records |
| MinimalGds.MinimalChunksEncode | layout/create_minimal_gds.py:10-64 | all thirteen hand-packed chunks are, one for one, the encodings of the helper writer's thirteen records |
| MinimalGds.HandPackedMatchesHelpers | layout/create_minimal_gds.py:10-64 | for any rectangle, the hand-packed stream is byte-identical to the helper writer's when both of that writer's readings are the hand-packed writer's one reading. Both raise only when that reading does not pack |
| MinimalGds.CreateMinimalGds | layout/create_minimal_gds.py:10-64 | `create_minimal_gds` raises exactly when its one clock reading does not pack. Otherwise its output walks back to the helper writer's records, with that reading in both BGNLIB and BGNSTR |
| MinimalGds.MinimalMatchesHelpers | layout/create_minimal_gds.py:10-64 | `create_minimal_gds` writes exactly what the helper writer writes for the same layout when that writer's two readings both equal its one reading |
| MinimalGds.LibraryFraming | layout/create_minimal_gds.py:14-41 | HEADER, BGNLIB, LIBNAME, UNITS, BGNSTR and STRNAME declare lengths 6, 28, 10, 20, 28, 8 with words 0x0002, 0x0102, 0x0206, 0x0305, 0x0502, 0x0606 |
| MinimalGds.ElementFraming | layout/create_minimal_gds.py:43-58 | BOUNDARY, LAYER, DATATYPE, XY and ENDEL declare lengths 4, 6, 6, 44, 4 with words 0x0800, 0x0D02, 0x0E02, 0x1003, 0x1100 |
| MinimalGds.TailFraming | layout/create_minimal_gds.py:60-64 | the stream ends with ENDSTR (4 bytes, 0x0700) then ENDLIB (4 bytes, 0x0400) |
| MinimalGds.MinimalFraming | layout/create_minimal_gds.py:14-64 | every chunk declares its own length and word, BGNLIB and BGNSTR carry the same twelve time fields, and the HEADER is byte-identical to `write_int16(0x00, 600)` |
| MinimalGds.MinimalStream | layout/create_minimal_gds.py:10-64 | for every real clock reading the minimal stream walks back to exactly its thirteen records, and its rectangle is closed |
| MinimalGds.PackedNameVersusWriteString | layout/create_minimal_gds.py:24-41 | an unpadded name record equals `write_string`'s exactly when the name has even length |
| MinimalGds.OddPackedNameRejected | layout/create_minimal_gds.py:24-41 | an unpadded name of odd length would not be a readable record: the reader and the walker reject it |
| HexDump.ReadPrefix | layout/create_minimal_gds.py:69-70 | `f.read(max_bytes)` on a file opened `'rb'` raises exactly when the limit is below -1. A limit of -1 reads the whole file, and any other limit reads the first `max_bytes` bytes, or the whole file when it is shorter |
| HexDump.HexWidth | layout/create_minimal_gds.py:77 | `{i:04X}` is uppercase hex digits that read back as the offset, exactly four of them when the offset is below 0x10000 |
| HexDump.Hex2Value | layout/create_minimal_gds.py:75 | `{b:02X}` is two hex digits that read back as the byte |
| HexDump.PadRight | layout/create_minimal_gds.py:77 | `:<48` keeps the text and fills with spaces up to width 48 |
| HexDump.AsciiColumnShows | layout/create_minimal_gds.py:76 | the ASCII column holds only printable characters. Any character other than `.` is the byte itself, and a `.` stands for a `.` byte or an unprintable one |
| HexDump.DumpLineLayout | layout/create_minimal_gds.py:73-77 | a dump line is the offset, a colon and a blank, the 48-column hex field, a blank, then the ASCII column between two bars, 57 characters plus one per byte |
| HexDump.DumpLineRoundTrip | layout/create_minimal_gds.py:73-77 | a line printed by `DumpLine` decodes back to its offset and its bytes |
| HexDump.ChunkAtIndex | layout/create_minimal_gds.py:73-74 | line k covers the up-to-sixteen bytes at offset 16k, and there is such a line exactly when that offset is inside the data |
| HexDump.ChunksCover | layout/create_minimal_gds.py:73-74 | the lines' chunks tile the data: contiguous, at most sixteen bytes each, together exactly the data |
| HexDump.DumpLineAt | layout/create_minimal_gds.py:73-77 | line k is the dump line for offset 16k and the bytes there |
| HexDump.DumpFromRoundTrip | layout/create_minimal_gds.py:73-77 | decoding the dump of the data gives back exactly the data |
| HexDump.Dump | layout/create_minimal_gds.py:66-79 | `hex_dump` prints no dump line exactly when its read raises, for a limit below -1. Otherwise it writes ceil(n / 16) lines for the n bytes it read, and they decode back to exactly those bytes |
| HexDump.DefaultDump | layout/create_minimal_gds.py:66-70 | without a limit from the caller, the read never raises. The dump shows the first 200 bytes of a longer file in 13 lines, and all of a shorter one |
| Text.Split | scripts/verification/drc_lvs_verification.py:387 | `split` gives at least one part and no part holds the separator |
| Text.JoinSplit | scripts/verification/drc_lvs_verification.py:387 | joining the parts of a split with the separator gives back the text |
| Text.SplitJoin | scripts/verification/drc_lvs_verification.py:387 | splitting separator-free parts joined by the separator gives back the parts |
| Text.TrimStart | scripts/verification/drc_lvs_verification.py:390 | `lstrip` drops exactly the leading whitespace |
| Text.TrimEnd | scripts/verification/drc_lvs_verification.py:390 | `rstrip` drops exactly the trailing whitespace |
| Text.StripSpacesAfter | tools/characterization/silicon_characterization.py:104 | stripping text with no whitespace at its ends, followed by whitespace, gives back the text |
| Text.TrimStartSpaces | tools/characterization/silicon_characterization.py:104 | whitespace in front of a reply is all `lstrip()` removes from it |
| Text.Digits | scripts/verification/drc_lvs_verification.py:70 | `str()` of a natural is a non-empty run of digits, without a leading zero, whose value is the number |
| Text.ParseDecimal | scripts/verification/drc_lvs_verification.py:390 | `ParseInt`, the model of `int()`, reads back every integer `str()` prints |
| Text.ParseLeadingZero | scripts/verification/drc_lvs_verification.py:390 | `int()` reads a zero-padded count as the count |
| Characterization.StableOnlyOnTrue | tools/characterization/silicon_characterization.py:104-136 | `MeasurePoint` marks a point stable exactly when the reply, less any whitespace before it and any whitespace or line end after it, is `TRUE` |
| Characterization.MaxStableFrequency | tools/characterization/silicon_characterization.py:239-242 | the result is at least every stable frequency of the sweep and is itself a stable frequency, or 0 when none is stable |
| Characterization.GradeFor | tools/characterization/silicon_characterization.py:248-259 | the grade is FAIL exactly below 8 MHz. Otherwise the frequency reaches the grade's threshold and falls short of every better grade's |
| Characterization.GradeMonotone | tools/characterization/silicon_characterization.py:248-259 | a higher maximum stable frequency never yields a lower grade |
| Characterization.GradeOfName | tools/characterization/silicon_characterization.py:248-259 | a grade string names the grade it is read as |
| Characterization.NameRoundTrip | tools/characterization/silicon_characterization.py:248-259 | every grade's string reads back as that grade |
| Characterization.NameContainsFail | tools/characterization/silicon_characterization.py:259 | only the FAIL grade's string contains `FAIL` |
| Characterization.DetermineSpeedGrade | tools/characterization/silicon_characterization.py:233-268 | with no 1.8 V / 25 °C data the result is `UNKNOWN` and nothing is stored. Otherwise the stored record holds the maximum stable frequency of the nominal sweep, the returned grade for it, and `1.8V, 25°C`, and nothing else changes |
| Characterization.SpeedGradeRowAsWritten | tools/characterization/silicon_characterization.py:319-326 | the speed-grade row shows the stored grade or `UNKNOWN` against `A328-16P or better`. It is PASS when no grade is stored, and for a stored grade it is PASS for every grade but FAIL, A328-8I included |
| Characterization.NamesContainFail | tools/characterization/silicon_characterization.py:259 | of the six grade names only FAIL's contains `FAIL` |
| Characterization.MissingGradePasses | tools/characterization/silicon_characterization.py:319-326 | with no stored grade the row shows `UNKNOWN` and still reports PASS |
| Characterization.EightMhzGradePasses | tools/characterization/silicon_characterization.py:319-326 | a chip graded A328-8I, below the row's own specification, reports PASS |
| Characterization.SpeedGradeRow | tools/characterization/silicon_characterization.py:319-326 | the corrected row is PASS exactly when the stored grade is A328-16P or better |
| Characterization.GradedRowStatus | tools/characterization/silicon_characterization.py:248-326 | for a stored grade, the corrected row passes exactly from 16 MHz up, the row as written from 8 MHz up |
| Characterization.PeripheralRow | tools/characterization/silicon_characterization.py:341-354 | the row exists exactly when there are validation results. It shows passed over total, counting only entries with a status, and is PASS exactly when every such entry passed |
| Characterization.EntryWithoutStatusIgnored | tools/characterization/silicon_characterization.py:343-346 | adding an entry without a status, such as the instruction-set results, changes nothing in the row |
| Verification.KlayoutCleanPassesMagic | scripts/verification/drc_lvs_verification.py:63-121 | the KLayout clean line contains `DRC violations: 0`, so Magic's substring test passes on it as well |
| Verification.FieldValue | scripts/verification/drc_lvs_verification.py:390 | a line without a colon never yields a count, since `split(':')[1]` raises on it |
| Verification.ScanLines | scripts/verification/drc_lvs_verification.py:387-393 | the count is unknown exactly when no line mentions the key with a readable second field. Otherwise it is that field on the first such line |
| Verification.ExtractFromLines | scripts/verification/drc_lvs_verification.py:385-403 | `ExtractCount` on output made of lines is the scan of those lines: the first line that mentions the key and whose second field parses gives the count |
| Verification.SkipsUnreadableLine | scripts/verification/drc_lvs_verification.py:389-392 | a line whose second field does not parse is skipped and the count comes from the rest of the output |
| Verification.OneLine | scripts/verification/drc_lvs_verification.py:387-393 | on a single line the count is its second field when the line mentions the key and the field parses, and unknown otherwise |
| Verification.FieldAfterCaption | scripts/verification/drc_lvs_verification.py:390 | the second `:`-field of a report line is the value after the caption's colon |
| Verification.RenderedField | scripts/verification/drc_lvs_verification.py:390 | the count printed after a caption reads back as that count |
| Verification.ReadsRenderedCount | scripts/verification/drc_lvs_verification.py:385-403 | the extractor reads back any count printed on a line whose caption holds the key |
| Verification.MagicCountLine | scripts/verification/drc_lvs_verification.py:385-393 | `_extract_drc_count` reads back the count Magic prints |
| Verification.KlayoutCountLine | scripts/verification/drc_lvs_verification.py:395-403 | `_extract_klayout_drc_count` reads back the count KLayout prints |
| Verification.KlayoutLineUnderMagicKey | scripts/verification/drc_lvs_verification.py:385-403 | the Magic extractor also reads a KLayout count line, since that line contains the Magic key |
| Verification.PaddedCountField | scripts/verification/drc_lvs_verification.py:390 | a count printed with a leading zero still reads as the count |
| Verification.CleanTestIsTextual | scripts/verification/drc_lvs_verification.py:63-70 | output reporting a nonzero count with a leading zero passes the substring test although the extractor reads the count as nonzero |
| Verification.CleanLineOnlyAtZero | scripts/verification/drc_lvs_verification.py:63-121 | on a count line whose caption's first letter occurs nowhere else, the clean-line substring test passes exactly for a count of 0 |
| Verification.CountLinePasses | scripts/verification/drc_lvs_verification.py:63-121 | `Passes` accepts Magic's and KLayout's own count lines exactly when they print 0 |
| Verification.FailStatus | scripts/verification/drc_lvs_verification.py:68-70 | a failed run records a status starting with `FAIL`, never `PASS` or `NOT RUN` |
| Verification.RecordedIsNotNotRun | scripts/verification/drc_lvs_verification.py:330-341 | no recorded status is the report's `NOT RUN` placeholder |
| Verification.RunStep | scripts/verification/drc_lvs_verification.py:27-314 | a run returns true exactly when it finished and its PASS test held. Missing inputs record nothing. Otherwise only the tool's key changes, to PASS exactly on success, to ERROR on an exception, and to the FAIL status on a failed test |
| Verification.MaybeRun | scripts/verification/drc_lvs_verification.py:423-434 | a skipped check, or one whose inputs are missing, leaves the results as they are. Otherwise its key holds a recorded status, PASS exactly when the run passed, and every other key keeps its value |
| Verification.CollectResults | scripts/verification/drc_lvs_verification.py:421-434 | the results hold only recorded statuses under the five tools' keys. A tool's key is present exactly when its check was not skipped and its inputs were there, and then holds PASS exactly when its run passed |
| Verification.CollectedTool | scripts/verification/drc_lvs_verification.py:421-434 | after the five steps of `main`, a tool's key is present exactly when its check was not skipped and its inputs were there. It then holds PASS exactly when its run passed |
| Verification.ReportRows | scripts/verification/drc_lvs_verification.py:330-334 | the report has one row per tool, each tool once, in the report's order. Each row shows its tool's recorded status, or `NOT RUN` when there is none |
| Verification.NotRunMeansAbsent | scripts/verification/drc_lvs_verification.py:330-334 | a row shows `NOT RUN` exactly when its tool recorded nothing |
| Verification.ExitAsWrittenOnRuns | scripts/verification/drc_lvs_verification.py:341-445 | as written, the suite exits 0 exactly when every check that ran passed, however few ran, none included |
| Verification.AllSkippedExitsZero | scripts/verification/drc_lvs_verification.py:421-445 | with every check skipped the results are empty and the banner says NOT READY, yet the suite exits 0 |
| Verification.OneCheckExitsZero | scripts/verification/drc_lvs_verification.py:421-445 | with only timing run and passing the banner says NOT READY, yet the suite exits 0 |
| Verification.ExitOnRuns | scripts/verification/drc_lvs_verification.py:341-445 | with the banner's decision, the suite exits 0 exactly when at least four checks recorded a status and every check that ran passed |
| Verification.ReadyMeansFourPassed | scripts/verification/drc_lvs_verification.py:341-445 | a corrected exit code of 0 means at least four checks ran and every one passed |

## Left out

- **Floating point.**
  - The UNITS payload of both writers is `struct.pack('>dd', 0.001, 1e-9)`. It is modelled as the 16 fixed IEEE-754 binary64 bytes `3F50624DD2F1A9FC 3E112E0BE826D695` and treated as opaque.
  - `write_real64` (`layout/create_correct_gds.py:26-28`) is used by neither generator and is not modelled.
  - Section "Data Types" of the GDSII Stream Format Manual, Release 6.0, asks for excess-64 base-16 reals. The IEEE bytes are therefore not format-correct; the model keeps them as written and encodes neither real format.
- **Clock, files and console.**
  - Each `datetime.now()` call becomes a `DateTime` parameter. `create_axioma_gds` takes two, one per `write_time` call, and `create_minimal_gds` takes one.
  - File opening and writing are left out, and the byte sequence stands for the file contents.
  - `print`, the emoji messages, `os.path.getsize` and the `verify_gds_file` messages are left out.
  - Also left out: the message `hex_dump`'s exception handler prints, and a partial file left behind when a writer raises half-way. A read that raises is modelled: `HexDump.Dump` is `None` for it.
- **Serial measurement.**
  - The serial command loop and the `SET:` commands, and the `MEAS:CURRENT?` readings with their float current and power limits.
  - The power characterization and the 16 MHz current row of the CSV.
  - The JSON and text reports, and the matplotlib plots.
  - A sweep point carries only its `stable` flag.
- **Keys.** Voltages are keyed in millivolts (1.8 V is 1800) because Dafny has no float map keys.
- Characterization.DetermineSpeedGrade: the Python dictionary's `get` with a default is modelled as an explicit missing-data branch, and sweep frequencies are natural numbers.
- Characterization.PeripheralRow: a non-dict entry of `functional_validation` is modelled as an entry without a status, since both are left out of the counts.
- **Tool runs.**
  - Subprocess invocation and the TCL and Ruby script texts are left out. Each run is a `Run` value: its inputs were missing, it raised, or it finished with a standard output.
  - Parasitic extraction's `Path.exists()` and `rename` are the `spiceWritten` flag.
  - The timing run's fallback to the gate-level netlist does not change its recorded status and is left out.
- Verification.RunStep: the `success` accumulator in `main` is never read, so it is not modelled.
- **Python `int()`.** Underscores and non-ASCII digits are left out. The model reads optional whitespace, an optional sign and ASCII decimal digits. Whitespace is the set `str.strip()` removes.
- **Other files.** The bootloader, the production tester, the programmer and the test-vector generator are not part of this model.

## Findings

| source | as written | input that shows it | evidently intended | confidence | as-written member | corrected member |
|---|---|---|---|---|---|---|
| scripts/verification/drc_lvs_verification.py:341-445 | `generate_verification_report` returns `all_passed`, and `main` exits 0 on it, but the READY banner also needs at least four recorded results | `--skip-drc --skip-lvs --skip-pex --skip-timing` leaves the results empty: the report says NOT READY and the suite exits 0 announcing READY FOR TAPE-OUT | the return value and exit code follow the banner: 0 only with at least four results, all PASS | not executed | Verification.AllSkippedExitsZero | Verification.ReadyMeansFourPassed |
| tools/characterization/silicon_characterization.py:319-326 | the speed-grade row is PASS whenever the stored grade does not contain `FAIL` | no stored grade (the row shows UNKNOWN), or a maximum stable frequency of 8 MHz (grade A328-8I): both report PASS against `A328-16P or better` | PASS exactly for A328-16P or a better grade | not executed | Characterization.EightMhzGradePasses | Characterization.GradedRowStatus |

## Notes

- The UNITS record is written as IEEE-754 doubles rather than GDSII reals.
- Nothing in either writer checks that a boundary is closed. Closure is proved for the literal coordinate lists in `CorrectGds.AxiomaElementsClosed` and `MinimalGds.MinimalStream`.
