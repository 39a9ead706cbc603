# silver-tube core, modelled in Dafny

silver-tube takes Windows Media Center recordings (`.wtv` files), cuts out the commercials that
comskip found, re-times the closed-caption subtitles to match, and names the result after the
episode. This project models the parts of that pipeline that compute something:

- **`Wtv`** (`wtv.py`) covers the container's metadata table. It starts at byte `0x12000`, and each
  record opens with a fixed 16-byte magic. Then come a little-endian u32 type code, a u32 payload
  length, a UTF-16LE name ended by a zero unit, and the payload. The payload is interpreted by its
  type: signed 32- or 64-bit integer, UTF-16LE text without its terminator, raw bytes, boolean,
  hexadecimal text. When a name appears more than once, its last record wins. On top of this sits
  the original-air-date lookup: the date part of `WM/MediaOriginalBroadcastDateTime`, or, when
  that field is missing, holds `None` or holds the unset value, parts 2-4 of the file name. With
  `parse_from_filename=False` an unset field gives `None` instead.
- **`Bytes`** and **`Utf16`** cover the `struct` integer reads, `bytes.hex()`, and strict UTF-16LE
  decoding. Each decoder has an encoder as its partner, with round trips proved in both
  directions: every byte sequence survives encode-then-decode, and every well-formed input (an
  even-length text of lower-case hex digits; a UTF-16LE byte sequence that decodes) survives
  decode-then-encode.
- **`Strings`** covers the few Python string and POSIX `os.path` operations the core uses.
- **`Intervals`** (`processing.py`) covers `invert_commercial`, which turns the commercial breaks
  into the ranges to keep, and `durations_to_invert`, which lays segment durations end to end.
- **`Subtitles`** (`processing.py`) covers `to_time` and `split_subtitles`. A cue is taken by a
  keep-range when its start lies between the range's bounds passed through `to_time`, and it is
  moved by the running shift passed through `to_time`. `to_time` counts every whole hour twice, so
  this is the time cut before the range only while the bounds and the shift stay under an hour.
- **`SegmentPlan`** (`processing.py`) covers the ffmpeg arguments of one cut (`cut_args`) and
  `convert`:
  - the segment file names;
  - the single encode invocation;
  - the concat manifest and the concat invocation;
  - the order of file-system and process steps, including what happens when the encoder fails,
    when a step raises, and in debug mode.
- **`Naming`** (`processing.py`) covers the zero padding that `create_filename` applies to season
  and episode numbers.

Times are integer milliseconds throughout. The processes `convert` runs are not executed. Their
exit codes are parameters, and so is the index of a step that raises. The container is an
in-memory byte sequence rather than a memory-mapped file.

In two places the code does less than one might expect, and the model follows the code:

- A record whose payload runs past the end of the file is not an error. The file read simply
  returns fewer bytes. Only integer types then fail, on their width, and text may fail on an odd
  length (`Wtv.TruncatedPayload`). A record that does fail aborts the whole decode, whatever was
  read before it (`Wtv.ExtractMetadataRejects`).
- A single commercial yields one keep-range, the part before the break. There is no open range
  after it, because `invert_commercial` adds that range only when there are two breaks or more.
  `Intervals.SingleBreakDropsTail` states this.

## Model

| member | source | states |
|---|---|---|
| Wtv.ExtractMetadata | wtv.py:34-40 | a container shorter than the table offset fails with the seek error and nothing else does; a table whose first 16 bytes are not the magic decodes to an empty map |
| Wtv.DecodeTable | wtv.py:38-75 | decoding stops with the metadata unchanged wherever the 16-byte magic is missing; a successful decode only adds names; it never fails with the seek error |
| Wtv.U32AtUnsigned | wtv.py:41-42 | the type and length fields are the unsigned little-endian values of their four bytes |
| Wtv.ReadName | wtv.py:43-49 | a name read returns exactly the non-zero 16-bit units before the first zero unit and resumes just past the terminator; its only failure is a missing terminator |
| Wtv.ReadNameFailsIffUnterminated | wtv.py:44-49 | a name fails to read if and only if no complete zero unit follows before the end of the data |
| Wtv.MagicAt | wtv.py:5-12 | the header test: the 16 bytes at the position equal `HEADER_BYTES`, and a read that comes up short never matches; `Wtv.DecodeTable` states what the loop does with it |
| Wtv.ReadRecord | wtv.py:41-52 | type and length are below 2^32; the payload is the bytes right after the name, at most `length` of them, none when `length` is zero, and shorter only at the end of the data; a truncated-header failure happens exactly when fewer than 24 bytes remain from the magic |
| Wtv.ReadRecordReads | wtv.py:41-50 | a record read fails exactly when fewer than 24 bytes remain from the magic or the name has no terminator; otherwise the type and length are the two little-endian words after the magic and the name is the name read at 24 bytes in, ending where the payload starts |
| Wtv.Interpret | wtv.py:51-75 | the type dispatch itself; `Wtv.InterpretByType` and `Wtv.InterpretText` state what it gives |
| Wtv.InterpretByType | wtv.py:51-75 | per type code: zero length gives None; types 0 and 4 succeed exactly on 4 or 8 bytes and give the signed value those bytes encode; type 1 gives the text whose UTF-16LE encoding is the payload minus two bytes and fails on an odd length; type 3 is false only for four zero bytes; type 6 is exactly `hex()`'s lower-case text of the payload, which decodes back to it; types 2, 5 and above 6 keep the bytes |
| Wtv.InterpretText | wtv.py:56-58 | any text written as UTF-16LE plus a two-byte terminator is read back as that text |
| Wtv.ApplyKeys | wtv.py:35-75 | after the loop, a name is in the metadata exactly when some record carried it |
| Wtv.ApplyUntouched | wtv.py:55-75 | records with other names leave a name's value as it was |
| Wtv.ApplyLastWins | wtv.py:55-75 | a repeated name keeps the value of its last record |
| Wtv.ReadRecordOfEntry | wtv.py:40-52 | a record laid out by a writer is read back field for field, and reading resumes right after its payload |
| Wtv.RecordOfEntry | wtv.py:40-52 | a laid-out entry reads back as a record whose name decodes to the entry's name and whose payload is interpreted as the entry's value; the next record starts right after it |
| Wtv.DecodeTableOfEntries | wtv.py:40-75 | decoding a laid-out table, ended by a position without the record marker, stores exactly the entries' values in order on top of what was already collected |
| Wtv.ExtractMetadataOfEntries | wtv.py:34-76 | a container whose table holds given entries decodes to exactly those entries applied in order, the last one winning for a repeated name |
| Wtv.DecodeTableRejects | wtv.py:40-70 | a record with the magic whose header or name runs past the end, whose name is not UTF-16LE, or whose payload its type rejects makes the decode fail, with no partial result, and the error says which |
| Wtv.DecodeTableRejectsAfter | wtv.py:40-75 | however many well-formed records the loop reads first, a rejected record after them makes the decode fail, with no partial result, and the error says which |
| Wtv.ExtractMetadataRejects | wtv.py:34-76 | however many well-formed records come first, one rejected record makes the whole of `extract_metadata` fail, and not with the seek error |
| Wtv.TruncatedPayload | wtv.py:51-73 | a payload cut short by the end of the file is read as far as it goes; an integer type that loses bytes of its width is rejected, and a type other than integer or text never is |
| Wtv.DatePart | wtv.py:30 | the date part is the prefix of the field before its first `T`, or the whole field when it has none |
| Wtv.DateFromFilename | wtv.py:25-26 | the file-name fallback succeeds exactly when the base name has at least five `_`-separated parts |
| Wtv.OriginalAirDate | wtv.py:15-31 | a set text field gives its date part; a set non-text field fails; an unset field gives None without the fallback, and with it gives the file-name date or that date's failure |
| Wtv.AirDateOfContainer | wtv.py:15-17 | without metadata, a container shorter than the table offset fails with the seek error, and a container whose table holds given entries gives the air date of the metadata those entries store, last record winning |
| Wtv.AirDateFromFilename | wtv.py:22-26 | a recording named `dir/<a>_<b>_<year>_<month>_<day>[_…]` with no usable field has air date `<year>-<month>-<day>` |
| Wtv.AirDateFromBareFilename | wtv.py:22-26 | the same for a bare file name `<a>_<b>_<year>_<month>_<day>[_…]` with no directory part |
| Wtv.SplitJoin | wtv.py:25 | splitting on `_` undoes joining pieces that hold no `_` |
| Wtv.BasenameAfterSlash | wtv.py:25 | the base name of `dir/name` is `name` when `name` holds no `/` |
| Bytes.EncodeSignedSigned | wtv.py:55 | a signed little-endian read lies in range for its width, and writing the value back gives the same bytes |
| Bytes.SignedEncodeSigned | wtv.py:68 | reading a written signed value of any width gives the value back |
| Bytes.UnsignedEncodeUnsigned | wtv.py:41-42 | reading a written unsigned value gives the value back |
| Bytes.EncodeUnsignedUnsigned | wtv.py:41-42 | writing the unsigned value of some bytes gives the same bytes |
| Bytes.Hex | wtv.py:70 | `hex()` gives two hexadecimal digits per byte |
| Bytes.UnhexHex | wtv.py:70 | the hex text determines the bytes it came from |
| Bytes.HexUnhex | wtv.py:70 | every even-length text of lower-case hex digits is the hex text of the bytes it reads back as |
| Utf16.DecodeEncode | wtv.py:50 | decoding the UTF-16 encoding of a text gives the text |
| Utf16.EncodeDecode | wtv.py:50 | a successful decode re-encodes to the very units it came from |
| Utf16.EncodeNoZero | wtv.py:44-47 | a name without NUL never encodes to a zero unit, so the terminator search cannot stop inside it |
| Utf16.UnitsOfBytesOfUnits | wtv.py:45-49 | code units survive being written as byte pairs and read back |
| Utf16.BytesOfUnitsOfBytes | wtv.py:45-49 | byte pairs survive being read as code units and written back |
| Utf16.DecodeLEEncodeLE | wtv.py:58 | reading back UTF-16LE text gives the text |
| Utf16.EncodeLEDecodeLE | wtv.py:58 | successfully decoded UTF-16LE bytes are exactly the encoding of the decoded text |
| Strings.Split | wtv.py:25 | `split` gives at least one piece, no piece holds the separator, and joining the pieces with it restores the input |
| Strings.SplitHead | wtv.py:30 | the first piece is the input's prefix before its first separator |
| Strings.Basename | processing.py:235 | the base name is a suffix of the path with no `/` in it, preceded by `/` unless it is the whole path |
| Strings.NatToStringDigits | processing.py:239 | `str(n)` is a non-empty digit string without a leading zero that reads back as `n` |
| Strings.NatToStringInjective | processing.py:239 | distinct segment numbers print differently |
| Strings.PathJoinInjective | processing.py:239 | joining two relative names onto the same directory gives the same path only for the same name |
| Intervals.Gaps | processing.py:177-185 | there is one keep-range per break plus a trailing one only when there are two breaks or more; range 0 runs from zero to the first break, range j between breaks j-1 and j, the last one from the final break on |
| Intervals.InvertCommercial | processing.py:177-185 | the pairwise loop builds exactly the gaps between the breaks |
| Intervals.KeepRangesCover | processing.py:177-185 | with two or more sorted breaks, a time from zero on is kept if and only if it lies in no break |
| Intervals.UnbrokenIsKept | processing.py:177-185 | a time in no break lies in some keep-range |
| Intervals.KeptIsUnbroken | processing.py:177-185 | a time in a keep-range lies in no break |
| Intervals.SingleBreakDropsTail | processing.py:183-184 | with one break, the only keep-range ends at the break, so no time after the break is kept |
| Intervals.KeepRangesOrdered | processing.py:177-185 | the keep-ranges of sorted breaks follow one another in time |
| Intervals.KeepRangesFollow | processing.py:177-185 | of sorted breaks, every keep-range but the last has an end, no later than the start of any later keep-range |
| Intervals.KeepRangesDisjoint | processing.py:177-185 | no time lies in two keep-ranges |
| Intervals.DurationsToInvert | processing.py:321-327 | one range per duration; range i runs from the sum of the first i durations to that sum plus duration i; the first starts at zero and each starts where the previous ends |
| Subtitles.ToTimeAsWritten | processing.py:188-197 | `to_time` as written, every part truncated toward zero and the minutes not reduced modulo 60; `Subtitles.ToTimeAsWrittenOrdinal` states what it stands for |
| Subtitles.ToTime | processing.py:188-197 | `to_time` with the minutes taken within the hour, the corrected half of the processing.py:191 finding; `Subtitles.ToTimeExact` states that it is exact |
| Subtitles.ToTimeExact | processing.py:188-197 | with the minutes taken within the hour, the parts add back up to the time; each part lies within its unit and carries the sign of the time |
| Subtitles.ToTimeAsWrittenOrdinal | processing.py:188-197 | as written, the parts add up to the time plus its whole hours again, so they are exact if and only if the time is under an hour |
| Subtitles.ToTimeAsWrittenOneHour | processing.py:191 | as written, one hour becomes one hour and sixty minutes, which is two hours |
| Subtitles.ConvertedMonotone | processing.py:188-197 | as written, `to_time` keeps the order of times and never moves a time across zero |
| Subtitles.PickCues | processing.py:208-217 | the inner loop keeps, in order, exactly the cues whose start lies between `to_time` of the range's start and, when it has one, `to_time` of its end, each moved by what the given parts stand for; `prev` becomes the range's end, or minus one second for an open range, once there is a cue |
| Subtitles.SplitSubtitles | processing.py:200-217 | the output is, range by range, every cue starting within the range's bounds passed through `to_time`, moved by the running shift passed through `to_time` |
| Subtitles.RetimedStep | processing.py:205-217 | one round of the outer loop carries the running shift and `prev` forward and appends exactly that range's picked cues; with no cues the shift plays no part |
| Subtitles.RetimedSource | processing.py:205-214 | every output cue is an input cue whose start lies in some range's converted bounds, moved by that range's converted shift; the cue's end plays no part |
| Subtitles.RetimedKeeps | processing.py:205-214 | every input cue whose start lies in a range's converted bounds appears in the output, moved by that range's converted shift |
| Subtitles.RetimedKeepsUnderHour | processing.py:205-214 | for a range whose bounds and shift are under an hour the conversion changes nothing, and every cue starting in the range appears moved by the running shift itself |
| Subtitles.RetimedPastHour | processing.py:191-214 | past an hour the doubled hours misplace a cue: with ranges `[0, 600 s)`, `[700 s, 3700 s)`, `[3800 s, …)`, a cue at 3900 s lies in the last range, yet the middle range takes it and writes it at 3800 s instead of 3700 s |
| Subtitles.SortedBreaksPickOnce | processing.py:177-217 | for the keep-ranges of sorted breaks, no time lies in the converted bounds of two ranges, so no cue is taken twice |
| Subtitles.SortedBreaksShiftBack | processing.py:177-217 | for the keep-ranges of sorted breaks, the running shift and its `to_time` conversion are never positive |
| Subtitles.SortedBreaksMovedStaysOut | processing.py:177-217 | for the keep-ranges of sorted breaks, a cue taken by one range and moved in place starts before every later range's converted bounds, so no later range takes it again |
| Subtitles.ShiftIsKeptTime | processing.py:206-217 | for closed ranges, the running shift of range j is the time kept before range j minus its start; when that is under an hour the conversion moves a cue by exactly that much, so a cue starting t into range j lands t after the time kept before it |
| Subtitles.ContiguousRangesKeepTimes | processing.py:206-217 | ranges laid end to end from zero, as `durations_to_invert` makes them, leave every cue where it was |
| SegmentPlan.CutArgsShape | processing.py:222-229 | a cut is 15 arguments when its end is truthy and 13 when it is missing or zero; it starts with `-ss` and the start, has `-to` and the end exactly when the end is truthy, and ends with the output name |
| SegmentPlan.CutArgsIntended | processing.py:222-229 | the corrected cut, emitting the end whenever there is one: 15 arguments with an end and 13 without, `-ss` and the start first, the output name last |
| SegmentPlan.ParseCutArgsIntended | processing.py:222-229 | the corrected cut's arguments determine its range, including whether it has an end, and its output file |
| SegmentPlan.ParseCutArgs | processing.py:222-229 | as written, a cut's arguments read back as its range with an end of zero turned into no end, and its output file; they equal the corrected cut's exactly when the end is not zero |
| SegmentPlan.BreakAtZeroKeepsWholeRecording | processing.py:178-226 | as written, a first commercial at time zero makes the first cut run from zero to the end of the recording |
| SegmentPlan.EmittedCuts | processing.py:225 | the cuts as their arguments carry them: same count and order, each with an end of zero dropped |
| SegmentPlan.ParseCutsArgs | processing.py:238-244 | the concatenated arguments of consecutive cuts read back as those cuts, in order, with every end of zero turned into no end |
| SegmentPlan.ParseEncode | processing.py:237-244 | the encode invocation reads back as the input file and every cut, in order, with every end of zero turned into no end |
| SegmentPlan.EmittedGaps | processing.py:177-226 | for sorted breaks, the truthiness test leaves every keep-range as it is exactly when the first break starts after time zero |
| SegmentPlan.EncodeCarriesGaps | processing.py:233-244 | when the first sorted break starts after time zero, the encode invocation carries every keep-range exactly, each into its own segment file |
| SegmentPlan.TempName | processing.py:239 | segment i is `<temp dir>/<name>.<i>.mp4`; `SegmentPlan.TempNamesDistinct` states that these names never collide |
| SegmentPlan.TempNamesDistinct | processing.py:239 | segment files of different indices are different files, so no segment overwrites another |
| SegmentPlan.PlanSegments | processing.py:235-244 | with the name stripped of `.wtv`, the segments are `<temp dir>/<name>.<i>.mp4` for each keep-range i, and the encode invocation is exactly their cuts, each built as written |
| SegmentPlan.SegmentLoop | processing.py:237-244 | the segment loop names segment i after the number of segments named before it and produces the encode invocation of exactly those cuts, each built as written |
| SegmentPlan.Manifest | processing.py:247-249 | the manifest has one line per segment, in segment order, and each line reads back as its segment's path |
| SegmentPlan.ManifestPath | processing.py:246 | the manifest is the recording's base name with `wtv` replaced by `txt`, in the temp directory; `SegmentPlan.ConcatOnlyAfterCleanEncode` uses it to name the concat |
| SegmentPlan.ConcatCommand | processing.py:257-262 | the concat invocation reads the manifest and copies both streams into the output file; `SegmentPlan.EncodeIsNotConcat` states it is never the encode invocation |
| SegmentPlan.EncodeIsNotConcat | processing.py:237-262 | the encode and concat invocations are never the same command line |
| SegmentPlan.Convert | processing.py:232-233 | `convert` raises exactly when the commercial list is empty, because `invert_commercial` runs outside the `try` |
| SegmentPlan.ConvertRunsPlan | processing.py:233-249 | a `convert` that does not raise carries out the plan of the keep-ranges, with one segment per keep-range, cuts built as written, and an encode invocation that differs from the concat |
| SegmentPlan.StepAt | processing.py:238-269 | the order of the steps: stale segments, manifest, encode, output check, concat, each segment removed, manifest removed; `SegmentPlan.RunPlanPrefix` and the lemmas after it state what a run performs |
| SegmentPlan.RunPlanPrefix | processing.py:236-273 | a run performs a prefix of the steps in order, and performs them all, returning True, exactly when no step raises |
| SegmentPlan.RunConcatOnlyAfterCleanEncode | processing.py:250-262 | in any run, the concat is run only as the step after the output check and only when the encode exited with zero |
| SegmentPlan.ConcatOnlyAfterCleanEncode | processing.py:250-262 | `convert` runs the concat only after an encode that exited with zero |
| SegmentPlan.ConvertIgnoresEncodeFailure | processing.py:250-273 | with no step raising, a failed encode still returns True, after the stale-segment checks, the manifest and the encode, and nothing else |
| SegmentPlan.RunCleanRemovesTemporaries | processing.py:253-269 | outside debug mode, a clean run concatenates, then deletes every segment in order, then the manifest |
| SegmentPlan.DebugKeepsTemporaries | processing.py:266-269 | in debug mode no run deletes the segments or the manifest it wrote; the only deletions left are the remove-if-present clearing of stale segments and of the output before the concat |
| Naming.Padded | processing.py:331-332 | the padding rule; `Naming.PaddedDigits`, `Naming.PaddedInjective` and `Naming.PaddedNegative` state what it gives |
| Naming.PaddedDigits | processing.py:331-332 | a non-negative number pads to at least two digits, exactly two below 100, that read back as the number; only a one-digit number gets a leading zero, and from 10 on the result is exactly `str(n)` |
| Naming.PaddedInjective | processing.py:331-332 | different season or episode numbers give different padded text |
| Naming.PaddedNegative | processing.py:331-332 | a negative number gets its zero in front of the minus sign, so the result is not a numeral |

## Left out

- Reading the comskip XML (`processing.py:168-174`), `duration` (ffprobe), `process_directory`,
  `process`, and the other callers are outside the computing core.
- `wtv_db.py`, `tvdb_api.py` and `delete-com.py` are not part of this model.
- `create_filename`: only the padding rule is modelled. The `string.Template` substitution is a
  library call.
- `execute` and the external programs are not modelled. Their exit codes are parameters. An
  exception anywhere inside the `try` of `convert` is a parameter too: the index of the step that
  raises.
- The file system is not modelled. `os.path.isfile` followed by `os.remove` is a single
  remove-if-present step.
- The encode argument list is built between the stale-segment removals, but building it has no
  effect. The model therefore lists all removals first and builds the arguments separately, in
  `SegmentPlan.PlanSegments`.
- Logging is not modelled. The concat's exit code is only logged, so it changes nothing in the
  model.
- pysrt is not modelled: reading and writing `.srt` files, `copy` of a cue, and the library's
  own time arithmetic. A cue is a start, an end and a text. `shift` adds the time its parts stand
  for to both start and end.
- Subtitles.SplitSubtitles: each picked cue is an independent value, compared by its original
  start. In the source, `copy` is shallow and pysrt's `shift` moves the shared start and end objects
  in place. So the input cue moves too, and later ranges compare against its moved start. A cue
  taken again is moved again, together with every earlier copy of it. The two agree when no cue is
  taken twice and no moved cue lands in a later range's bounds. For the keep-ranges of sorted
  breaks `Subtitles.SortedBreaksPickOnce` proves the first and `Subtitles.SortedBreaksMovedStaysOut`
  the second, so there the model and the source agree; unsorted breaks are not covered.
- Subtitles.ShiftIsKeptTime: the shift is the kept time only while it is under an hour. From an
  hour on, `to_time` doubles the hours, and `Subtitles.RetimedPastHour` shows a cue put in the
  wrong place.
- `os.path` is taken to be POSIX `posixpath`: `Strings.Basename` splits on `/` only. On Windows,
  where `.wtv` recordings come from, `ntpath.basename` also splits on `\` and on a drive colon, so
  there the file-name air date (`Wtv.DateFromFilename`) and the output and segment names
  (`SegmentPlan.PlanSegments`) would see a shorter base name for a path written with backslashes.
- Memory mapping is not modelled. The container is a byte sequence, and the `0x12000` seek on a
  shorter file is the seek error.
- The `__main__` JSON dump of `wtv.py` is not modelled.
- SegmentPlan.CutArgs: a time is a typed argument holding milliseconds, because the text that
  `str()` makes of a Python float is not modelled.
- Intervals.DurationsToInvert: durations are integer milliseconds, so float rounding in the running
  sum is not modelled.
- Subtitles.ToTimeExact: times are integer milliseconds, so the float truncation of the
  millisecond part is exact here.
- Intervals.InvertCommercial: an empty commercial list is excluded by the precondition. The
  source raises IndexError there, and `SegmentPlan.Convert` models that raise.

## Findings

| source | as written | input that shows it | evidently intended | confidence | as-written member | corrected member |
|---|---|---|---|---|---|---|
| processing.py:191 | `minutes = int(c / 60)` counts every minute of the time, and the hours are also passed on, so every whole hour is shifted twice | `to_time(3600)` gives 1 hour and 60 minutes, which the subtitle shift applies as two hours | minutes within the hour (`int(c / 60) % 60`), so that the parts add up to `c` | not executed | Subtitles.RetimedPastHour | Subtitles.ToTimeExact |
| processing.py:225 | `if invert_com[1]:` tests truthiness, so an end of `0` is dropped like a missing end | commercials `[(0, 30), (100, 130)]`: the first keep-range is `(0, 0)`, and its cut has no `-to`, so segment 0 is the whole recording | emit `-to` whenever the range has an end (`is not None`) | not executed | SegmentPlan.BreakAtZeroKeepsWholeRecording | SegmentPlan.ParseCutArgsIntended |

The rest of the model follows the code as written. The splitter converts with
`Subtitles.ToTimeAsWritten`, and `convert` builds its cuts with `SegmentPlan.CutArgs`. The corrected
definitions, `Subtitles.ToTime` and `SegmentPlan.CutArgsIntended`, sit alongside with their
properties proved.
