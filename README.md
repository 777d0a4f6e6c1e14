# wzip, wunzip and wgrep: a verified model

This project models three of the initial Unix utilities of the repository:

- **wzip** compresses the concatenation of the files named on its command line
  into runs. It writes each run as a 5-byte record: the run length as a raw
  4-byte C `int`, then the byte.
- **wunzip** expands such records back, file after file.
- **wgrep** prints the lines of its input that contain a search term.

The model keeps the shape of the code:

- The loops that read chunks, bytes and records are Dafny methods with loop
  invariants. Each method is proved against a specification function.
- Each file is a list of the chunks its `read` calls return. For wunzip, each
  file is its bytes.
- Standard output is a byte sequence the methods append to.
- The exit status is a `Status`.

The main results are:

- wzip emits exactly the unique decomposition of its input into maximal runs
  (`Rle.RunsEncode`, `Rle.RunEncodingUnique`). Its result does not depend on
  where `read` cuts the input (`Wzip.Zip`).
- wunzip inverts wzip: expanding the archive of files that all open gives back
  their concatenation (`Pipeline.ZipThenUnzip`).
- wgrep's line splitter is characterised completely:
  - no line holds a newline;
  - writing the lines back with newlines restores the input, plus a final
    newline if the input lacked one;
  - splitting the written lines gives them back, empty lines included;
  - there is one line per newline, plus one for a trailing fragment.
- wgrep's output is exactly the matching lines, in input order, each followed by
  a newline (`Wgrep.GrepPrintsMatchingLines`).

Module layout:

| module | contents |
|---|---|
| `Bytes` | bytes and the 4-byte run count |
| `Io` | files, sources that fail to open, output and exit status |
| `Rle` | runs, the encoder's decomposition, the record format |
| `Wzip` | the encoder |
| `Wunzip` | the decoder |
| `Pipeline` | the round trip |
| `Wgrep` | the line splitter and filter |

Points where the code's behaviour is easy to misread; the model follows the
code:

- **No flush on open failure.** When wzip cannot open a file, it writes the
  diagnostic and exits at once (`wzip.cpp:67-71`). The run it was still
  accumulating is never written, because the flush at lines 94-97 is not
  reached.
  `Wzip.ZipOutput` writes only the completed runs, then the diagnostic.
- **Signed run count.** The count is a signed `int` in wzip and an `int32_t` in
  wunzip, not an unsigned 32-bit value. A count of zero or a negative count read
  by wunzip writes nothing, since the `for` loop does not run.
- **Short final record.** A file whose length is not a multiple of five is not
  ignored by wunzip. `read(fd, &num, 4)` overwrites the low bytes of `num` with
  the 1 to 4 bytes left and keeps its other bytes. `c` keeps its last value, and
  that many more copies are written (`Wunzip.DecodeTruncated`).
- **Diagnostics on standard output.** All three tools write their diagnostics
  to standard output, so the model puts them in the output.

## Model

| member | source | states |
|---|---|---|
| Bytes.Int32ToLE | project1/initial-utilities/wzip/wzip.cpp:84 | the count is written as four bytes, least significant first; the top bit of the last byte is the sign; small counts are `[n, 0, 0, 0]` |
| Bytes.LEToInt32 | project1/initial-utilities/wunzip.cpp:71-75 | four bytes read into the `int32_t` give a value in 32-bit range, negative exactly when the top bit is set |
| Bytes.Int32RoundTrip | project1/initial-utilities/wunzip.cpp:75 | reading back the four bytes written for a count gives that count |
| Bytes.LERoundTrip | project1/initial-utilities/wunzip.cpp:75 | every 4-byte pattern is the representation of exactly one `int32_t` |
| Io.Status.ExitCode | project1/initial-utilities/wzip/wzip.cpp:51-101 | the exit code is 0 exactly on success and 1 otherwise |
| Io.Opened | project1/initial-utilities/wzip/wzip.cpp:62-71 | no more files are processed than are named |
| Io.OpenedIsReadablePrefix | project1/initial-utilities/wzip/wzip.cpp:62-71 | the files processed are the leading readable files, in command-line order; processing stops exactly at the first file that cannot be opened; all files are processed iff all open |
| Io.SplitChunk | project1/initial-utilities/wzip/wzip.cpp:76 | chunk `k` cut at `j` into two chunks that join back to it, one chunk more in all: the chunking a `read` that returns fewer bytes leaves |
| Io.FlattenAppend | project1/initial-utilities/wzip/wzip.cpp:76 | the bytes of two chunk lists read one after the other are the bytes of the first followed by those of the second |
| Io.FlattenSplit | project1/initial-utilities/wzip/wzip.cpp:76 | cutting a chunk in two leaves the bytes read unchanged |
| Io.OpenedSameBytes | project1/initial-utilities/wzip/wzip.cpp:62-71 | command lines whose files open alike and hold the same bytes open the same number of files, with the same bytes, and all open in one exactly when all open in the other |
| Io.SplitSameBytes | project1/initial-utilities/wzip/wzip.cpp:76 | cutting one chunk of one file in two gives a command line with the same bytes |
| Rle.Repeat | project1/initial-utilities/wunzip.cpp:77-78 | `num` copies of `c`, none when `num <= 0` |
| Rle.Expand | project1/initial-utilities/wunzip.cpp:75-79 | definition: the runs written out in record order, each as `count` copies of its byte and none for a count of 0 or less; ExpandLength and ExpandAppend state its length and that it distributes over concatenation |
| Rle.ExpandLength | project1/initial-utilities/wunzip.cpp:77-78 | the expansion of a run list is as long as the sum of its positive counts |
| Rle.ExpandAppend | project1/initial-utilities/wunzip.cpp:75-79 | expanding two run lists one after the other is expanding their concatenation |
| Rle.Push | project1/initial-utilities/wzip/wzip.cpp:78-88 | definition: a byte equal to the last run's byte extends that run by one, any other byte (or the first) starts a run of 1; AccumulatorStep ties it to the `count`, `c` and records of the loop |
| Rle.Runs | project1/initial-utilities/wzip/wzip.cpp:76-97 | the encoder emits no more runs than input bytes, and none exactly for empty input |
| Rle.RunsEncode | project1/initial-utilities/wzip/wzip.cpp:78-88 | the emitted runs have counts of at least 1, adjacent runs differ in their byte, and their expansion is the input |
| Rle.RunEncodingUnique | project1/initial-utilities/wzip/wzip.cpp:78-88 | any decomposition into maximal positive runs is the encoder's |
| Rle.RunsTotal | project1/initial-utilities/wzip/wzip.cpp:78-88 | the counts of the emitted runs add up to the input length |
| Rle.PrefixCountsFit | project1/initial-utilities/wzip/wzip.cpp:78-88 | if every run of a stream fits an `int`, so does every run of its prefixes, so `count` stays in range while reading |
| Rle.RecordBytes | project1/initial-utilities/wzip/wzip.cpp:84-85 | one record is five bytes and ends in the run's byte |
| Rle.Serialize | project1/initial-utilities/wzip/wzip.cpp:84-85 | the archive is five bytes per run |
| Rle.SerializeSnoc | project1/initial-utilities/wzip/wzip.cpp:84-85 | emitting one more run appends exactly its record |
| Rle.RecordAt | project1/initial-utilities/wunzip.cpp:75-76 | the record at byte `5 * i` has a 32-bit count and the byte at offset 4 |
| Rle.RecordsN | project1/initial-utilities/wunzip.cpp:75-76 | the first `n` records are those at bytes `0, 5, ..., 5 * (n - 1)` |
| Rle.Records | project1/initial-utilities/wunzip.cpp:75-76 | a stream holds one record per complete five bytes, each with a 32-bit count |
| Rle.RecordAtAppend | project1/initial-utilities/wunzip.cpp:75-76 | after a whole number of records, record positions continue into the next part |
| Rle.RecordsAppend | project1/initial-utilities/wunzip.cpp:75-79 | the records of two streams, the first of whole records, are those of each in order |
| Rle.SerializeAt | project1/initial-utilities/wzip/wzip.cpp:84-85 | bytes `5 * i` to `5 * i + 5` of the archive are the record of run `i` |
| Rle.RecordAtSerialize | project1/initial-utilities/wunzip.cpp:75-76 | the decoder reads run `i` back from record `i` of the archive |
| Rle.RecordsOfSerialize | project1/initial-utilities/wunzip.cpp:75-76 | reading the records of an archive gives back the runs written |
| Rle.SerializeOfRecords | project1/initial-utilities/wunzip.cpp:75-76 | every stream of whole records is the archive of the runs read from it |
| Rle.RoundTrip | project1/initial-utilities/wunzip.cpp:75-79 | expanding the records of the encoder's archive gives back its input |
| Wzip.InputStream | project1/initial-utilities/wzip/wzip.cpp:62-90 | definition: the bytes of the opened files, file after file, each file's chunks in `read` order; the one stream the shared `count` and `c` run over |
| Wzip.Stream | project1/initial-utilities/wzip/wzip.cpp:59-71 | definition: the input stream of the files before the first that fails to open |
| Wzip.Completed | project1/initial-utilities/wzip/wzip.cpp:84-87 | the completed runs are all runs but the pending last one |
| Wzip.ZipOutput | project1/initial-utilities/wzip/wzip.cpp:51-101 | usage error exactly without files; success exactly when all files open; a successful archive is whole records |
| Wzip.ZipConcatenation | project1/initial-utilities/wzip/wzip.cpp:59-62 | naming several files that all open writes what naming one file holding their concatenation writes: runs spanning a file boundary are merged |
| Wzip.InputStreamSameBytes | project1/initial-utilities/wzip/wzip.cpp:62-90 | files holding the same bytes give the same stream, however `read` cut them into chunks |
| Wzip.ZipChunking | project1/initial-utilities/wzip/wzip.cpp:73-90 | the output and status depend only on which files open and on their bytes, not on the chunks `read` returns |
| Wzip.AccumulatorStep | project1/initial-utilities/wzip/wzip.cpp:78-88 | a first byte starts a run of 1; a repeated byte extends the pending run; another byte completes it and starts a new run of 1 |
| Wzip.ZipStart | project1/initial-utilities/wzip/wzip.cpp:78-80 | after the first byte the accumulator holds one run of count 1 and nothing is written |
| Wzip.ZipExtend | project1/initial-utilities/wzip/wzip.cpp:81-82 | a repeated byte extends the pending run and writes nothing |
| Wzip.CompletedRunFits | project1/initial-utilities/wzip/wzip.cpp:83-87 | the run a different byte completes is a run of the bytes read with that byte, so its count fits in an `int` when all of those do |
| Wzip.ZipEmitFits | project1/initial-utilities/wzip/wzip.cpp:84 | the count written for a completed run fits in an `int` |
| Wzip.ZipEmit | project1/initial-utilities/wzip/wzip.cpp:83-88 | a new byte writes the record of the completed run and starts a run of 1 |
| Wzip.FlushPending | project1/initial-utilities/wzip/wzip.cpp:94-97 | the final flush writes the pending run, if any, and then all runs are out |
| Wzip.ZipFinish | project1/initial-utilities/wzip/wzip.cpp:93-97 | at end of input the completed runs plus the pending one are all the runs of the input |
| Wzip.ZipStops | project1/initial-utilities/wzip/wzip.cpp:67-71 | at the first file that cannot be opened the whole stream before it has been read, and the output is the completed runs' records plus the diagnostic, status 1 |
| Wzip.ZipEnds | project1/initial-utilities/wzip/wzip.cpp:93-99 | after the last file, the records written plus the flush are the whole archive |
| Wzip.ZipByte | project1/initial-utilities/wzip/wzip.cpp:78-88 | one byte keeps the accumulator invariant: records written are those of the completed runs, (`count`, `c`) is the pending run |
| Wzip.ZipBuffer | project1/initial-utilities/wzip/wzip.cpp:77-89 | one buffer of bytes keeps the accumulator invariant |
| Wzip.ZipFile | project1/initial-utilities/wzip/wzip.cpp:76-90 | one file, however its reads are chunked, keeps the accumulator invariant; runs continue across chunk boundaries |
| Wzip.ZipSource | project1/initial-utilities/wzip/wzip.cpp:62-91 | one file that opens moves the accumulator invariant from the start of its bytes in the stream to their end |
| Wzip.Zip | project1/initial-utilities/wzip/wzip.cpp:51-101 | the output and status are those of `ZipOutput`; runs continue across file boundaries and are flushed once at the end |
| Wunzip.Overlay | project1/initial-utilities/wunzip.cpp:75 | `read(fd, &num, 4)` leaves a 32-bit value; with four bytes read it is their `int32_t` |
| Wunzip.Decode | project1/initial-utilities/wunzip.cpp:71-79 | definition of the record loop as written: each turn reads up to four bytes into `num` (a short read overwrites only its low bytes), then the next byte, if any, into `c`, and writes `num` copies of `c`; DecodeWholeRecords and DecodeTruncated state what it computes |
| Wunzip.DecodeFirstRecord | project1/initial-utilities/wunzip.cpp:75-79 | a first whole record writes its run, then decoding continues with that record's `num` and `c` |
| Wunzip.RecordAtDrop | project1/initial-utilities/wunzip.cpp:75-76 | record `i` after the first record is record `i + 1` of the file |
| Wunzip.RecordsCons | project1/initial-utilities/wunzip.cpp:75-76 | the records of a file start with its first record |
| Wunzip.DecodeWholeStep | project1/initial-utilities/wunzip.cpp:75-79 | one more whole record in front extends the expansion by its run |
| Wunzip.DecodeWholeRecords | project1/initial-utilities/wunzip.cpp:71-79 | a file of whole records expands to its records' runs, whatever `num` and `c` held |
| Wunzip.LastRecord | project1/initial-utilities/wunzip.cpp:71-79 | what the loop leaves in `num` and `c`: the initial values for an empty file, otherwise the last record, whose byte ends the file |
| Wunzip.LastRecordDrop | project1/initial-utilities/wunzip.cpp:71-79 | dropping the first record leaves the same last record |
| Wunzip.DecodeFragment | project1/initial-utilities/wunzip.cpp:75-78 | a fragment of 1 to 4 bytes overwrites the low bytes of `num`, leaves `c`, and writes `num` copies of `c` |
| Wunzip.DecodeTruncated | project1/initial-utilities/wunzip.cpp:75-79 | a file ending in a 1-4 byte fragment expands its whole records, then the last record's byte as many times as the overwritten count says |
| Wunzip.DecodeAt | project1/initial-utilities/wunzip.cpp:75-76 | one iteration reads up to four bytes into `num`, one into `c` unless at end, and writes `num` copies of `c` |
| Wunzip.WriteRun | project1/initial-utilities/wunzip.cpp:77-78 | the inner loop appends `num` copies of `c`, none for `num <= 0` |
| Wunzip.UnzipFile | project1/initial-utilities/wunzip.cpp:71-79 | the record loop writes `Decode` of the file |
| Wunzip.DecodeFiles | project1/initial-utilities/wunzip.cpp:61-83 | definition: each opened file decoded on its own from the same starting `num` and `c`, the outputs in file order; DecodeFilesWhole states what it computes for files of whole records |
| Wunzip.DecodeFilesCons | project1/initial-utilities/wunzip.cpp:61-83 | files are expanded one after the other |
| Wunzip.DecodeFilesWhole | project1/initial-utilities/wunzip.cpp:61-83 | files of whole records expand like their concatenation, whatever `num` and `c` start with |
| Wunzip.UnzipOutput | project1/initial-utilities/wunzip.cpp:50-87 | usage error exactly without files; success exactly when all files open |
| Wunzip.Unzip | project1/initial-utilities/wunzip.cpp:50-87 | the output and status are those of `UnzipOutput`: each opened file expanded in turn, stopping at the first unopenable one |
| Pipeline.ZipThenUnzip | project1/initial-utilities/wunzip.cpp:71-79 | expanding wzip's archive of files that all open gives back their concatenation, with status 0 for both |
| Wgrep.FirstNewline | project1/initial-utilities/wgrep/wgrep.cpp:122 | the first newline position: a newline, with none before it |
| Wgrep.Lines | project1/initial-utilities/wgrep/wgrep.cpp:110-135 | no line holds a newline |
| Wgrep.JoinLines | project1/initial-utilities/wgrep/wgrep.cpp:93-94 | definition: each line followed by one newline, in order; JoinLinesOfLines and LinesOfJoinLines make it the inverse of Lines |
| Wgrep.LinesOfLine | project1/initial-utilities/wgrep/wgrep.cpp:122-124 | a newline ends the line gathered so far, which is stored even when empty |
| Wgrep.JoinLinesOfLines | project1/initial-utilities/wgrep/wgrep.cpp:118-134 | the lines written back with newlines are the input if it is empty or ends in a newline, and the input plus a newline otherwise |
| Wgrep.LinesOfJoinLines | project1/initial-utilities/wgrep/wgrep.cpp:122-124 | splitting newline-free lines written with newlines gives them back, empty lines included |
| Wgrep.JoinLinesAppend | project1/initial-utilities/wgrep/wgrep.cpp:91-95 | writing two lists of lines one after the other writes their concatenation |
| Wgrep.NewlinesOfJoinLines | project1/initial-utilities/wgrep/wgrep.cpp:93-94 | writing newline-free lines puts out one newline per line |
| Wgrep.LinesCount | project1/initial-utilities/wgrep/wgrep.cpp:118-134 | the number of lines is the number of newlines, plus one when the input is non-empty and does not end in a newline |
| Wgrep.SplitAtNewline | project1/initial-utilities/wgrep/wgrep.cpp:122-124 | on a newline the gathered line is stored and an empty one started, without changing the lines still to come |
| Wgrep.SplitWithinLine | project1/initial-utilities/wgrep/wgrep.cpp:125-126 | any other byte is appended to the gathered line |
| Wgrep.SplitBuffer | project1/initial-utilities/wgrep/wgrep.cpp:120-128 | one buffer keeps the invariant that the stored lines plus the lines of the gathered line and the unread input are the lines of the file; the gathered line holds no newline |
| Wgrep.LastLine | project1/initial-utilities/wgrep/wgrep.cpp:131-133 | at end of input the gathered line is the last line if it is not empty, and no line otherwise |
| Wgrep.BufferLines | project1/initial-utilities/wgrep/wgrep.cpp:110-135 | the lines returned are `Lines` of the file's bytes, however the reads chunk them |
| Wgrep.FindFrom | project1/initial-utilities/wgrep/wgrep.cpp:68 | `find` returns the first position at or after `from` where the term occurs, or -1 (`npos`) exactly when it occurs nowhere there |
| Wgrep.Matches | project1/initial-utilities/wgrep/wgrep.cpp:68 | definition: `find` returns a position other than npos; MatchesIff states it holds exactly when the term occurs in the line |
| Wgrep.MatchesIff | project1/initial-utilities/wgrep/wgrep.cpp:68 | a line matches exactly when the term occurs in it; the empty term matches every line |
| Wgrep.Matching | project1/initial-utilities/wgrep/wgrep.cpp:91-95 | the kept lines all match and are no more than the input lines |
| Wgrep.MatchingMembers | project1/initial-utilities/wgrep/wgrep.cpp:91-95 | a line is kept exactly when it is an input line that matches |
| Wgrep.MatchingAppend | project1/initial-utilities/wgrep/wgrep.cpp:91-95 | filtering keeps input order: filtering a concatenation is concatenating the filtered parts |
| Wgrep.MatchingAll | project1/initial-utilities/wgrep/wgrep.cpp:91-95 | when every line matches (the empty term) every line is printed |
| Wgrep.MatchingNewlineFree | project1/initial-utilities/wgrep/wgrep.cpp:91-95 | kept lines hold no newline |
| Wgrep.PrintFrom | project1/initial-utilities/wgrep/wgrep.cpp:91-95 | from line `k` on, the loop prints line `k` and a newline if it matches, then the rest |
| Wgrep.PrintMatching | project1/initial-utilities/wgrep/wgrep.cpp:91-95 | the print loop appends the matching lines, in order, each followed by a newline |
| Wgrep.ReportFilesCons | project1/initial-utilities/wgrep/wgrep.cpp:79-100 | files are reported one after the other |
| Wgrep.NewlineFreeAppend | project1/initial-utilities/wgrep/wgrep.cpp:79-100 | the lines of several files hold no newline |
| Wgrep.AllLines | project1/initial-utilities/wgrep/wgrep.cpp:79-100 | definition: the lines of each opened file, split separately, file after file |
| Wgrep.ReportFiles | project1/initial-utilities/wgrep/wgrep.cpp:79-100 | definition: what the per-file loops print, file after file; ReportFilesIsJoin states it is the matching lines of AllLines, each followed by a newline |
| Wgrep.ReportFilesIsJoin | project1/initial-utilities/wgrep/wgrep.cpp:79-100 | reporting file after file prints the matching lines of all files' lines, in order; a file's unterminated last line is ended by a newline and not merged with the next file |
| Wgrep.ReportFilesSameBytes | project1/initial-utilities/wgrep/wgrep.cpp:110-135 | files holding the same bytes print the same lines, however `read` cut them into chunks |
| Wgrep.GrepChunking | project1/initial-utilities/wgrep/wgrep.cpp:56-135 | the output and status depend only on which files open and on their bytes (or those of standard input), not on the chunks `read` returns: a line cut between chunks is still one line |
| Wgrep.GrepOutput | project1/initial-utilities/wgrep/wgrep.cpp:56-105 | usage error exactly without arguments; success exactly when all named files open (always with standard input) |
| Wgrep.GrepPrintsMatchingLines | project1/initial-utilities/wgrep/wgrep.cpp:66-71 | the output is exactly the input lines containing the term, in order, each followed by a newline (then the diagnostic if a file fails to open), and it splits back into those lines |
| Wgrep.GrepFiles | project1/initial-utilities/wgrep/wgrep.cpp:79-101 | the file loop prints each opened file's matching lines and stops with the diagnostic and status 1 at the first unopenable file |
| Wgrep.Grep | project1/initial-utilities/wgrep/wgrep.cpp:56-105 | the output and status are those of `GrepOutput`: usage line, standard input, or the named files |

## Left out

- The system calls `open`, `read`, `write`, `close` and `exit` are not modelled.
  - A file is its contents, or the fact that it cannot be opened.
  - Standard input is a parameter.
  - What is written is appended to a byte sequence.
  - A file that opens but fails on `read` is treated as ending there, as the
    loops do when `read` returns 0 or -1.
- wunzip reads each file as one byte sequence. Short reads of `read(fd, &num, 4)`
  occur only at end of file; the model gives the partial read its
  low-bytes-overwritten effect only there.
- The run count's byte order is fixed as little-endian two's complement. The
  source writes the host's raw `int`.
- The `num` and `c` of wunzip are uninitialised when a file starts. The model
  makes them parameters (`num0`, `c0`) shared by all files. They reach the
  output only for a file of 1 to 4 bytes in all: a file holding a whole record
  overwrites both `num` and `c` before any trailing fragment is read.
- Wzip.Zip: requires every run of the input to be shorter than 2^31 bytes. A
  longer run would overflow the C `int count`, which is undefined behaviour;
  the model does not describe it.
- Wzip.ZipOutput: requires every run of the input to be shorter than 2^31 bytes,
  for the same reason as `Wzip.Zip`.
- Pipeline.ZipThenUnzip: requires every run of the input to be shorter than
  2^31 bytes, for the same reason as `Wzip.Zip`.
- The `splitLine` declaration (`wgrep.cpp:54`) is not modelled: it is never
  defined or called.
- Command-line arguments are not modelled as text; the model takes the command
  line already split. wgrep's search term contains no NUL byte, because it
  comes from `argv`.
- `project1/initial-utilities/wcat/wcat.cpp` is not part of this model.
