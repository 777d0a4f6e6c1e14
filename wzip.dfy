/** wzip: run-length compression of the concatenation of the files named on the
    command line, written to standard output as 5-byte records. */
module Wzip {
  import opened Bytes
  import opened Io
  import opened Rle

  /** The logical input: all bytes of all files, in file order, as one stream. */
  function InputStream(files: seq<File>): seq<uint8>
  {
    if files == [] then [] else Flatten(files[0]) + InputStream(files[1..])
  }

  /** The runs completed before the end of the stream: all but the pending last one. */
  function Completed(runs: seq<Run>): (done: seq<Run>)
    ensures runs != [] ==> runs == done + [runs[|runs| - 1]]
    ensures runs == [] ==> done == []
  {
    if runs == [] then [] else runs[..|runs| - 1]
  }

  /** The stream the encoder reads before it stops: the opened files' bytes. */
  function Stream(sources: seq<Source<File>>): seq<uint8>
  {
    InputStream(Opened(sources))
  }

  /** The diagnostics wzip writes, to standard output. */
  const UsageMessage: seq<uint8> := Ascii("wzip: file1 [file2 ...]\n")
  const OpenErrorMessage: seq<uint8> := Ascii("wzip: cannot open file\n")

  /** What wzip writes and how it ends. When a file cannot be opened it stops
      at once: the records completed so far are out, followed by the
      diagnostic; the run still being accumulated is never written (the final
      flush is not reached). */
  function ZipOutput(sources: seq<Source<File>>): (o: Outcome<seq<uint8>>)
    requires Int32Counts(Runs(Stream(sources)))
    ensures o.status == Success <==> |sources| > 0 && AllReadable(sources)
    ensures o.status == UsageError <==> |sources| == 0
    ensures o.status == Success ==> |o.output| % 5 == 0
  {
    var runs := Runs(Stream(sources));
    if |sources| == 0 then Outcome(UsageMessage, UsageError)
    else if AllReadable(sources) then Outcome(Serialize(runs), Success)
    else Outcome(Serialize(Completed(runs)) + OpenErrorMessage, CannotOpenFile)
  }

  /** Naming several files that all open gives the output of naming one file
      that holds their concatenation: runs continue across file boundaries. */
  lemma ZipConcatenation(sources: seq<Source<File>>)
    requires |sources| > 0 && AllReadable(sources) && Int32Counts(Runs(Stream(sources)))
    ensures var one := [Readable([Stream(sources)])];
      Int32Counts(Runs(Stream(one))) && ZipOutput(one) == ZipOutput(sources)
  {
    var s := Stream(sources);
    var file: File := [s];
    var one := [Readable(file)];
    assert one[1..] == [] && Opened(one) == [file];
    assert Flatten(file) == s by {
      assert file[1..] == [] && s + [] == s;
    }
    var files := Opened(one);
    assert InputStream(files) == s by {
      assert files[1..] == [] && s + [] == s;
    }
    assert AllReadable(one);
  }

  /** Files holding the same bytes make the same stream, however `read` cut them. */
  lemma {:induction false} InputStreamSameBytes(these: seq<File>, those: seq<File>)
    requires |these| == |those|
    requires forall k :: 0 <= k < |these| ==> Flatten(these[k]) == Flatten(those[k])
    ensures InputStream(these) == InputStream(those)
    decreases |these|
  {
    if these != [] {
      InputStreamSameBytes(these[1..], those[1..]);
    }
  }

  /** wzip's output depends only on which files open and on their bytes, not
      on how `read` returns those bytes in chunks. */
  lemma ZipChunking(these: seq<Source<File>>, those: seq<Source<File>>)
    requires SameBytes(these, those)
    requires Int32Counts(Runs(Stream(these)))
    ensures Stream(those) == Stream(these)
    ensures Int32Counts(Runs(Stream(those))) && ZipOutput(those) == ZipOutput(these)
  {
    OpenedSameBytes(these, those);
    InputStreamSameBytes(Opened(these), Opened(those));
  }

  /** `count == 0` means no run is pending; otherwise `count` copies of `c` are. */
  function Pending(count: int, c: uint8): seq<Run>
  {
    if count == 0 then [] else [Run(count, c)]
  }

  /** How one more byte changes the accumulator and the completed runs. */
  lemma AccumulatorStep(seen: seq<uint8>, done: seq<Run>, count: int, c: uint8, b: uint8)
    requires count >= 0 && (count == 0 <==> seen == [])
    requires Runs(seen) == done + Pending(count, c)
    ensures count == 0 ==> Runs(seen + [b]) == done + [Run(1, b)]
    ensures count > 0 && c == b ==> Runs(seen + [b]) == done + [Run(count + 1, c)]
    ensures count > 0 && c != b ==> Runs(seen + [b]) == done + [Run(count, c)] + [Run(1, b)]
  {
    assert (seen + [b])[..|seen|] == seen;
    if count > 0 {
      assert (done + [Run(count, c)])[..|done|] == done;
    }
  }

  /** The state of the encoder after the first `pos` bytes of `whole`: the
      records written so far are those of the completed runs, and the pending
      run is held in (`count`, `c`). */
  ghost predicate Accumulated(whole: seq<uint8>, pos: nat, count: int, c: uint8,
                              out: seq<uint8>, done: seq<Run>)
  {
    && pos <= |whole|
    && count >= 0 && (count == 0 <==> pos == 0)
    && Runs(whole[..pos]) == done + Pending(count, c)
    && Int32Counts(done) && out == Serialize(done)
  }

  /** The first byte of the stream starts the first run. */
  lemma ZipStart(whole: seq<uint8>, pos: nat, count: int, c: uint8, out: seq<uint8>, done: seq<Run>)
    requires pos < |whole| && count == 0
    requires Accumulated(whole, pos, count, c, out, done)
    ensures Accumulated(whole, pos + 1, 1, whole[pos], out, done)
  {
    assert whole[..pos + 1] == [] + [whole[pos]];
  }

  /** A byte equal to the pending run's byte extends that run. */
  lemma ZipExtend(whole: seq<uint8>, pos: nat, count: int, c: uint8, out: seq<uint8>, done: seq<Run>)
    requires pos < |whole| && count > 0 && whole[pos] == c
    requires Accumulated(whole, pos, count, c, out, done)
    ensures Accumulated(whole, pos + 1, count + 1, c, out, done)
  {
    TakeSnoc(whole, pos);
    AccumulatorStep(whole[..pos], done, count, c, c);
  }

  /** The run a new byte completes is a run of the stream read so far. */
  lemma CompletedRunFits(seen: seq<uint8>, count: int, c: uint8, done: seq<Run>, b: uint8)
    requires count > 0 && b != c && seen != []
    requires Runs(seen) == done + Pending(count, c)
    requires Int32Counts(Runs(seen + [b]))
    ensures IsInt32(count)
  {
    AccumulatorStep(seen, done, count, c, b);
    assert Runs(seen + [b])[|done|] == Run(count, c);
  }

  /** A byte different from the pending run's byte completes that run, and
      its count fits in an `int`. */
  lemma ZipEmitFits(whole: seq<uint8>, pos: nat, count: int, c: uint8, done: seq<Run>)
    requires 0 < pos < |whole| && count > 0 && whole[pos] != c
    requires Int32Counts(Runs(whole))
    requires Runs(whole[..pos]) == done + [Run(count, c)]
    ensures IsInt32(count)
  {
    PrefixCountsFit(whole, pos + 1);
    TakeSnoc(whole, pos);
    CompletedRunFits(whole[..pos], count, c, done, whole[pos]);
  }

  /** A byte different from the pending run's byte completes that run, whose
      record is written, and starts a new one. */
  lemma ZipEmit(whole: seq<uint8>, pos: nat, count: int, c: uint8, out: seq<uint8>, done: seq<Run>)
    requires pos < |whole| && count > 0 && whole[pos] != c && IsInt32(count)
    requires Accumulated(whole, pos, count, c, out, done)
    ensures Accumulated(whole, pos + 1, 1, whole[pos], out + RecordBytes(Run(count, c)), done + [Run(count, c)])
  {
    TakeSnoc(whole, pos);
    AccumulatorStep(whole[..pos], done, count, c, whole[pos]);
    SerializeSnoc(done, Run(count, c));
  }

  /** Splitting a slice of the stream where its two known parts meet. */
  lemma SliceSplit(whole: seq<uint8>, pos: nat, mid: nat, end: nat, a: seq<uint8>, b: seq<uint8>)
    requires pos <= end <= |whole| && whole[pos..end] == a + b && mid == pos + |a|
    ensures mid <= end
    ensures whole[pos..mid] == a && whole[mid..end] == b
  {
    assert whole[pos..mid] == whole[pos..end][..|a|];
    assert whole[mid..end] == whole[pos..end][|a|..];
  }

  /** The stream from file `i` on: that file's bytes, then the rest; nothing
      when the file cannot be opened. */
  lemma StreamFrom(sources: seq<Source<File>>, i: nat)
    requires i < |sources|
    ensures sources[i].Readable? ==>
      InputStream(Opened(sources[i..])) == Flatten(sources[i].contents) + InputStream(Opened(sources[i + 1..]))
    ensures sources[i].Unopenable? ==> InputStream(Opened(sources[i..])) == []
  {
    assert sources[i..][1..] == sources[i + 1..];
    if sources[i].Readable? {
      var files := Opened(sources[i..]);
      assert files[1..] == Opened(sources[i + 1..]);
    }
  }

  /** Flushing the pending run completes the records of `runs`; without the
      flush, the records of the completed runs are out. */
  lemma FlushPending(runs: seq<Run>, count: int, c: uint8, out: seq<uint8>, done: seq<Run>)
    requires Int32Counts(runs) && count >= 0 && (count == 0 ==> done == [])
    requires runs == done + Pending(count, c)
    requires Int32Counts(done) && out == Serialize(done)
    ensures Int32Counts(Completed(runs)) && out == Serialize(Completed(runs))
    ensures count == 0 ==> out == Serialize(runs)
    ensures count > 0 ==> IsInt32(count) && out + RecordBytes(Run(count, c)) == Serialize(runs)
  {
    if count > 0 {
      assert runs[|done|] == Run(count, c);
      SerializeSnoc(done, Run(count, c));
      assert Completed(runs) == done;
    } else {
      assert runs == done;
    }
  }

  /** At the end of the stream the accumulator holds all of its runs. */
  lemma ZipFinish(whole: seq<uint8>, count: int, c: uint8, out: seq<uint8>, done: seq<Run>)
    requires Accumulated(whole, |whole|, count, c, out, done)
    ensures Runs(whole) == done + Pending(count, c)
    ensures count == 0 ==> done == []
  {
    assert whole[..|whole|] == whole;
  }

  /** wzip stopped at a file it cannot open, after reading the whole stream
      before it: what it has written is its output. */
  lemma ZipStops(sources: seq<Source<File>>, i: nat, pos: nat, count: int, c: uint8, out: seq<uint8>, done: seq<Run>)
    requires i < |sources| && sources[i].Unopenable?
    requires Int32Counts(Runs(Stream(sources)))
    requires pos <= |Stream(sources)| && Stream(sources)[pos..|Stream(sources)|] == InputStream(Opened(sources[i..]))
    requires Accumulated(Stream(sources), pos, count, c, out, done)
    ensures ZipOutput(sources) == Outcome(out + OpenErrorMessage, CannotOpenFile)
  {
    StreamFrom(sources, i);
    assert pos == |Stream(sources)|;
    ZipFinish(Stream(sources), count, c, out, done);
    FlushPending(Runs(Stream(sources)), count, c, out, done);
  }

  /** wzip read every file: after the final flush its output is the records
      of all runs of the stream. The requires keep the shape of `Zip`'s loop
      invariant at `i == |sources|` (`sources[..i]`, `sources[i..]`), so the
      caller passes them on as they are and the slices are resolved here. */
  lemma ZipEnds(sources: seq<Source<File>>, pos: nat, count: int, c: uint8, out: seq<uint8>, done: seq<Run>)
    requires |sources| > 0 && AllReadable(sources[..|sources|])
    requires Int32Counts(Runs(Stream(sources)))
    requires pos <= |Stream(sources)| && Stream(sources)[pos..|Stream(sources)|] == InputStream(Opened(sources[|sources|..]))
    requires Accumulated(Stream(sources), pos, count, c, out, done)
    ensures count == 0 ==> ZipOutput(sources) == Outcome(out, Success)
    ensures count > 0 ==> IsInt32(count) && ZipOutput(sources) == Outcome(out + RecordBytes(Run(count, c)), Success)
  {
    assert sources[|sources|..] == [];
    assert sources[..|sources|] == sources;
    assert pos == |Stream(sources)|;
    ZipFinish(Stream(sources), count, c, out, done);
    FlushPending(Runs(Stream(sources)), count, c, out, done);
  }

  /** The body of wzip's byte loop: byte `b`, the stream's byte at `pos`,
      starts the first run, extends the pending run, or writes the pending
      run's record and starts a new run. */
  method ZipByte(b: uint8, count0: int, c0: uint8, out0: seq<uint8>,
                 ghost whole: seq<uint8>, ghost pos: nat, ghost done0: seq<Run>)
    returns (count: int, c: uint8, out: seq<uint8>, ghost done: seq<Run>)
    requires pos < |whole| && whole[pos] == b
    requires Int32Counts(Runs(whole))
    requires Accumulated(whole, pos, count0, c0, out0, done0)
    ensures Accumulated(whole, pos + 1, count, c, out, done)
  {
    if count0 == 0 {
      ZipStart(whole, pos, count0, c0, out0, done0);
      count, c, out, done := 1, b, out0, done0;
    } else if c0 == b {
      ZipExtend(whole, pos, count0, c0, out0, done0);
      count, c, out, done := count0 + 1, c0, out0, done0;
    } else {
      ZipEmitFits(whole, pos, count0, c0, done0);
      ZipEmit(whole, pos, count0, c0, out0, done0);
      out := out0 + RecordBytes(Run(count0, c0));
      done := done0 + [Run(count0, c0)];
      count, c := 1, b;
    }
  }

  /** The byte loop of wzip over one buffer filled by `read`, which holds the
      bytes `start` .. `end` of the whole input stream. */
  method ZipBuffer(buffer: seq<uint8>, count0: int, c0: uint8, out0: seq<uint8>,
                   ghost whole: seq<uint8>, ghost start: nat, ghost end: nat, ghost done0: seq<Run>)
    returns (count: int, c: uint8, out: seq<uint8>, ghost done: seq<Run>)
    requires start <= end <= |whole| && whole[start..end] == buffer
    requires Int32Counts(Runs(whole))
    requires Accumulated(whole, start, count0, c0, out0, done0)
    ensures Accumulated(whole, end, count, c, out, done)
  {
    count, c, out, done := count0, c0, out0, done0;
    ghost var pos := start;
    var j := 0;
    while j < |buffer|
      invariant 0 <= j <= |buffer| && pos == start + j
      invariant Accumulated(whole, pos, count, c, out, done)
    {
      assert whole[pos] == buffer[j] by {
        assert whole[start..end][j] == whole[start + j];
      }
      count, c, out, done := ZipByte(buffer[j], count, c, out, whole, pos, done);
      pos := pos + 1;
      j := j + 1;
    }
    assert pos == end;
  }

  /** The read loop of wzip over one opened file, which holds the bytes from
      `start` on of the whole input stream: every chunk `read` returns is fed
      through the same accumulator, so a run may span chunks. */
  method ZipFile(chunks: File, count0: int, c0: uint8, out0: seq<uint8>,
                 ghost whole: seq<uint8>, ghost start: nat, ghost end: nat, ghost done0: seq<Run>)
    returns (count: int, c: uint8, out: seq<uint8>, ghost done: seq<Run>)
    requires start <= end <= |whole| && whole[start..end] == Flatten(chunks)
    requires Int32Counts(Runs(whole))
    requires Accumulated(whole, start, count0, c0, out0, done0)
    ensures Accumulated(whole, end, count, c, out, done)
  {
    count, c, out, done := count0, c0, out0, done0;
    ghost var pos := start;
    var r := 0;
    while r < |chunks|
      invariant 0 <= r <= |chunks|
      invariant start <= pos <= end
      invariant whole[pos..end] == Flatten(chunks[r..])
      invariant Accumulated(whole, pos, count, c, out, done)
    {
      var buffer := chunks[r];
      FlattenFrom(chunks, r);
      ghost var next := pos + |buffer|;
      SliceSplit(whole, pos, next, end, buffer, Flatten(chunks[r + 1..]));
      count, c, out, done := ZipBuffer(buffer, count, c, out, whole, pos, next, done);
      pos := next;
      r := r + 1;
    }
    assert chunks[r..] == [];
    assert pos == end;
  }

  /** One file that opens, in the file loop of wzip: the accumulator
      invariant moves from the start of its bytes in the stream to their end. */
  method ZipSource(sources: seq<Source<File>>, i: nat, count0: int, c0: uint8, out0: seq<uint8>,
                   ghost whole: seq<uint8>, ghost pos0: nat, ghost done0: seq<Run>)
    returns (count: int, c: uint8, out: seq<uint8>, ghost done: seq<Run>, ghost pos: nat)
    requires i < |sources| && sources[i].Readable? && whole == Stream(sources)
    requires Int32Counts(Runs(whole))
    requires pos0 <= |whole| && whole[pos0..|whole|] == InputStream(Opened(sources[i..]))
    requires Accumulated(whole, pos0, count0, c0, out0, done0)
    ensures pos <= |whole| && whole[pos..|whole|] == InputStream(Opened(sources[i + 1..]))
    ensures Accumulated(whole, pos, count, c, out, done)
  {
    StreamFrom(sources, i);
    var chunks := sources[i].contents;
    pos := pos0 + |Flatten(chunks)|;
    SliceSplit(whole, pos0, pos, |whole|, Flatten(chunks), InputStream(Opened(sources[i + 1..])));
    count, c, out, done := ZipFile(chunks, count0, c0, out0, whole, pos0, pos, done0);
  }

  /** The main loop of wzip: one accumulator (`c`, `count`) shared by every
      chunk of every file, a record written whenever a run ends, and one
      flush after the last file. */
  method Zip(sources: seq<Source<File>>) returns (out: seq<uint8>, status: Status)
    requires Int32Counts(Runs(Stream(sources)))
    ensures Outcome(out, status) == ZipOutput(sources)
  {
    if |sources| == 0 {
      out := UsageMessage;
      status := UsageError;
      return;
    }
    out := [];
    ghost var whole := Stream(sources);
    var count := 0;
    var c: uint8 := 0;
    ghost var done: seq<Run> := [];
    ghost var pos: nat := 0;
    var i := 0;
    while i < |sources|
      invariant 0 <= i <= |sources|
      invariant AllReadable(sources[..i])
      invariant pos <= |whole| && whole[pos..|whole|] == InputStream(Opened(sources[i..]))
      invariant Accumulated(whole, pos, count, c, out, done)
    {
      if sources[i].Unopenable? {
        ZipStops(sources, i, pos, count, c, out, done);
        out := out + OpenErrorMessage;
        status := CannotOpenFile;
        return;
      }
      AllReadableSnoc(sources, i);
      count, c, out, done, pos := ZipSource(sources, i, count, c, out, whole, pos, done);
      i := i + 1;
    }
    ZipEnds(sources, pos, count, c, out, done);
    if count > 0 {
      out := out + RecordBytes(Run(count, c));
    }
    status := Success;
  }
}
