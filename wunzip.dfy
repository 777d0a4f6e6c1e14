/** wunzip: expands the 5-byte records of each file named on the command
    line, in order, onto standard output. */
module Wunzip {
  import opened Bytes
  import opened Io
  import opened Rle

  /** The diagnostics wunzip writes, to standard output. */
  const UsageMessage: seq<uint8> := Ascii("wunzip: file1 [file2 ...]\n")
  const OpenErrorMessage: seq<uint8> := Ascii("wunzip: cannot open file\n")

  /** The `int32_t` that `read(fd, &num, 4)` leaves in `num` when it delivers
      the bytes `got`: they replace the low-order bytes of the previous value
      and the others keep theirs. */
  function Overlay(num: int, got: seq<uint8>): (n: int)
    requires IsInt32(num) && |got| <= 4
    ensures IsInt32(n)
    ensures |got| == 4 ==> n == LEToInt32(got)
  {
    var kept := Int32ToLE(num)[|got|..];
    assert |got| == 4 ==> got + kept == got;
    LEToInt32(got + kept)
  }

  /** What the record loop writes for the unread rest `data` of a file, when
      `num` and `c` hold what the previous iteration left in them: each
      iteration reads up to four bytes into `num` and then one byte into `c`
      (a read at the end of the file leaves the variable as it was), and
      writes `num` copies of `c`. */
  function Decode(data: seq<uint8>, num: int, c: uint8): seq<uint8>
    requires IsInt32(num)
    decreases |data|
  {
    if data == [] then []
    else
      var got := if |data| < 4 then |data| else 4;
      var num' := Overlay(num, data[..got]);
      var c' := if got < |data| then data[got] else c;
      var rest := if got < |data| then data[got + 1..] else [];
      Repeat(c', num') + Decode(rest, num', c')
  }

  /** Removing one record keeps a length a whole number of records. */
  lemma DropRecordLength(n: int)
    requires n >= 5 && n % 5 == 0
    ensures (n - 5) % 5 == 0 && (n - 5) / 5 == n / 5 - 1
  {
  }

  /** The decoding of everything after a first record of five bytes. */
  lemma DecodeFirstRecord(data: seq<uint8>, num: int, c: uint8)
    requires |data| >= 5 && IsInt32(num)
    ensures Decode(data, num, c) == Expand([RecordAt(data, 0)]) + Decode(data[5..], RecordAt(data, 0).count, data[4])
  {
    var r := RecordAt(data, 0);
    var head := data[..4];
    assert r == Run(LEToInt32(head), data[4]) by {
      assert data[0..4] == head;
    }
    assert Expand([r]) == Repeat(r.value, r.count) by {
      assert [r][..0] == [];
    }
    assert Overlay(num, head) == r.count;
    assert Decode(data, num, c) == Repeat(data[4], r.count) + Decode(data[5..], r.count, data[4]);
  }

  /** Record `i` after the first record is record `i + 1` of the whole. */
  lemma RecordAtDrop(data: seq<uint8>, i: nat)
    requires 5 * i + 10 <= |data|
    ensures RecordAt(data[5..], i) == RecordAt(data, i + 1)
  {
    assert data[5..][5 * i .. 5 * i + 4] == data[5 * (i + 1) .. 5 * (i + 1) + 4];
  }

  /** Reading the records of `data` starts with its first record. */
  lemma RecordsCons(data: seq<uint8>)
    requires |data| >= 5
    ensures Records(data) == [RecordAt(data, 0)] + Records(data[5..])
  {
    var rs := Records(data[5..]);
    var all := Records(data);
    assert |all| == |rs| + 1;
    forall i | 0 < i < |all| ensures all[i] == rs[i - 1] {
      RecordAtDrop(data, i - 1);
    }
    assert all == [all[0]] + rs;
  }

  /** One record more: if the rest after the first record decodes to the
      expansion of its records, so does the whole. */
  lemma DecodeWholeStep(data: seq<uint8>, num: int, c: uint8)
    requires |data| >= 5 && IsInt32(num)
    requires Decode(data[5..], RecordAt(data, 0).count, data[4]) == Expand(Records(data[5..]))
    ensures Decode(data, num, c) == Expand(Records(data))
  {
    var r := RecordAt(data, 0);
    DecodeFirstRecord(data, num, c);
    RecordsCons(data);
    ExpandAppend([r], Records(data[5..]));
  }

  /** A file of whole records decodes to the expansion of its records, whatever
      `num` and `c` held before. */
  lemma {:induction false} DecodeWholeRecords(data: seq<uint8>, num: int, c: uint8)
    requires |data| % 5 == 0 && IsInt32(num)
    ensures Decode(data, num, c) == Expand(Records(data))
    decreases |data|
  {
    if data != [] {
      DropRecordLength(|data|);
      DecodeWholeRecords(data[5..], RecordAt(data, 0).count, data[4]);
      DecodeWholeStep(data, num, c);
    }
  }

  /** The record a file of whole records leaves in `num` and `c`. */
  function LastRecord(data: seq<uint8>, num: int, c: uint8): (r: Run)
    requires |data| % 5 == 0 && IsInt32(num)
    ensures IsInt32(r.count)
    ensures data == [] ==> r == Run(num, c)
    ensures data != [] ==> r.value == data[|data| - 1]
  {
    if data == [] then Run(num, c) else RecordAt(data, |data| / 5 - 1)
  }

  /** Dropping the first record leaves the same last record; with no record
      left, the first one is the last. */
  lemma LastRecordDrop(whole: seq<uint8>, num: int, c: uint8)
    requires |whole| >= 5 && |whole| % 5 == 0 && IsInt32(num)
    ensures |whole[5..]| % 5 == 0
    ensures LastRecord(whole[5..], RecordAt(whole, 0).count, whole[4]) == LastRecord(whole, num, c)
  {
    DropRecordLength(|whole|);
    if whole[5..] != [] {
      RecordAtDrop(whole, |whole| / 5 - 2);
    }
  }

  /** An incomplete record alone: no byte is read into `c`. */
  lemma DecodeFragment(frag: seq<uint8>, num: int, c: uint8)
    requires 1 <= |frag| <= 4 && IsInt32(num)
    ensures Decode(frag, num, c) == Repeat(c, Overlay(num, frag))
  {
    assert frag[..|frag|] == frag;
  }

  /** A file that ends in an incomplete record of one to four bytes: those bytes
      overwrite the low-order bytes of the last record's count, no byte is
      read into `c`, and the decoder writes that many more copies of the last
      record's byte (of the indeterminate initial values, if there is no
      whole record). */
  lemma {:induction false} DecodeTruncated(whole: seq<uint8>, frag: seq<uint8>, num: int, c: uint8)
    requires |whole| % 5 == 0 && 1 <= |frag| <= 4 && IsInt32(num)
    ensures var last := LastRecord(whole, num, c);
      Decode(whole + frag, num, c) == Expand(Records(whole)) + Repeat(last.value, Overlay(last.count, frag))
    decreases |whole|
  {
    var data := whole + frag;
    if whole == [] {
      assert data == frag;
      DecodeFragment(frag, num, c);
    } else {
      var r := RecordAt(whole, 0);
      assert data[..5] == whole[..5] && data[5..] == whole[5..] + frag;
      assert RecordAt(data, 0) == r by {
        assert data[0..4] == whole[0..4];
      }
      LastRecordDrop(whole, num, c);
      DecodeFirstRecord(data, num, c);
      DecodeTruncated(whole[5..], frag, r.count, whole[4]);
      RecordsCons(whole);
      ExpandAppend([r], Records(whole[5..]));
      var last := LastRecord(whole, num, c);
      AppendAssoc(Expand([r]), Expand(Records(whole[5..])), Repeat(last.value, Overlay(last.count, frag)));
    }
  }

  /** One iteration of the record loop at position `pos` of the file: `got`
      bytes are read into `num`, then one into `c` unless the file has ended,
      and reading resumes at `next`. */
  lemma DecodeAt(data: seq<uint8>, pos: nat, num: int, c: uint8, got: nat, num': int, c': uint8, next: nat)
    requires pos < |data| && IsInt32(num)
    requires got == if |data| - pos < 4 then |data| - pos else 4
    requires num' == Overlay(num, data[pos..pos + got])
    requires c' == if pos + got < |data| then data[pos + got] else c
    requires next == if pos + got < |data| then pos + got + 1 else |data|
    ensures Decode(data[pos..], num, c) == Repeat(c', num') + Decode(data[next..], num', c')
  {
    var rest := data[pos..];
    assert rest[..got] == data[pos..pos + got];
    if pos + got < |data| {
      assert rest[got + 1..] == data[next..];
    } else {
      assert data[next..] == [];
    }
  }

  /** The inner loop of wunzip: `num` single-byte writes of `c`; none when
      `num` is zero or negative. */
  method WriteRun(out0: seq<uint8>, c: uint8, num: int) returns (out: seq<uint8>)
    ensures out == out0 + Repeat(c, num)
  {
    out := out0;
    var i := 0;
    while i < num
      invariant 0 <= i <= (if num > 0 then num else 0)
      invariant out == out0 + Repeat(c, i)
    {
      out := out + [c];
      i := i + 1;
    }
  }

  /** The record loop over one opened file, with `num0` and `c0` the
      indeterminate values the uninitialised `num` and `c` start with. */
  method UnzipFile(data: seq<uint8>, num0: int, c0: uint8) returns (out: seq<uint8>)
    requires IsInt32(num0)
    ensures out == Decode(data, num0, c0)
  {
    out := [];
    var num, c := num0, c0;
    var pos := 0;
    while pos < |data|
      invariant 0 <= pos <= |data| && IsInt32(num)
      invariant out + Decode(data[pos..], num, c) == Decode(data, num0, c0)
      decreases |data| - pos
    {
      ghost var before, pos1, num1, c1 := out, pos, num, c;
      var got := if |data| - pos < 4 then |data| - pos else 4;
      num := Overlay(num, data[pos..pos + got]);
      pos := pos + got;
      if pos < |data| {
        c := data[pos];
        pos := pos + 1;
      }
      DecodeAt(data, pos1, num1, c1, got, num, c, pos);
      out := WriteRun(out, c, num);
      AppendAssoc(before, Repeat(c, num), Decode(data[pos..], num, c));
    }
  }

  /** What the record loops write for the opened files, in order, each
      starting from the indeterminate values `num0` and `c0`. */
  function DecodeFiles(files: seq<seq<uint8>>, num0: int, c0: uint8): seq<uint8>
    requires IsInt32(num0)
  {
    if files == [] then [] else Decode(files[0], num0, c0) + DecodeFiles(files[1..], num0, c0)
  }

  /** One more file in front. */
  lemma DecodeFilesCons(f: seq<uint8>, files: seq<seq<uint8>>, num0: int, c0: uint8)
    requires IsInt32(num0)
    ensures DecodeFiles([f] + files, num0, c0) == Decode(f, num0, c0) + DecodeFiles(files, num0, c0)
  {
    assert ([f] + files)[1..] == files;
  }

  /** Each file holds whole records only. */
  predicate WholeRecords(files: seq<seq<uint8>>) {
    forall k :: 0 <= k < |files| ==> |files[k]| % 5 == 0
  }

  /** Files of whole records decode as their concatenation does: the records
      of all the files, in order, expanded, whatever `num0` and `c0` are. */
  lemma {:induction false} DecodeFilesWhole(files: seq<seq<uint8>>, num0: int, c0: uint8)
    requires WholeRecords(files) && IsInt32(num0)
    ensures |Flatten(files)| % 5 == 0
    ensures DecodeFiles(files, num0, c0) == Expand(Records(Flatten(files)))
    decreases |files|
  {
    if files != [] {
      var f, rest := files[0], files[1..];
      assert WholeRecords(rest) by {
        forall k | 0 <= k < |rest| ensures |rest[k]| % 5 == 0 {
          assert rest[k] == files[k + 1];
        }
      }
      DecodeFilesWhole(rest, num0, c0);
      assert |f| % 5 == 0;
      DecodeWholeRecords(f, num0, c0);
      RecordsAppend(f, Flatten(rest));
      ExpandAppend(Records(f), Records(Flatten(rest)));
    }
  }

  /** What wunzip leaves behind for the files named on the command line, when
      the uninitialised `num` and `c` of each file start out as `num0` and
      `c0`: the usage line without any file; otherwise the expansions of the
      files opened, followed, if some file cannot be opened, by the error
      line. */
  function UnzipOutput(sources: seq<Source<seq<uint8>>>, num0: int, c0: uint8): (o: Outcome<seq<uint8>>)
    requires IsInt32(num0)
    ensures o.status == Success <==> |sources| > 0 && AllReadable(sources)
    ensures o.status == UsageError <==> |sources| == 0
  {
    if |sources| == 0 then Outcome(UsageMessage, UsageError)
    else
      var text := DecodeFiles(Opened(sources), num0, c0);
      if AllReadable(sources) then Outcome(text, Success)
      else Outcome(text + OpenErrorMessage, CannotOpenFile)
  }

  /** The file loop of wunzip: each file is opened and expanded in turn; the
      first file that cannot be opened ends the run with the error line. */
  method Unzip(sources: seq<Source<seq<uint8>>>, num0: int, c0: uint8) returns (out: seq<uint8>, status: Status)
    requires IsInt32(num0)
    ensures Outcome(out, status) == UnzipOutput(sources, num0, c0)
  {
    if |sources| == 0 {
      out := UsageMessage;
      status := UsageError;
      return;
    }
    out := [];
    var i := 0;
    while i < |sources|
      invariant 0 <= i <= |sources|
      invariant AllReadable(sources[..i])
      invariant out + DecodeFiles(Opened(sources[i..]), num0, c0) == DecodeFiles(Opened(sources), num0, c0)
    {
      OpenedFrom(sources, i);
      if sources[i].Unopenable? {
        assert DecodeFiles(Opened(sources[i..]), num0, c0) == [];
        assert out == DecodeFiles(Opened(sources), num0, c0);
        assert !AllReadable(sources) by {
          assert !sources[i].Readable?;
        }
        out := out + OpenErrorMessage;
        status := CannotOpenFile;
        return;
      }
      var data := sources[i].contents;
      AllReadableSnoc(sources, i);
      ghost var before := out;
      DecodeFilesCons(data, Opened(sources[i + 1..]), num0, c0);
      var text := UnzipFile(data, num0, c0);
      out := out + text;
      AppendAssoc(before, text, DecodeFiles(Opened(sources[i + 1..]), num0, c0));
      i := i + 1;
    }
    assert sources[i..] == [] && DecodeFiles(Opened(sources[i..]), num0, c0) == [];
    assert sources[..i] == sources;
    status := Success;
    assert AllReadable(sources);
    assert out == DecodeFiles(Opened(sources), num0, c0);
  }
}
