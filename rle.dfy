/** Run-length encoding: runs, their expansion, the maximal-run decomposition
    the encoder computes, and the 5-byte record format both tools share. */
module Rle {
  import opened Bytes

  /** One record of the compressed format: `count` copies of `value`.
      The decoder reads `count` as an `int32_t`, so it may be zero or negative. */
  datatype Run = Run(count: int, value: uint8)

  /** `n` copies of `v`; nothing when `n <= 0`, as the decoder's
      `for (i = 0; i < num; i++)` loop does not run then. */
  function Repeat(v: uint8, n: int): (r: seq<uint8>)
    ensures |r| == if n > 0 then n else 0
    ensures forall i :: 0 <= i < |r| ==> r[i] == v
    decreases n
  {
    if n <= 0 then [] else Repeat(v, n - 1) + [v]
  }

  /** The bytes the runs stand for, in run order. */
  function Expand(runs: seq<Run>): seq<uint8>
  {
    if runs == [] then []
    else Expand(runs[..|runs| - 1]) + Repeat(runs[|runs| - 1].value, runs[|runs| - 1].count)
  }

  /** The total of the positive counts. */
  function Total(runs: seq<Run>): nat
  {
    if runs == [] then 0
    else
      var n := runs[|runs| - 1].count;
      Total(runs[..|runs| - 1]) + (if n > 0 then n else 0)
  }

  /** Each run contributes exactly its count (when positive) to the expansion. */
  lemma {:induction false} ExpandLength(runs: seq<Run>)
    ensures |Expand(runs)| == Total(runs)
  {
    if runs != [] {
      ExpandLength(runs[..|runs| - 1]);
    }
  }

  /** Expanding two run lists one after the other is expanding their concatenation. */
  lemma {:induction false} ExpandAppend(a: seq<Run>, b: seq<Run>)
    ensures Expand(a + b) == Expand(a) + Expand(b)
  {
    if b == [] {
      assert a + b == a;
    } else {
      assert (a + b)[..|a + b| - 1] == a + b[..|b| - 1];
      ExpandAppend(a, b[..|b| - 1]);
    }
  }

  // ---------------------------------------------------------------------------
  // The encoder's decomposition into maximal runs

  ghost predicate Positive(runs: seq<Run>) {
    forall i :: 0 <= i < |runs| ==> runs[i].count >= 1
  }

  /** No two adjacent runs carry the same byte. */
  ghost predicate Maximal(runs: seq<Run>) {
    forall i :: 0 < i < |runs| ==> runs[i - 1].value != runs[i].value
  }

  /** `runs` is a decomposition of `s` into maximal runs of identical bytes. */
  ghost predicate IsRunEncoding(runs: seq<Run>, s: seq<uint8>) {
    Positive(runs) && Maximal(runs) && Expand(runs) == s
  }

  /** The accumulator step of the encoder: byte `b` extends the current run when
      it repeats its byte, and otherwise starts a new run of count 1. */
  function Push(runs: seq<Run>, b: uint8): seq<Run>
  {
    if runs != [] && runs[|runs| - 1].value == b
    then runs[..|runs| - 1] + [Run(runs[|runs| - 1].count + 1, b)]
    else runs + [Run(1, b)]
  }

  /** The runs the encoder emits for the byte stream `s`, in emission order. */
  function Runs(s: seq<uint8>): (runs: seq<Run>)
    ensures |runs| <= |s|
    ensures s == [] <==> runs == []
  {
    if s == [] then [] else Push(Runs(s[..|s| - 1]), s[|s| - 1])
  }

  /** The encoder's runs are a decomposition of its input into maximal runs:
      every count is at least 1, adjacent runs differ in their byte, and
      expanding the runs in order gives the input back. */
  lemma {:induction false} RunsEncode(s: seq<uint8>)
    ensures IsRunEncoding(Runs(s), s)
  {
    if s != [] {
      var s' := s[..|s| - 1];
      RunsEncode(s');
      PushEncodes(Runs(s'), s', s[|s| - 1]);
      assert s == s' + [s[|s| - 1]];
    }
  }

  lemma PushEncodes(runs: seq<Run>, s: seq<uint8>, b: uint8)
    requires IsRunEncoding(runs, s)
    ensures IsRunEncoding(Push(runs, b), s + [b])
    ensures |Push(runs, b)| <= |runs| + 1
  {
    var r := Push(runs, b);
    if runs != [] && runs[|runs| - 1].value == b {
      var last := runs[|runs| - 1];
      var init := runs[..|runs| - 1];
      assert r[..|r| - 1] == init;
      assert Expand(r) == Expand(init) + Repeat(b, last.count) + [b];
      assert runs[..|runs| - 1] == init;
    } else {
      assert r[..|r| - 1] == runs;
    }
  }

  /** Expanding a run list whose last run is `last`. */
  lemma ExpandSnoc(init: seq<Run>, last: Run)
    ensures Expand(init + [last]) == Expand(init) + Repeat(last.value, last.count)
  {
    assert (init + [last])[..|init|] == init;
  }

  /** Dropping a last run of count 1 leaves a decomposition of the stream
      without its last byte. */
  lemma DropLastRun(runs: seq<Run>, s: seq<uint8>)
    requires IsRunEncoding(runs, s) && runs != [] && runs[|runs| - 1].count == 1
    ensures s != [] && s[|s| - 1] == runs[|runs| - 1].value
    ensures IsRunEncoding(runs[..|runs| - 1], s[..|s| - 1])
    ensures |runs| > 1 ==> runs[|runs| - 2].value != s[|s| - 1]
  {
    var init := runs[..|runs| - 1];
    var last := runs[|runs| - 1];
    assert runs == init + [last];
    ExpandSnoc(init, last);
    assert s == Expand(init) + [last.value];
  }

  /** Shortening a last run of count above 1 leaves a decomposition of the
      stream without its last byte. */
  lemma ShortenLastRun(runs: seq<Run>, s: seq<uint8>)
    requires IsRunEncoding(runs, s) && runs != [] && runs[|runs| - 1].count > 1
    ensures s != [] && s[|s| - 1] == runs[|runs| - 1].value
    ensures IsRunEncoding(runs[..|runs| - 1] + [Run(runs[|runs| - 1].count - 1, s[|s| - 1])], s[..|s| - 1])
  {
    var init := runs[..|runs| - 1];
    var last := runs[|runs| - 1];
    var shorter := init + [Run(last.count - 1, last.value)];
    assert runs == init + [last];
    ExpandSnoc(init, last);
    ExpandSnoc(init, Run(last.count - 1, last.value));
    assert s == Expand(shorter) + [last.value];
    assert Maximal(shorter) by {
      forall i | 0 < i < |shorter| ensures shorter[i - 1].value != shorter[i].value {
        assert shorter[i - 1].value == runs[i - 1].value && shorter[i].value == runs[i].value;
      }
    }
  }

  /** The maximal-run decomposition is unique: any decomposition of `s` into
      positive, maximal runs is the one the encoder emits. */
  lemma {:induction false} RunEncodingUnique(runs: seq<Run>, s: seq<uint8>)
    requires IsRunEncoding(runs, s)
    ensures runs == Runs(s)
    decreases |s|
  {
    if runs == [] {
      return;
    }
    var init := runs[..|runs| - 1];
    var last := runs[|runs| - 1];
    var s' := s[..|s| - 1];
    if last.count == 1 {
      DropLastRun(runs, s);
      RunEncodingUnique(init, s');
      assert runs == Push(init, last.value);
    } else {
      ShortenLastRun(runs, s);
      var shorter := init + [Run(last.count - 1, last.value)];
      RunEncodingUnique(shorter, s');
      assert shorter[..|shorter| - 1] == init;
      assert runs == Push(shorter, last.value);
    }
  }

  /** The counts of the emitted runs add up to the length of the input. */
  lemma RunsTotal(s: seq<uint8>)
    ensures Total(Runs(s)) == |s|
  {
    RunsEncode(s);
    ExpandLength(Runs(s));
  }

  // ---------------------------------------------------------------------------
  // The 5-byte record format

  predicate Int32Counts(runs: seq<Run>) {
    forall i :: 0 <= i < |runs| ==> IsInt32(runs[i].count)
  }

  /** No run of a prefix of a stream is longer than the longest run of the
      stream: if the whole stream's counts fit in an `int`, so do the prefix's. */
  lemma {:induction false} PrefixCountsFit(s: seq<uint8>, n: nat)
    requires n <= |s| && Int32Counts(Runs(s))
    ensures Int32Counts(Runs(s[..n]))
    decreases |s| - n
  {
    if n < |s| {
      var longer := s[..n + 1];
      PrefixCountsFit(s, n + 1);
      assert longer[..n] == s[..n];
      var rs := Runs(s[..n]);
      RunsEncode(s[..n]);
      assert Runs(longer) == Push(rs, s[n]);
      forall i | 0 <= i < |rs| ensures IsInt32(rs[i].count) {
        if i == |rs| - 1 && rs[i].value == s[n] {
          assert Push(rs, s[n])[i].count == rs[i].count + 1;
        } else {
          assert Push(rs, s[n])[i] == rs[i];
        }
      }
    } else {
      assert s[..n] == s;
    }
  }

  /** The five bytes `write(&count, 4); write(&c, 1)` put out for one run. */
  function RecordBytes(r: Run): (bytes: seq<uint8>)
    requires IsInt32(r.count)
    ensures |bytes| == 5 && bytes[4] == r.value
  {
    Int32ToLE(r.count) + [r.value]
  }

  /** The compressed stream for `runs`: one record per run, back to back. */
  function Serialize(runs: seq<Run>): (bytes: seq<uint8>)
    requires Int32Counts(runs)
    ensures |bytes| == 5 * |runs|
  {
    if runs == [] then []
    else Serialize(runs[..|runs| - 1]) + RecordBytes(runs[|runs| - 1])
  }

  /** Appending a run appends its record. */
  lemma SerializeSnoc(runs: seq<Run>, r: Run)
    requires Int32Counts(runs) && IsInt32(r.count)
    ensures Int32Counts(runs + [r])
    ensures Serialize(runs + [r]) == Serialize(runs) + RecordBytes(r)
  {
    assert (runs + [r])[..|runs|] == runs;
  }

  /** The record that starts at byte `5 * i`. */
  function RecordAt(data: seq<uint8>, i: nat): (r: Run)
    requires 5 * i + 5 <= |data|
    ensures IsInt32(r.count) && r.value == data[5 * i + 4]
  {
    Run(LEToInt32(data[5 * i .. 5 * i + 4]), data[5 * i + 4])
  }

  /** The first `n` records of `data`. */
  function RecordsN(data: seq<uint8>, n: nat): (runs: seq<Run>)
    requires 5 * n <= |data|
    ensures |runs| == n
    ensures forall i :: 0 <= i < n ==> runs[i] == RecordAt(data, i)
  {
    if n == 0 then [] else RecordsN(data, n - 1) + [RecordAt(data, n - 1)]
  }

  /** The complete 5-byte records of `data`, in order; a trailing fragment
      shorter than five bytes is not a record. */
  function Records(data: seq<uint8>): (runs: seq<Run>)
    ensures |runs| == |data| / 5
    ensures Int32Counts(runs)
  {
    RecordsN(data, |data| / 5)
  }

  /** A record of a stream that starts with whole records lies in one part. */
  lemma RecordAtAppend(a: seq<uint8>, b: seq<uint8>, i: nat)
    requires |a| % 5 == 0 && 5 * i + 5 <= |a| + |b|
    ensures 5 * i + 5 <= |a| ==> RecordAt(a + b, i) == RecordAt(a, i)
    ensures 5 * i + 5 > |a| ==> 5 * (i - |a| / 5) + 5 <= |b| && RecordAt(a + b, i) == RecordAt(b, i - |a| / 5)
  {
    var ab := a + b;
    if 5 * i + 5 <= |a| {
      assert ab[5 * i .. 5 * i + 4] == a[5 * i .. 5 * i + 4];
    } else {
      var j := i - |a| / 5;
      assert 5 * j == 5 * i - |a|;
      assert ab[5 * i .. 5 * i + 4] == b[5 * j .. 5 * j + 4];
      assert ab[5 * i + 4] == b[5 * j + 4];
    }
  }

  /** The records of two streams, the first of whole records, read one after
      the other. */
  lemma RecordsAppend(a: seq<uint8>, b: seq<uint8>)
    requires |a| % 5 == 0
    ensures Records(a + b) == Records(a) + Records(b)
  {
    var all, ra, rb := Records(a + b), Records(a), Records(b);
    assert |all| == |ra| + |rb|;
    forall i | 0 <= i < |all| ensures all[i] == (ra + rb)[i] {
      RecordAtAppend(a, b, i);
    }
  }

  lemma {:induction false} SerializeAt(runs: seq<Run>, i: nat)
    requires Int32Counts(runs) && i < |runs|
    ensures Serialize(runs)[5 * i .. 5 * i + 5] == RecordBytes(runs[i])
    decreases |runs|
  {
    var init := runs[..|runs| - 1];
    if i < |runs| - 1 {
      SerializeAt(init, i);
      assert Serialize(runs)[5 * i .. 5 * i + 5] == Serialize(init)[5 * i .. 5 * i + 5];
    }
  }

  lemma RecordAtSerialize(runs: seq<Run>, i: nat)
    requires Int32Counts(runs) && i < |runs|
    ensures RecordAt(Serialize(runs), i) == runs[i]
  {
    var data := Serialize(runs);
    SerializeAt(runs, i);
    assert data[5 * i .. 5 * i + 4] == data[5 * i .. 5 * i + 5][..4];
    assert data[5 * i .. 5 * i + 4] == Int32ToLE(runs[i].count);
    Int32RoundTrip(runs[i].count);
  }

  /** Reading back a serialized run list gives the same runs. */
  lemma RecordsOfSerialize(runs: seq<Run>)
    requires Int32Counts(runs)
    ensures Records(Serialize(runs)) == runs
  {
    var rs := Records(Serialize(runs));
    forall i | 0 <= i < |runs| ensures rs[i] == runs[i] {
      RecordAtSerialize(runs, i);
    }
  }

  /** Every stream of whole records is the serialization of what is read from it. */
  lemma SerializeOfRecords(data: seq<uint8>)
    requires |data| % 5 == 0
    ensures Serialize(Records(data)) == data
  {
    var rs := Records(data);
    var out := Serialize(rs);
    forall j | 0 <= j < |data| ensures out[j] == data[j] {
      var i := j / 5;
      SerializeAt(rs, i);
      LERoundTrip(data[5 * i .. 5 * i + 4]);
      assert out[5 * i .. 5 * i + 5] == data[5 * i .. 5 * i + 5];
      assert out[j] == out[5 * i .. 5 * i + 5][j - 5 * i];
    }
  }

  /** Decoding what the encoder writes gives back the encoder's input. */
  lemma RoundTrip(s: seq<uint8>)
    requires Int32Counts(Runs(s))
    ensures Expand(Records(Serialize(Runs(s)))) == s
  {
    RunsEncode(s);
    RecordsOfSerialize(Runs(s));
  }
}
