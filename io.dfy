/** The command-line shell the three utilities share: the files named on the
    command line, the exit status, and what ends up on standard output.

    A file is modelled by its contents (or by the fact that `open` fails on it);
    the `open`/`read`/`write`/`close` calls themselves are not modelled. */
module Io {
  import opened Bytes

  /** The bytes of a message made of ASCII characters, as `write` puts them out. */
  function Ascii(text: string): (bytes: seq<uint8>)
    requires forall i :: 0 <= i < |text| ==> text[i] as int < 0x80
    ensures |bytes| == |text|
    ensures forall i :: 0 <= i < |text| ==> bytes[i] == text[i] as int
  {
    seq(|text|, i requires 0 <= i < |text| => text[i] as int)
  }

  /** Each utility ends with status 0, or writes one diagnostic line to standard
      output (not standard error) and ends with status 1. */
  datatype Status = Success | UsageError | CannotOpenFile {
    function ExitCode(): (code: int)
      ensures code == 0 <==> Success?
      ensures code == 0 || code == 1
    {
      if Success? then 0 else 1
    }
  }

  /** A file named on the command line: `open` fails on it, or it holds `contents`. */
  datatype Source<T> = Unopenable | Readable(contents: T)

  /** A file as a reading loop sees it: the chunks successive `read` calls
      return (at most 4096 bytes each, in the source). */
  type File = seq<seq<uint8>>

  /** What a run of a utility leaves behind: its standard output and its status. */
  datatype Outcome<T> = Outcome(output: T, status: Status)

  predicate AllReadable<T>(sources: seq<Source<T>>) {
    forall k :: 0 <= k < |sources| ==> sources[k].Readable?
  }

  /** One more readable file extends a readable prefix. */
  lemma AllReadableSnoc<T>(sources: seq<Source<T>>, i: nat)
    requires i < |sources| && AllReadable(sources[..i]) && sources[i].Readable?
    ensures AllReadable(sources[..i + 1])
  {
    var longer := sources[..i + 1];
    forall k | 0 <= k < i + 1 ensures longer[k].Readable? {
      if k < i {
        assert sources[..i][k] == sources[k];
      }
    }
  }

  /** The contents of the files that are processed: those before the first one
      that cannot be opened (processing stops there, with exit status 1). */
  function Opened<T>(sources: seq<Source<T>>): (files: seq<T>)
    ensures |files| <= |sources|
  {
    if sources == [] || sources[0].Unopenable? then []
    else [sources[0].contents] + Opened(sources[1..])
  }

  /** The opened files are the leading run of readable files, in command-line
      order, and they stop exactly at the first file that cannot be opened. */
  lemma {:induction false} OpenedIsReadablePrefix<T>(sources: seq<Source<T>>)
    ensures forall k :: 0 <= k < |Opened(sources)| ==> sources[k] == Readable(Opened(sources)[k])
    ensures |Opened(sources)| < |sources| ==> sources[|Opened(sources)|].Unopenable?
    ensures |Opened(sources)| == |sources| <==> AllReadable(sources)
  {
    if sources != [] && sources[0].Readable? {
      OpenedIsReadablePrefix(sources[1..]);
      var files := Opened(sources);
      assert files == [sources[0].contents] + Opened(sources[1..]);
      forall k | 0 <= k < |files| ensures sources[k] == Readable(files[k]) {
        if k > 0 { assert sources[1..][k - 1] == sources[k]; }
      }
      if AllReadable(sources) {
        assert AllReadable(sources[1..]) by {
          forall k | 0 <= k < |sources| - 1 ensures sources[1..][k].Readable? {
            assert sources[1..][k] == sources[k + 1];
          }
        }
      }
      if |files| == |sources| {
        forall k | 0 <= k < |sources| ensures sources[k].Readable? {
          assert sources[k] == Readable(files[k]);
        }
      }
    }
  }

  /** The files opened from position `i` on: file `i`, then those after it;
      none when file `i` cannot be opened. */
  lemma OpenedFrom<T>(sources: seq<Source<T>>, i: nat)
    requires i < |sources|
    ensures sources[i].Readable? ==> Opened(sources[i..]) == [sources[i].contents] + Opened(sources[i + 1..])
    ensures sources[i].Unopenable? ==> Opened(sources[i..]) == []
  {
    assert sources[i..][1..] == sources[i + 1..];
  }

  /** The chunks of a stream, joined in order. */
  function Flatten<T>(chunks: seq<seq<T>>): (s: seq<T>)
  {
    if chunks == [] then [] else chunks[0] + Flatten(chunks[1..])
  }

  /** Concatenation is associative. */
  lemma AppendAssoc<T>(a: seq<T>, b: seq<T>, c: seq<T>)
    ensures (a + b) + c == a + (b + c)
  {
  }

  /** A prefix one element longer. */
  lemma TakeSnoc<T>(s: seq<T>, n: nat)
    requires n < |s|
    ensures s[..n + 1] == s[..n] + [s[n]]
  {
  }

  /** The chunks from `r` on: chunk `r`, then the rest. */
  lemma FlattenFrom<T>(chunks: seq<seq<T>>, r: nat)
    requires r < |chunks|
    ensures Flatten(chunks[r..]) == chunks[r] + Flatten(chunks[r + 1..])
  {
    assert chunks[r..][1..] == chunks[r + 1..];
  }

  /** Flattening distributes over concatenation of chunk lists: however a
      stream is cut into chunks, the same bytes come out in the same order. */
  lemma {:induction false} FlattenAppend<T>(a: seq<seq<T>>, b: seq<seq<T>>)
    ensures Flatten(a + b) == Flatten(a) + Flatten(b)
  {
    if a == [] {
      assert a + b == b;
    } else {
      assert (a + b)[1..] == a[1..] + b;
      FlattenAppend(a[1..], b);
    }
  }

  /** Chunk `k` cut in two at `j`: what a `read` that returns fewer bytes
      leaves for the next `read`. */
  function SplitChunk<T>(chunks: seq<seq<T>>, k: nat, j: nat): (split: seq<seq<T>>)
    requires k < |chunks| && j <= |chunks[k]|
    ensures |split| == |chunks| + 1
    ensures split[k] + split[k + 1] == chunks[k]
  {
    chunks[..k] + [chunks[k][..j], chunks[k][j..]] + chunks[k + 1..]
  }

  /** One chunk in front of the others. */
  lemma {:induction false} FlattenCons<T>(c: seq<T>, rest: seq<seq<T>>)
    ensures Flatten([c] + rest) == c + Flatten(rest)
  {
    assert ([c] + rest)[1..] == rest;
  }

  /** Cutting a chunk in two does not change the stream. */
  lemma {:induction false} FlattenSplit<T>(chunks: seq<seq<T>>, k: nat, j: nat)
    requires k < |chunks| && j <= |chunks[k]|
    ensures Flatten(SplitChunk(chunks, k, j)) == Flatten(chunks)
  {
    var front, back := chunks[..k], chunks[k + 1..];
    var x, y := chunks[k][..j], chunks[k][j..];
    calc {
      Flatten(SplitChunk(chunks, k, j));
      { assert SplitChunk(chunks, k, j) == front + ([x] + ([y] + back));
        FlattenAppend(front, [x] + ([y] + back)); }
      Flatten(front) + Flatten([x] + ([y] + back));
      { FlattenCons(x, [y] + back); FlattenCons(y, back); }
      Flatten(front) + (x + (y + Flatten(back)));
      { assert x + y == chunks[k]; }
      Flatten(front) + (chunks[k] + Flatten(back));
      { FlattenCons(chunks[k], back); }
      Flatten(front) + Flatten([chunks[k]] + back);
      { assert chunks == front + ([chunks[k]] + back);
        FlattenAppend(front, [chunks[k]] + back); }
      Flatten(chunks);
    }
  }

  /** Two command lines naming files that open alike and hold the same bytes,
      however `read` cuts those bytes into chunks. */
  predicate SameBytes(these: seq<Source<File>>, those: seq<Source<File>>) {
    |these| == |those| &&
    forall k :: 0 <= k < |these| ==>
      (these[k].Readable? <==> those[k].Readable?) &&
      (these[k].Readable? ==> Flatten(these[k].contents) == Flatten(those[k].contents))
  }

  /** Such command lines open the same number of files, with the same bytes. */
  lemma {:induction false} OpenedSameBytes(these: seq<Source<File>>, those: seq<Source<File>>)
    requires SameBytes(these, those)
    ensures |Opened(these)| == |Opened(those)|
    ensures forall k :: 0 <= k < |Opened(these)| ==> Flatten(Opened(these)[k]) == Flatten(Opened(those)[k])
    ensures AllReadable(these) <==> AllReadable(those)
  {
    OpenedIsReadablePrefix(these);
    OpenedIsReadablePrefix(those);
    var n, m := |Opened(these)|, |Opened(those)|;
    if n < m {
      assert false;
    }
    if m < n {
      assert false;
    }
    forall k | 0 <= k < n ensures Flatten(Opened(these)[k]) == Flatten(Opened(those)[k]) {
      assert these[k] == Readable(Opened(these)[k]) && those[k] == Readable(Opened(those)[k]);
    }
  }

  /** Cutting one chunk of one file in two keeps the same bytes. */
  lemma SplitSameBytes(sources: seq<Source<File>>, i: nat, k: nat, j: nat)
    requires i < |sources| && sources[i].Readable?
    requires k < |sources[i].contents| && j <= |sources[i].contents[k]|
    ensures SameBytes(sources, sources[i := Readable(SplitChunk(sources[i].contents, k, j))])
  {
    FlattenSplit(sources[i].contents, k, j);
  }
}
