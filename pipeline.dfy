/** wzip and wunzip together: what wunzip writes for the archive wzip made. */
module Pipeline {
  import opened Bytes
  import opened Io
  import opened Rle
  import Wzip
  import Wunzip

  /** Compressing files that all open and expanding the archive gives back
      their concatenation, whatever the uninitialised `num` and `c` of wunzip
      hold. */
  lemma ZipThenUnzip(sources: seq<Source<File>>, num0: int, c0: uint8)
    requires |sources| > 0 && AllReadable(sources)
    requires Int32Counts(Runs(Wzip.Stream(sources))) && IsInt32(num0)
    ensures Wzip.ZipOutput(sources).status == Success
    ensures Wunzip.UnzipOutput([Readable(Wzip.ZipOutput(sources).output)], num0, c0)
         == Outcome(Wzip.Stream(sources), Success)
  {
    var s := Wzip.Stream(sources);
    var archive := Wzip.ZipOutput(sources).output;
    assert archive == Serialize(Runs(s));
    var named := [Readable(archive)];
    assert AllReadable(named);
    assert Opened(named) == [archive] by {
      assert named[1..] == [];
    }
    var files: seq<seq<uint8>> := [archive];
    assert Wunzip.DecodeFiles(files, num0, c0) == Wunzip.Decode(archive, num0, c0) by {
      assert files[1..] == [];
    }
    Wunzip.DecodeWholeRecords(archive, num0, c0);
    RoundTrip(s);
  }
}
