/** wgrep: prints every line of its input that contains a search term,
    case-sensitively, each followed by a newline. */
module Wgrep {
  import opened Bytes
  import opened Io

  /** The byte `'\n'` that ends a line. */
  const Newline: uint8 := 10

  /** A line as `bufferLines` stores it: its bytes, without the newline. */
  type Line = seq<uint8>

  /** The diagnostics wgrep writes, to standard output. */
  const UsageMessage: seq<uint8> := Ascii("wgrep: searchterm [file ...]\n")
  const OpenErrorMessage: seq<uint8> := Ascii("wgrep: cannot open file\n")

  // ---------------------------------------------------------------------
  // Lines

  predicate NewlineFree(lines: seq<Line>) {
    forall k :: 0 <= k < |lines| ==> Newline !in lines[k]
  }

  /** The position of the first newline of `s`. */
  function FirstNewline(s: seq<uint8>): (k: nat)
    requires Newline in s
    ensures k < |s| && s[k] == Newline && Newline !in s[..k]
  {
    if s[0] == Newline then 0
    else
      var k := FirstNewline(s[1..]);
      assert s[..k + 1] == [s[0]] + s[1..][..k];
      k + 1
  }

  /** The lines of `s`: the pieces before each newline, empty ones included,
      then what follows the last newline unless that is empty. */
  function Lines(s: seq<uint8>): (lines: seq<Line>)
    ensures NewlineFree(lines)
    decreases |s|
  {
    if s == [] then []
    else if Newline in s then
      var k := FirstNewline(s);
      var rest := Lines(s[k + 1..]);
      assert NewlineFree([s[..k]] + rest) by {
        forall j | 0 <= j < |rest| + 1 ensures Newline !in ([s[..k]] + rest)[j] {
          if j > 0 { assert ([s[..k]] + rest)[j] == rest[j - 1]; }
        }
      }
      [s[..k]] + rest
    else [s]
  }

  /** Each line written back with its newline, in order. */
  function JoinLines(lines: seq<Line>): (s: seq<uint8>)
  {
    if lines == [] then [] else lines[0] + [Newline] + JoinLines(lines[1..])
  }

  /** A newline right after a line without one ends that line. */
  lemma LinesOfLine(line: Line, rest: seq<uint8>)
    requires Newline !in line
    ensures Lines(line + [Newline] + rest) == [line] + Lines(rest)
  {
    var s := line + [Newline] + rest;
    var k := FirstNewline(s);
    assert s[|line|] == Newline;
    assert k == |line|;
    assert s[..k] == line;
    assert s[k + 1..] == rest;
  }

  /** The lines of `s` written back with newlines give `s` itself when `s` is
      empty or ends in a newline, and `s` with one newline added otherwise. */
  lemma {:induction false} JoinLinesOfLines(s: seq<uint8>)
    ensures JoinLines(Lines(s)) == if s == [] || s[|s| - 1] == Newline then s else s + [Newline]
    decreases |s|
  {
    if s != [] && Newline in s {
      var k := FirstNewline(s);
      var line, rest := s[..k], s[k + 1..];
      assert s == line + [Newline] + rest;
      var lines := Lines(s);
      assert lines[0] == line && lines[1..] == Lines(rest);
      JoinLinesOfLines(rest);
      if rest != [] {
        assert rest[|rest| - 1] == s[|s| - 1];
      }
    }
  }

  /** Splitting lines written back with newlines gives the same lines, empty
      lines included: the lines of a stream are determined by it. */
  lemma {:induction false} LinesOfJoinLines(lines: seq<Line>)
    requires NewlineFree(lines)
    ensures Lines(JoinLines(lines)) == lines
    decreases |lines|
  {
    if lines != [] {
      var rest := lines[1..];
      assert NewlineFree(rest) by {
        forall k | 0 <= k < |rest| ensures Newline !in rest[k] {
          assert rest[k] == lines[k + 1];
        }
      }
      LinesOfJoinLines(rest);
      LinesOfLine(lines[0], JoinLines(rest));
      assert lines == [lines[0]] + rest;
    }
  }

  /** Writing two lists of lines one after the other. */
  lemma {:induction false} JoinLinesAppend(a: seq<Line>, b: seq<Line>)
    ensures JoinLines(a + b) == JoinLines(a) + JoinLines(b)
    decreases |a|
  {
    if a != [] {
      var ab := a + b;
      assert ab != [] && ab[0] == a[0] && ab[1..] == a[1..] + b;
      JoinLinesAppend(a[1..], b);
      assert JoinLines(ab) == a[0] + [Newline] + JoinLines(a[1..] + b);
      AppendAssoc(a[0] + [Newline], JoinLines(a[1..]), JoinLines(b));
    } else {
      assert a + b == b;
    }
  }

  /** The number of newlines in `s`. */
  function Newlines(s: seq<uint8>): nat
  {
    if s == [] then 0 else (if s[0] == Newline then 1 else 0) + Newlines(s[1..])
  }

  lemma {:induction false} NewlinesAppend(a: seq<uint8>, b: seq<uint8>)
    ensures Newlines(a + b) == Newlines(a) + Newlines(b)
    decreases |a|
  {
    if a != [] {
      var ab := a + b;
      assert ab != [] && ab[0] == a[0] && ab[1..] == a[1..] + b;
      NewlinesAppend(a[1..], b);
    } else {
      assert a + b == b;
    }
  }

  /** A byte sequence without a newline counts none. */
  lemma {:induction false} NoNewlines(s: seq<uint8>)
    requires Newline !in s
    ensures Newlines(s) == 0
    decreases |s|
  {
    if s != [] {
      assert s[0] != Newline;
      NoNewlines(s[1..]);
    }
  }

  /** One newline per line written. */
  lemma {:induction false} NewlinesOfJoinLines(lines: seq<Line>)
    requires NewlineFree(lines)
    ensures Newlines(JoinLines(lines)) == |lines|
    decreases |lines|
  {
    if lines != [] {
      var rest := lines[1..];
      assert NewlineFree(rest) by {
        forall k | 0 <= k < |rest| ensures Newline !in rest[k] {
          assert rest[k] == lines[k + 1];
        }
      }
      NewlinesOfJoinLines(rest);
      NoNewlines(lines[0]);
      NewlinesAppend(lines[0], [Newline]);
      NewlinesAppend(lines[0] + [Newline], JoinLines(rest));
    }
  }

  /** There are as many lines as newlines, plus one for a non-empty piece
      after the last newline. */
  lemma LinesCount(s: seq<uint8>)
    ensures |Lines(s)| == Newlines(s) + if s != [] && s[|s| - 1] != Newline then 1 else 0
  {
    JoinLinesOfLines(s);
    NewlinesOfJoinLines(Lines(s));
    if s != [] && s[|s| - 1] != Newline {
      NewlinesAppend(s, [Newline]);
    }
  }

  // ---------------------------------------------------------------------
  // bufferLines

  /** A newline in the buffer: the line gathered so far is complete. */
  lemma SplitAtNewline(lines: seq<Line>, line: Line, buffer: seq<uint8>, i: nat, rest: seq<uint8>)
    requires i < |buffer| && buffer[i] == Newline && Newline !in line
    ensures lines + Lines(line + buffer[i..] + rest) == (lines + [line]) + Lines([] + buffer[i + 1..] + rest)
  {
    assert line + buffer[i..] + rest == line + [Newline] + (buffer[i + 1..] + rest);
    assert [] + buffer[i + 1..] + rest == buffer[i + 1..] + rest;
    LinesOfLine(line, buffer[i + 1..] + rest);
    AppendAssoc(lines, [line], Lines(buffer[i + 1..] + rest));
  }

  /** Any other byte: it joins the line. */
  lemma SplitWithinLine(line: Line, buffer: seq<uint8>, i: nat, rest: seq<uint8>)
    requires i < |buffer|
    ensures line + buffer[i..] + rest == (line + [buffer[i]]) + buffer[i + 1..] + rest
  {
    assert buffer[i..] == [buffer[i]] + buffer[i + 1..];
  }

  /** The inner loop of `bufferLines` over one buffer of `read` bytes: a
      newline stores the line gathered so far and starts an empty one; any
      other byte is appended to the line. `rest` is what the later reads
      return; the lines still to come are those of `line + rest`. */
  method SplitBuffer(buffer: seq<uint8>, lines0: seq<Line>, line0: Line, ghost rest: seq<uint8>)
    returns (lines: seq<Line>, line: Line)
    requires Newline !in line0
    ensures Newline !in line
    ensures lines + Lines(line + rest) == lines0 + Lines(line0 + buffer + rest)
  {
    lines, line := lines0, line0;
    var i := 0;
    while i < |buffer|
      invariant 0 <= i <= |buffer|
      invariant Newline !in line
      invariant lines + Lines(line + buffer[i..] + rest) == lines0 + Lines(line0 + buffer + rest)
    {
      if buffer[i] == Newline {
        SplitAtNewline(lines, line, buffer, i, rest);
        lines := lines + [line];
        line := [];
      } else {
        SplitWithinLine(line, buffer, i, rest);
        line := line + [buffer[i]];
      }
      i := i + 1;
    }
    assert buffer[i..] == [];
    assert line + buffer[i..] + rest == line + rest;
  }

  /** The chunks still to read, the first of them taken off. */
  lemma ChunkFront(line: Line, chunks: File, r: nat)
    requires r < |chunks|
    ensures line + Flatten(chunks[r..]) == line + chunks[r] + Flatten(chunks[r + 1..])
  {
    FlattenFrom(chunks, r);
    AppendAssoc(line, chunks[r], Flatten(chunks[r + 1..]));
  }

  /** After the last read: what is left in `line` is the last line, if any. */
  lemma LastLine(line: Line, chunks: File, r: nat)
    requires r == |chunks| && Newline !in line
    ensures Lines(line + Flatten(chunks[r..])) == if line == [] then [] else [line]
  {
    assert chunks[r..] == [];
    assert line + Flatten(chunks[r..]) == line;
  }

  /** Before the first read: no line is stored and the line being gathered is empty. */
  lemma NothingRead(chunks: File)
    ensures [] + Lines([] + Flatten(chunks[0..])) == Lines(Flatten(chunks))
  {
    assert chunks[0..] == chunks;
    var whole: seq<uint8> := Flatten(chunks);
    assert [] + whole == whole;
    var lines := Lines(whole);
    assert [] + lines == lines;
  }

  /** `bufferLines`: reads the chunks of a file and returns its lines. The
      line being gathered carries over from one chunk to the next, so the
      result does not depend on where the reads cut the stream. */
  method BufferLines(chunks: File) returns (lines: seq<Line>)
    ensures lines == Lines(Flatten(chunks))
  {
    lines := [];
    var line: Line := [];
    var r := 0;
    NothingRead(chunks);
    while r < |chunks|
      invariant 0 <= r <= |chunks|
      invariant Newline !in line
      invariant lines + Lines(line + Flatten(chunks[r..])) == Lines(Flatten(chunks))
    {
      ghost var rest := Flatten(chunks[r + 1..]);
      ChunkFront(line, chunks, r);
      lines, line := SplitBuffer(chunks[r], lines, line, rest);
      r := r + 1;
    }
    LastLine(line, chunks, r);
    if line != [] {
      lines := lines + [line];
    }
  }

  // ---------------------------------------------------------------------
  // Matching

  /** `term` occurs in `line` starting at byte `i`. */
  predicate OccursAt(term: Line, line: Line, i: nat) {
    i + |term| <= |line| && line[i..i + |term|] == term
  }

  /** `term` occurs somewhere in `line`, as a case-sensitive substring. */
  ghost predicate Occurs(term: Line, line: Line) {
    exists i: nat :: OccursAt(term, line, i)
  }

  /** `line.find(term, from)`: the first position at or after `from` where
      `term` occurs in `line`, or -1 for `string::npos` if there is none. */
  function FindFrom(line: Line, term: Line, from: nat): (r: int)
    ensures r == -1 || (from <= r && OccursAt(term, line, r))
    ensures r == -1 ==> forall i: nat :: from <= i ==> !OccursAt(term, line, i)
    ensures r != -1 ==> forall i: nat :: from <= i < r ==> !OccursAt(term, line, i)
    decreases |line| - from
  {
    if from + |term| > |line| then -1
    else if line[from..from + |term|] == term then from
    else FindFrom(line, term, from + 1)
  }

  /** The test `line.find(argv[1]) != string::npos`. */
  predicate Matches(line: Line, term: Line) {
    FindFrom(line, term, 0) != -1
  }

  /** A line matches exactly when the term occurs in it; in particular the
      empty term, which occurs at position 0, matches every line. */
  lemma MatchesIff(line: Line, term: Line)
    ensures Matches(line, term) <==> Occurs(term, line)
    ensures term == [] ==> Matches(line, term)
  {
    if term == [] {
      assert OccursAt(term, line, 0);
    }
  }

  /** The lines that contain `term`, in their original order. */
  function Matching(lines: seq<Line>, term: Line): (m: seq<Line>)
    ensures |m| <= |lines|
    ensures forall k :: 0 <= k < |m| ==> Matches(m[k], term)
  {
    if lines == [] then []
    else
      var rest := Matching(lines[1..], term);
      if Matches(lines[0], term) then
        assert forall k :: 0 < k < |rest| + 1 ==> ([lines[0]] + rest)[k] == rest[k - 1];
        [lines[0]] + rest
      else rest
  }

  /** A line is kept exactly when it is one of the lines and it matches. */
  lemma {:induction false} MatchingMembers(lines: seq<Line>, term: Line, line: Line)
    ensures line in Matching(lines, term) <==> line in lines && Matches(line, term)
    decreases |lines|
  {
    if lines != [] {
      MatchingMembers(lines[1..], term, line);
      assert lines == [lines[0]] + lines[1..];
    }
  }

  /** Filtering two lists of lines one after the other keeps the order. */
  lemma {:induction false} MatchingAppend(a: seq<Line>, b: seq<Line>, term: Line)
    ensures Matching(a + b, term) == Matching(a, term) + Matching(b, term)
    decreases |a|
  {
    if a != [] {
      var ab := a + b;
      assert ab != [] && ab[0] == a[0] && ab[1..] == a[1..] + b;
      MatchingAppend(a[1..], b, term);
    } else {
      assert a + b == b;
    }
  }

  /** When every line matches (as every line does for the empty term), all
      lines are kept. */
  lemma {:induction false} MatchingAll(lines: seq<Line>, term: Line)
    requires forall k :: 0 <= k < |lines| ==> Matches(lines[k], term)
    ensures Matching(lines, term) == lines
    decreases |lines|
  {
    if lines != [] {
      var rest := lines[1..];
      assert forall k :: 0 <= k < |rest| ==> rest[k] == lines[k + 1];
      MatchingAll(rest, term);
      assert lines == [lines[0]] + rest;
    }
  }

  /** Kept lines are lines of the input, so they hold no newline. */
  lemma MatchingNewlineFree(lines: seq<Line>, term: Line)
    requires NewlineFree(lines)
    ensures NewlineFree(Matching(lines, term))
  {
    var m := Matching(lines, term);
    forall k | 0 <= k < |m| ensures Newline !in m[k] {
      MatchingMembers(lines, term, m[k]);
      var j :| 0 <= j < |lines| && lines[j] == m[k];
    }
  }

  /** What the print loop writes, taken from line `k` on. */
  lemma PrintFrom(lines: seq<Line>, k: nat, term: Line)
    requires k < |lines|
    ensures JoinLines(Matching(lines[k..], term))
         == (if Matches(lines[k], term) then lines[k] + [Newline] else []) + JoinLines(Matching(lines[k + 1..], term))
  {
    var tail := lines[k..];
    assert tail[0] == lines[k] && tail[1..] == lines[k + 1..];
    var rest := Matching(lines[k + 1..], term);
    if Matches(lines[k], term) {
      assert ([lines[k]] + rest)[0] == lines[k] && ([lines[k]] + rest)[1..] == rest;
    } else {
      assert [] + JoinLines(rest) == JoinLines(rest);
    }
  }

  /** The match-and-print loop: each line that contains the term is written,
      then a newline. */
  method PrintMatching(out0: seq<uint8>, lines: seq<Line>, term: Line) returns (out: seq<uint8>)
    ensures out == out0 + JoinLines(Matching(lines, term))
  {
    out := out0;
    var k := 0;
    assert lines[k..] == lines;
    while k < |lines|
      invariant 0 <= k <= |lines|
      invariant out + JoinLines(Matching(lines[k..], term)) == out0 + JoinLines(Matching(lines, term))
    {
      ghost var before := out;
      PrintFrom(lines, k, term);
      var line := lines[k];
      if FindFrom(line, term, 0) != -1 {
        out := out + line;
        out := out + [Newline];
        AppendAssoc(before, line + [Newline], JoinLines(Matching(lines[k + 1..], term)));
        assert out == before + (line + [Newline]);
      } else {
        assert [] + JoinLines(Matching(lines[k + 1..], term)) == JoinLines(Matching(lines[k + 1..], term));
      }
      k := k + 1;
    }
    assert lines[k..] == [];
    assert out + [] == out;
  }

  // ---------------------------------------------------------------------
  // The command line

  /** What `main` is given: no argument at all, or a search term and the
      files named after it (none: read standard input). */
  datatype CommandLine = NoArguments | Search(term: Line, files: seq<Source<File>>)

  /** The lines of each file, file after file. */
  function AllLines(files: seq<File>): (lines: seq<Line>)
  {
    if files == [] then [] else Lines(Flatten(files[0])) + AllLines(files[1..])
  }

  /** What the per-file loops print for the opened files, in order. */
  function ReportFiles(files: seq<File>, term: Line): seq<uint8>
  {
    if files == [] then []
    else JoinLines(Matching(Lines(Flatten(files[0])), term)) + ReportFiles(files[1..], term)
  }

  /** One more file in front. */
  lemma ReportFilesCons(f: File, files: seq<File>, term: Line)
    ensures ReportFiles([f] + files, term) == JoinLines(Matching(Lines(Flatten(f)), term)) + ReportFiles(files, term)
  {
    assert ([f] + files)[0] == f && ([f] + files)[1..] == files;
  }

  /** Two lists of lines without newlines, one after the other. */
  lemma NewlineFreeAppend(a: seq<Line>, b: seq<Line>)
    requires NewlineFree(a) && NewlineFree(b)
    ensures NewlineFree(a + b)
  {
    var both := a + b;
    forall k | 0 <= k < |both| ensures Newline !in both[k] {
      if k < |a| {
        assert both[k] == a[k];
      } else {
        assert both[k] == b[k - |a|];
      }
    }
  }

  /** Printing file after file is printing the matching lines of all the
      files' lines together: the lines of every file are kept apart (a last
      line without a newline is ended by one) and in order. */
  lemma {:induction false} ReportFilesIsJoin(files: seq<File>, term: Line)
    ensures ReportFiles(files, term) == JoinLines(Matching(AllLines(files), term))
    ensures NewlineFree(AllLines(files))
    decreases |files|
  {
    if files != [] {
      var first, rest := Lines(Flatten(files[0])), AllLines(files[1..]);
      assert AllLines(files) == first + rest;
      assert ReportFiles(files, term) == JoinLines(Matching(first, term)) + ReportFiles(files[1..], term);
      ReportFilesIsJoin(files[1..], term);
      MatchingAppend(first, rest, term);
      JoinLinesAppend(Matching(first, term), Matching(rest, term));
      NewlineFreeAppend(first, rest);
    }
  }

  /** What wgrep leaves behind: the usage line without arguments; otherwise
      the matching lines of standard input (no file named) or of the files
      opened, in order, followed, if some file cannot be opened, by the
      error line. */
  function GrepOutput(cmd: CommandLine, stdin: File): (o: Outcome<seq<uint8>>)
    ensures o.status == Success <==> cmd.Search? && AllReadable(cmd.files)
    ensures o.status == UsageError <==> cmd.NoArguments?
  {
    match cmd
    case NoArguments => Outcome(UsageMessage, UsageError)
    case Search(term, files) =>
      if files == [] then Outcome(JoinLines(Matching(Lines(Flatten(stdin)), term)), Success)
      else
        var text := ReportFiles(Opened(files), term);
        if AllReadable(files) then Outcome(text, Success)
        else Outcome(text + OpenErrorMessage, CannotOpenFile)
  }

  /** Files holding the same bytes print the same lines, however `read` cut them. */
  lemma {:induction false} ReportFilesSameBytes(these: seq<File>, those: seq<File>, term: Line)
    requires |these| == |those|
    requires forall k :: 0 <= k < |these| ==> Flatten(these[k]) == Flatten(those[k])
    ensures ReportFiles(these, term) == ReportFiles(those, term)
    decreases |these|
  {
    if these != [] {
      ReportFilesSameBytes(these[1..], those[1..], term);
    }
  }

  /** wgrep's output depends only on which files open and on their bytes (or
      on the bytes of standard input), not on how `read` returns them in
      chunks: a line cut between two chunks is still one line. */
  lemma GrepChunking(term: Line, these: seq<Source<File>>, those: seq<Source<File>>, stdin: File, stdin': File)
    requires SameBytes(these, those) && Flatten(stdin) == Flatten(stdin')
    ensures GrepOutput(Search(term, those), stdin') == GrepOutput(Search(term, these), stdin)
  {
    OpenedSameBytes(these, those);
    ReportFilesSameBytes(Opened(these), Opened(those), term);
  }

  /** The lines wgrep reads: those of standard input when no file is named,
      otherwise those of the files opened, file after file. */
  function InputLines(term: Line, files: seq<Source<File>>, stdin: File): seq<Line>
  {
    if files == [] then Lines(Flatten(stdin)) else AllLines(Opened(files))
  }

  /** The output is exactly the input lines that contain the term, in their
      order, each followed by a newline (then the error line, if a file cannot
      be opened); split back into lines it gives those matching lines. */
  lemma GrepPrintsMatchingLines(term: Line, files: seq<Source<File>>, stdin: File)
    ensures var o := GrepOutput(Search(term, files), stdin);
            var kept := Matching(InputLines(term, files, stdin), term);
            && o.output == JoinLines(kept) + (if AllReadable(files) then [] else OpenErrorMessage)
            && Lines(JoinLines(kept)) == kept
  {
    var input := InputLines(term, files, stdin);
    var kept := Matching(input, term);
    if files != [] {
      ReportFilesIsJoin(Opened(files), term);
    }
    MatchingNewlineFree(input, term);
    LinesOfJoinLines(kept);
    if AllReadable(files) {
      assert JoinLines(kept) + [] == JoinLines(kept);
    }
  }

  /** The loop of `main` over the named files: each file's matching lines in
      turn, stopping with the error line at the first file that cannot be
      opened. */
  method GrepFiles(term: Line, files: seq<Source<File>>) returns (out: seq<uint8>, status: Status)
    ensures status == if AllReadable(files) then Success else CannotOpenFile
    ensures out == ReportFiles(Opened(files), term) + if AllReadable(files) then [] else OpenErrorMessage
  {
    out := [];
    var i := 0;
    while i < |files|
      invariant 0 <= i <= |files|
      invariant AllReadable(files[..i])
      invariant out + ReportFiles(Opened(files[i..]), term) == ReportFiles(Opened(files), term)
    {
      OpenedFrom(files, i);
      if files[i].Unopenable? {
        assert ReportFiles(Opened(files[i..]), term) == [];
        assert out == ReportFiles(Opened(files), term);
        assert !AllReadable(files) by {
          assert !files[i].Readable?;
        }
        out := out + OpenErrorMessage;
        status := CannotOpenFile;
        return;
      }
      var chunks := files[i].contents;
      AllReadableSnoc(files, i);
      ghost var before := out;
      ReportFilesCons(chunks, Opened(files[i + 1..]), term);
      var lines := BufferLines(chunks);
      out := PrintMatching(out, lines, term);
      AppendAssoc(before, JoinLines(Matching(lines, term)), ReportFiles(Opened(files[i + 1..]), term));
      i := i + 1;
    }
    assert files[i..] == [] && ReportFiles(Opened(files[i..]), term) == [];
    assert files[..i] == files;
    assert AllReadable(files);
    assert out == ReportFiles(Opened(files), term);
    assert out + [] == out;
    status := Success;
  }

  /** `main`: the usage line without arguments; with a term only, the lines
      of standard input; otherwise the named files. */
  method Grep(cmd: CommandLine, stdin: File) returns (out: seq<uint8>, status: Status)
    ensures Outcome(out, status) == GrepOutput(cmd, stdin)
  {
    if cmd.NoArguments? {
      out := UsageMessage;
      status := UsageError;
      return;
    }
    var term, files := cmd.term, cmd.files;
    if |files| == 0 {
      var lines := BufferLines(stdin);
      out := PrintMatching([], lines, term);
      assert [] + JoinLines(Matching(lines, term)) == JoinLines(Matching(lines, term));
      status := Success;
    } else {
      out, status := GrepFiles(term, files);
      if AllReadable(files) {
        assert ReportFiles(Opened(files), term) + [] == ReportFiles(Opened(files), term);
      }
    }
  }
}
