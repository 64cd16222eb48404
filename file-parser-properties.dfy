/**
 * What parseStringArtFile promises about its result, stated over the lines
 * the parser sees (non-blank, trimmed): one thread per header line with that
 * header's colour, the instructions of the numeric lines that follow some
 * header, a total that counts them, and the two ways a file is rejected.
 */
module FileParserProperties {
  import opened Wrappers
  import opened Types
  import opened Text
  import opened ColorPattern
  import opened FileParser

  /** The header lines, in order. */
  function Headers(lines: seq<string>): seq<string>
  {
    if lines == [] then []
    else Headers(lines[..|lines| - 1]) + (if IsHeader(lines[|lines| - 1]) then [lines[|lines| - 1]] else [])
  }

  /** The lines that are not headers and come after some header, in order. */
  function BodyLines(lines: seq<string>): seq<string>
  {
    if lines == [] then []
    else
      var front := lines[..|lines| - 1];
      var last := lines[|lines| - 1];
      BodyLines(front) + (if !IsHeader(last) && !NoHeaders(front) then [last] else [])
  }

  /** Every instruction of every thread, thread after thread. */
  function AllInstructions(threads: seq<Thread>): seq<Instruction>
  {
    if threads == [] then []
    else AllInstructions(threads[..|threads| - 1]) + threads[|threads| - 1].instructions
  }

  /** The running total counts exactly the instructions of all threads. */
  lemma {:induction false} InstructionCountIsLength(threads: seq<Thread>)
    ensures InstructionCount(threads) == |AllInstructions(threads)|
    decreases |threads|
  {
    if threads != [] {
      InstructionCountIsLength(threads[..|threads| - 1]);
    }
  }

  // ---------------------------------------------------------------------------
  // One block per header

  lemma SnocFront<T>(xs: seq<T>, x: T)
    ensures (xs + [x])[..|xs|] == xs && (xs + [x])[|xs|] == x
  {
  }

  lemma NoHeadersSnoc(lines: seq<string>, line: string)
    ensures NoHeaders(lines + [line]) <==> NoHeaders(lines) && !IsHeader(line)
  {
    if NoHeaders(lines) && !IsHeader(line) {
      forall k | 0 <= k < |lines + [line]| ensures !IsHeader((lines + [line])[k]) {
        if k < |lines| {
          assert (lines + [line])[k] == lines[k];
        }
      }
    }
    if NoHeaders(lines + [line]) {
      forall k | 0 <= k < |lines| ensures !IsHeader(lines[k]) {
        assert (lines + [line])[k] == lines[k];
      }
      assert (lines + [line])[|lines|] == line;
    }
  }

  /** The k-th block starts at the k-th header line. */
  lemma {:induction false} BlocksFollowHeaders(lines: seq<string>)
    ensures |Blocks(lines)| == |Headers(lines)|
    ensures forall k :: 0 <= k < |Headers(lines)| ==> Blocks(lines)[k].header == Headers(lines)[k]
    decreases |lines|
  {
    if lines != [] {
      var front := lines[..|lines| - 1];
      var line := lines[|lines| - 1];
      assert lines == front + [line];
      BlocksFollowHeaders(front);
      var b := Blocks(front);
      if IsHeader(line) {
        BlocksSnocHeader(front, line);
      } else {
        BlocksSnocBody(front, line);
        if b != [] {
          assert Extend(b, line)[..|b| - 1] == b[..|b| - 1];
        }
      }
    }
  }

  /** There are no blocks exactly when there are no headers. */
  lemma {:induction false} HeadersEmptyIffNoHeaders(lines: seq<string>)
    ensures Headers(lines) == [] <==> NoHeaders(lines)
    decreases |lines|
  {
    if lines != [] {
      var front := lines[..|lines| - 1];
      var line := lines[|lines| - 1];
      assert lines == front + [line];
      HeadersEmptyIffNoHeaders(front);
      NoHeadersSnoc(front, line);
    }
  }

  // ---------------------------------------------------------------------------
  // Instructions

  lemma AllInstructionsSnoc(threads: seq<Thread>, t: Thread)
    ensures AllInstructions(threads + [t]) == AllInstructions(threads) + t.instructions
  {
    SnocFront(threads, t);
  }

  lemma AllInstructionsExtendLast(threads: seq<Thread>, line: string)
    requires threads != []
    ensures AllInstructions(ExtendLast(threads, line)) == AllInstructions(threads) + NailOf(line)
  {
    var n := |threads|;
    var front := threads[..n - 1];
    var last := threads[n - 1];
    assert threads == front + [last];
    AllInstructionsSnoc(front, last);
    AllInstructionsSnoc(front, Thread(last.color, last.instructions + NailOf(line)));
  }

  lemma ThreadsOfSnoc(blocks: seq<Block>, b: Block)
    ensures ThreadsOf(blocks + [b]) == ThreadsOf(blocks) + [ThreadOf(b)]
  {
    SnocFront(blocks, b);
  }

  /** The threads hold, in order, the instructions of the lines after the first header. */
  lemma {:induction false} InstructionsFromBodyLines(lines: seq<string>)
    ensures AllInstructions(ThreadsOf(Blocks(lines))) == Nails(BodyLines(lines))
    decreases |lines|
  {
    if lines != [] {
      var front := lines[..|lines| - 1];
      var line := lines[|lines| - 1];
      assert lines == front + [line];
      InstructionsFromBodyLines(front);
      if IsHeader(line) {
        InstructionsAfterHeader(front, line);
      } else {
        InstructionsAfterBodyLine(front, line);
      }
    }
  }

  lemma InstructionsAfterHeader(front: seq<string>, line: string)
    requires IsHeader(line)
    requires AllInstructions(ThreadsOf(Blocks(front))) == Nails(BodyLines(front))
    ensures AllInstructions(ThreadsOf(Blocks(front + [line]))) == Nails(BodyLines(front + [line]))
  {
    SnocFront(front, line);
    assert BodyLines(front + [line]) == BodyLines(front);
    BlocksSnocHeader(front, line);
    var b := Block(line, []);
    ThreadsOfSnoc(Blocks(front), b);
    AllInstructionsSnoc(ThreadsOf(Blocks(front)), ThreadOf(b));
    assert ThreadOf(b).instructions == [];
  }

  lemma InstructionsAfterBodyLine(front: seq<string>, line: string)
    requires !IsHeader(line)
    requires AllInstructions(ThreadsOf(Blocks(front))) == Nails(BodyLines(front))
    ensures AllInstructions(ThreadsOf(Blocks(front + [line]))) == Nails(BodyLines(front + [line]))
  {
    SnocFront(front, line);
    BodyStep(front, line);
    BlocksEmptyIffNoHeaders(front);
    if NoHeaders(front) {
      assert BodyLines(front + [line]) == BodyLines(front);
    } else {
      assert BodyLines(front + [line]) == BodyLines(front) + [line];
      AllInstructionsExtendLast(ThreadsOf(Blocks(front)), line);
      NailsSnoc(BodyLines(front), line);
    }
  }

  // ---------------------------------------------------------------------------
  // The result of parsing

  /**
   * An accepted file has one thread per header, each with its header's
   * colour (three non-negative integers); the instructions are the numeric
   * lines after the first header, in order; the total counts them.
   */
  lemma ParsedProject(content: string)
    requires ParsedFile(content).Ok?
    ensures var lines := Lines(content);
            var p := ParsedFile(content).value;
            |p.threads| == |Headers(lines)| >= 1 &&
            (forall k :: 0 <= k < |p.threads| ==>
               FindColor(Headers(lines)[k]).Some? && p.threads[k].color == FindColor(Headers(lines)[k]).value &&
               |p.threads[k].color| == 3) &&
            AllInstructions(p.threads) == Nails(BodyLines(lines)) &&
            p.totalInstructions == |Nails(BodyLines(lines))|
  {
    var lines := Lines(content);
    var blocks := Blocks(lines);
    var threads := ThreadsOf(blocks);
    assert FirstBadHeader(lines).None? && blocks != [];
    assert ParsedFile(content).value == Project(threads, InstructionCount(threads));
    BlocksFollowHeaders(lines);
    forall k | 0 <= k < |threads|
      ensures FindColor(Headers(lines)[k]).Some? && threads[k].color == FindColor(Headers(lines)[k]).value
      ensures |threads[k].color| == 3
    {
      ThreadsOfAt(blocks, k);
      BlockHeaders(lines);
      var j :| 0 <= j < |lines| && lines[j] == blocks[k].header;
      assert !BadHeader(lines[j]);
      FindColorShape(blocks[k].header);
    }
    InstructionsFromBodyLines(lines);
    InstructionCountIsLength(threads);
  }

  /**
   * A file is rejected for its colours exactly when some header has no
   * colour group; the error names the first such line and its position among
   * the non-blank lines, counting from 1.
   */
  lemma InvalidColorRejection(content: string)
    ensures var lines := Lines(content);
            ParsedFile(content).Err? && ParsedFile(content).error.InvalidColorFormat? <==>
              exists k :: 0 <= k < |lines| && BadHeader(lines[k])
    ensures var lines := Lines(content);
            ParsedFile(content).Err? && ParsedFile(content).error.InvalidColorFormat? ==>
              var e := ParsedFile(content).error;
              1 <= e.lineNumber <= |lines| && e.line == lines[e.lineNumber - 1] && BadHeader(e.line) &&
              HeadersColored(lines[..e.lineNumber - 1])
  {
    var lines := Lines(content);
    match FirstBadHeader(lines)
    case Some(k) =>
      assert ParsedFile(content) == Err(InvalidColorFormat(k + 1, lines[k]));
    case None =>
      BlocksEmptyIffNoHeaders(lines);
  }

  /** A file is rejected as empty exactly when it has no header at all (and so no colour error). */
  lemma NoThreadsRejection(content: string)
    ensures ParsedFile(content) == Err(NoThreadsFound) <==> Headers(Lines(content)) == []
  {
    var lines := Lines(content);
    HeadersEmptyIffNoHeaders(lines);
    BlocksEmptyIffNoHeaders(lines);
    if FirstBadHeader(lines).Some? {
      assert !NoHeaders(lines);
    }
  }

  // ---------------------------------------------------------------------------
  // Blank lines

  /** The filter keeps lines of two parts of a file independently. */
  lemma {:induction false} NonBlankLinesAppend(x: seq<string>, y: seq<string>)
    ensures NonBlankLines(x + y) == NonBlankLines(x) + NonBlankLines(y)
  {
    if x != [] {
      var keep := if Trim(x[0]) == [] then [] else [x[0]];
      assert (x + y)[0] == x[0] && (x + y)[1..] == x[1..] + y;
      assert NonBlankLines(x + y) == keep + NonBlankLines(x[1..] + y);
      NonBlankLinesAppend(x[1..], y);
      assert NonBlankLines(x) == keep + NonBlankLines(x[1..]);
    } else {
      assert x + y == y;
    }
  }

  /** The filter drops a blank piece wherever it stands. */
  lemma DropBlankPiece(pa: seq<string>, w: string, pb: seq<string>)
    requires Trim(w) == []
    ensures NonBlankLines(pa + [w] + pb) == NonBlankLines(pa + pb)
  {
    assert pa + [w] + pb == pa + ([w] + pb);
    NonBlankLinesAppend(pa, [w] + pb);
    NonBlankLinesAppend([w], pb);
    assert [w][1..] == [];
    NonBlankLinesAppend(pa, pb);
  }

  /** A line without the separator between two parts splits into the parts' pieces around it. */
  lemma SplitAroundLine(a: string, w: string, b: string)
    requires '\n' !in w
    ensures Split(a + ['\n'] + (w + ['\n'] + b), '\n') == Split(a, '\n') + [w] + Split(b, '\n')
  {
    SplitAround(w, b, '\n');
    SplitWithoutSeparator(w, '\n');
    SplitAround(a, w + ['\n'] + b, '\n');
  }

  /** The pieces of a file with the blank line inserted, once filtered, are those without it. */
  lemma BlankPieceDropped(a: string, w: string, b: string)
    requires AllSpace(w) && '\n' !in w
    ensures NonBlankLines(Split(a + "\n" + w + "\n" + b, '\n')) == NonBlankLines(Split(a + "\n" + b, '\n'))
  {
    var with, without := a + "\n" + w + "\n" + b, a + "\n" + b;
    assert with == a + ['\n'] + (w + ['\n'] + b) && without == a + ['\n'] + b;
    SplitAroundLine(a, w, b);
    SplitAround(a, b, '\n');
    TrimEmptyIffBlank(w);
    DropBlankPiece(Split(a, '\n'), w, Split(b, '\n'));
  }

  /** A blank first line is dropped by split and filter. */
  lemma BlankFirstPieceDropped(w: string, b: string)
    requires AllSpace(w) && '\n' !in w
    ensures NonBlankLines(Split(w + "\n" + b, '\n')) == NonBlankLines(Split(b, '\n'))
  {
    TrimEmptyIffBlank(w);
    SplitWithoutSeparator(w, '\n');
    SplitAround(w, b, '\n');
    DropBlankPiece([], w, Split(b, '\n'));
    assert [] + [w] + Split(b, '\n') == [w] + Split(b, '\n') && [] + Split(b, '\n') == Split(b, '\n');
  }

  /** A blank last line is dropped by split and filter. */
  lemma BlankLastPieceDropped(a: string, w: string)
    requires AllSpace(w) && '\n' !in w
    ensures NonBlankLines(Split(a + "\n" + w, '\n')) == NonBlankLines(Split(a, '\n'))
  {
    TrimEmptyIffBlank(w);
    SplitWithoutSeparator(w, '\n');
    SplitAround(a, w, '\n');
    DropBlankPiece(Split(a, '\n'), w, []);
    assert Split(a, '\n') + [w] + [] == Split(a, '\n') + [w] && Split(a, '\n') + [] == Split(a, '\n');
  }

  /**
   * A line of nothing but whitespace means nothing: inserting one between
   * two parts of a file, at its start or at its end, or removing it,
   * changes neither the lines the parser sees nor its result (error line
   * numbers included).
   */
  lemma BlankLineIgnored(a: string, w: string, b: string)
    requires AllSpace(w) && '\n' !in w
    ensures Lines(a + "\n" + w + "\n" + b) == Lines(a + "\n" + b)
    ensures ParsedFile(a + "\n" + w + "\n" + b) == ParsedFile(a + "\n" + b)
    ensures Lines(w + "\n" + b) == Lines(b) && ParsedFile(w + "\n" + b) == ParsedFile(b)
    ensures Lines(a + "\n" + w) == Lines(a) && ParsedFile(a + "\n" + w) == ParsedFile(a)
  {
    BlankPieceDropped(a, w, b);
    BlankFirstPieceDropped(w, b);
    BlankLastPieceDropped(a, w);
  }
}
