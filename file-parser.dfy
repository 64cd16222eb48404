/**
 * The instruction-file parser of lib/file-parser.ts.
 *
 * An instruction file is read line by line. Blank lines are dropped and the
 * rest are trimmed. A line starting with "Thread:" opens a thread whose colour
 * is the first "[r, g, b]" group on that line; every later line that parseInt
 * reads as a number adds one instruction to the open thread.
 *
 * `ParseStringArtFile` is the loop of the source, proved equal to
 * `ParsedFile`, a declarative reading of the same file: each header together
 * with the lines that follow it up to the next header is one thread.
 */
module FileParser {
  import opened Wrappers
  import opened Types
  import opened Text
  import opened ColorPattern

  /** The two errors the source throws. */
  datatype ParseError =
    | InvalidColorFormat(lineNumber: int, line: string)
    | NoThreadsFound

  /** A line that opens a thread. */
  predicate IsHeader(line: string)
  {
    StartsWith(line, "Thread:")
  }

  // ---------------------------------------------------------------------------
  // The lines the loop visits

  /** The `filter` step: lines that are not blank once trimmed, in order. */
  function NonBlankLines(raw: seq<string>): seq<string>
  {
    if raw == [] then []
    else (if Trim(raw[0]) == [] then [] else [raw[0]]) + NonBlankLines(raw[1..])
  }

  /** No line kept by the filter trims to nothing. */
  lemma {:induction false} NonBlankLinesAreNonBlank(raw: seq<string>)
    ensures forall k :: 0 <= k < |NonBlankLines(raw)| ==> Trim(NonBlankLines(raw)[k]) != []
  {
    if raw != [] {
      NonBlankLinesAreNonBlank(raw[1..]);
    }
  }

  function TrimAll(lines: seq<string>): (r: seq<string>)
    ensures |r| == |lines| && forall k :: 0 <= k < |lines| ==> r[k] == Trim(lines[k])
  {
    seq(|lines|, k requires 0 <= k < |lines| => Trim(lines[k]))
  }

  /** The lines of `content` as the parsing loop sees them: non-blank and trimmed. */
  function Lines(content: string): seq<string>
  {
    TrimAll(NonBlankLines(Split(content, '\n')))
  }

  /** Every line the loop sees is trimmed and non-empty. */
  lemma LinesAreTrimmed(content: string)
    ensures forall k :: 0 <= k < |Lines(content)| ==>
              Lines(content)[k] != [] && Trim(Lines(content)[k]) == Lines(content)[k]
  {
    NonBlankLinesAreNonBlank(Split(content, '\n'));
    TrimAllTrimmed(NonBlankLines(Split(content, '\n')));
  }

  lemma TrimAllTrimmed(raw: seq<string>)
    requires forall k :: 0 <= k < |raw| ==> Trim(raw[k]) != []
    ensures forall k :: 0 <= k < |raw| ==> TrimAll(raw)[k] != [] && Trim(TrimAll(raw)[k]) == TrimAll(raw)[k]
  {
    forall k | 0 <= k < |raw|
      ensures Trim(Trim(raw[k])) == Trim(raw[k])
    {
      TrimIdempotent(raw[k]);
    }
  }

  // ---------------------------------------------------------------------------
  // The declarative reading of an instruction file

  /** A header line and the lines after it up to the next header. */
  datatype Block = Block(header: string, body: seq<string>)

  predicate NoHeaders(lines: seq<string>)
  {
    forall k :: 0 <= k < |lines| ==> !IsHeader(lines[k])
  }

  /** The lines before the first header. */
  function BodyOf(lines: seq<string>): (r: seq<string>)
    ensures |r| <= |lines| && r == lines[..|r|] && NoHeaders(r)
    ensures |r| == |lines| || IsHeader(lines[|r|])
  {
    if lines == [] || IsHeader(lines[0]) then [] else [lines[0]] + BodyOf(lines[1..])
  }

  /** One block per header, in order; lines before the first header belong to no block. */
  function Blocks(lines: seq<string>): seq<Block>
  {
    if lines == [] then []
    else if IsHeader(lines[0]) then [Block(lines[0], BodyOf(lines[1..]))] + Blocks(lines[1..])
    else Blocks(lines[1..])
  }

  /** The instruction a body line yields: one if parseInt reads a number, none for NaN. */
  function NailOf(line: string): seq<Instruction>
  {
    match ParseInt(line)
    case None => []
    case Some(n) => [Instruction(n)]
  }

  /** The instructions of a thread body, in line order. */
  function Nails(body: seq<string>): seq<Instruction>
  {
    if body == [] then [] else Nails(body[..|body| - 1]) + NailOf(body[|body| - 1])
  }

  predicate BadHeader(line: string)
  {
    IsHeader(line) && FindColor(line).None?
  }

  predicate HeadersColored(lines: seq<string>)
  {
    forall k :: 0 <= k < |lines| ==> !BadHeader(lines[k])
  }

  /** The index of the first header without a colour group. */
  function FirstBadHeader(lines: seq<string>): (r: Option<nat>)
    ensures r.Some? ==> r.value < |lines| && BadHeader(lines[r.value])
    ensures forall k :: 0 <= k < (if r.Some? then r.value else |lines|) ==> !BadHeader(lines[k])
  {
    if lines == [] then None
    else if BadHeader(lines[0]) then Some(0)
    else match FirstBadHeader(lines[1..])
      case None => None
      case Some(k) => Some(k + 1)
  }

  /**
   * The thread a block reads as. A header without a colour group never gets
   * this far (the whole file is rejected first), so the empty colour given to
   * it here is never seen.
   */
  function ThreadOf(b: Block): Thread
  {
    match FindColor(b.header)
    case Some(color) => Thread(color, Nails(b.body))
    case None => Thread([], Nails(b.body))
  }

  /** `f` applied to every element, in order. */
  function Each<A, B>(f: A -> B, xs: seq<A>): (r: seq<B>)
    ensures |r| == |xs|
  {
    if xs == [] then [] else Each(f, xs[..|xs| - 1]) + [f(xs[|xs| - 1])]
  }

  lemma {:induction false} EachAt<A, B>(f: A -> B, xs: seq<A>, k: nat)
    requires k < |xs|
    ensures Each(f, xs)[k] == f(xs[k])
    decreases |xs|
  {
    var n := |xs|;
    if k < n - 1 {
      EachAt(f, xs[..n - 1], k);
    }
  }

  /** One thread per block, in order. */
  function ThreadsOf(blocks: seq<Block>): (r: seq<Thread>)
    ensures |r| == |blocks|
  {
    Each(ThreadOf, blocks)
  }

  /** The k-th thread is read from the k-th block. */
  lemma ThreadsOfAt(blocks: seq<Block>, k: nat)
    requires k < |blocks|
    ensures ThreadsOf(blocks)[k] == ThreadOf(blocks[k])
  {
    EachAt(ThreadOf, blocks, k);
  }

  /** Every block starts with one of the header lines. */
  lemma {:induction false} BlockHeaders(lines: seq<string>)
    ensures forall k :: 0 <= k < |Blocks(lines)| ==>
              Blocks(lines)[k].header in lines && IsHeader(Blocks(lines)[k].header)
  {
    if lines != [] {
      BlockHeaders(lines[1..]);
    }
  }

  /** What a sequence of processed lines means: an error at the first colourless header, or the threads. */
  function Interpret(lines: seq<string>): Result<Project, ParseError>
  {
    match FirstBadHeader(lines)
    case Some(k) => Err(InvalidColorFormat(k + 1, lines[k]))
    case None =>
      var blocks := Blocks(lines);
      if blocks == [] then Err(NoThreadsFound)
      else
        var threads := ThreadsOf(blocks);
        Ok(Project(threads, InstructionCount(threads)))
  }

  /** What an instruction file means. */
  function ParsedFile(content: string): Result<Project, ParseError>
  {
    Interpret(Lines(content))
  }

  // ---------------------------------------------------------------------------
  // The parsing loop

  /** The threads finished so far plus the open one. */
  function Open(threads: seq<Thread>, current: Option<Thread>): seq<Thread>
  {
    threads + (if current.Some? then [current.value] else [])
  }

  /** parseStringArtFile: the source's single pass over the lines. */
  method ParseStringArtFile(content: string) returns (r: Result<Project, ParseError>)
    ensures r == ParsedFile(content)
  {
    var lines := NonBlankLines(Split(content, '\n'));
    ghost var seen := TrimAll(lines);
    var threads: seq<Thread> := [];
    var current: Option<Thread> := None;
    var totalInstructions := 0;
    ScanStart(seen);

    for i := 0 to |lines|
      invariant Scanned(seen, i, threads, current, totalInstructions)
    {
      var line := Trim(lines[i]);
      if StartsWith(line, "Thread:") {
        var color := FindColor(line);
        if color.None? {
          ScanBadHeader(seen, i, threads, current, totalInstructions);
          return Err(InvalidColorFormat(i + 1, line));
        }
        ScanHeader(seen, i, threads, current, totalInstructions);
        if current.Some? {
          threads := threads + [current.value];
        }
        current := Some(Thread(color.value, []));
      } else if current.Some? {
        var nailNumber := ParseInt(line);
        var thread := current.value;
        assert line == seen[i];
        ScanBody(seen, i, threads, thread, totalInstructions);
        if nailNumber.Some? {
          thread := Thread(thread.color, thread.instructions + [Instruction(nailNumber.value)]);
          totalInstructions := totalInstructions + 1;
        }
        current := Some(thread);
      } else {
        ScanPreamble(seen, i, threads, totalInstructions);
      }
    }

    ScanDone(seen, threads, current, totalInstructions);
    if current.Some? {
      threads := threads + [current.value];
    }
    if |threads| == 0 {
      return Err(NoThreadsFound);
    }
    return Ok(Project(threads, totalInstructions));
  }

  // ---------------------------------------------------------------------------
  // One more line: how the declarative reading grows

  lemma {:induction false} FirstBadHeaderAt(lines: seq<string>, i: nat)
    requires i < |lines| && HeadersColored(lines[..i]) && BadHeader(lines[i])
    ensures FirstBadHeader(lines) == Some(i)
  {
  }

  lemma {:induction false} BodyOfSnoc(lines: seq<string>, line: string)
    ensures BodyOf(lines + [line]) ==
              if BodyOf(lines) == lines && !IsHeader(line) then lines + [line] else BodyOf(lines)
  {
    if lines != [] {
      assert (lines + [line])[1..] == lines[1..] + [line];
      BodyOfSnoc(lines[1..], line);
      if !IsHeader(lines[0]) && BodyOf(lines[1..]) != lines[1..] {
        assert BodyOf(lines) != lines;
      }
    }
  }

  lemma {:induction false} BlocksEmptyIffNoHeaders(lines: seq<string>)
    ensures Blocks(lines) == [] <==> NoHeaders(lines)
  {
    if lines != [] {
      BlocksEmptyIffNoHeaders(lines[1..]);
      if NoHeaders(lines[1..]) && !IsHeader(lines[0]) {
        forall k | 0 <= k < |lines| ensures !IsHeader(lines[k]) {
          if k > 0 { assert lines[k] == lines[1..][k - 1]; }
        }
      }
    }
  }

  lemma {:induction false} BodyOfNoHeaders(lines: seq<string>)
    requires NoHeaders(lines)
    ensures BodyOf(lines) == lines
  {
    if lines != [] {
      BodyOfNoHeaders(lines[1..]);
    }
  }

  /** A header line opens a new, empty block. */
  lemma {:induction false} BlocksSnocHeader(lines: seq<string>, line: string)
    requires IsHeader(line)
    ensures Blocks(lines + [line]) == Blocks(lines) + [Block(line, [])]
  {
    if lines == [] {
      assert Blocks([line]) == [Block(line, BodyOf([]))] + Blocks([]);
    } else {
      assert (lines + [line])[1..] == lines[1..] + [line];
      BlocksSnocHeader(lines[1..], line);
      if IsHeader(lines[0]) {
        BodyOfSnoc(lines[1..], line);
      }
    }
  }

  /** The last block with one more body line. */
  function Extend(blocks: seq<Block>, line: string): seq<Block>
  {
    if blocks == [] then []
    else blocks[..|blocks| - 1] + [Block(blocks[|blocks| - 1].header, blocks[|blocks| - 1].body + [line])]
  }

  /** Any other line extends the last block, or is dropped when there is none. */
  lemma {:induction false} BlocksSnocBody(lines: seq<string>, line: string)
    requires !IsHeader(line)
    ensures Blocks(lines + [line]) == Extend(Blocks(lines), line)
  {
    if lines != [] {
      var all := lines + [line];
      var tail := lines[1..];
      assert all[0] == lines[0] && all[1..] == tail + [line];
      BlocksSnocBody(tail, line);
      if IsHeader(lines[0]) {
        assert [lines[0]] + tail == lines;
        BlocksSnocBodyAfterHeader(lines[0], tail, line);
      } else {
        assert Blocks(all) == Blocks(tail + [line]);
        assert Blocks(lines) == Blocks(tail);
      }
    }
  }

  lemma BlocksSnocBodyAfterHeader(header: string, tail: seq<string>, line: string)
    requires IsHeader(header) && !IsHeader(line)
    requires Blocks(tail + [line]) == Extend(Blocks(tail), line)
    ensures Blocks([header] + tail + [line]) == Extend(Blocks([header] + tail), line)
  {
    var lines := [header] + tail;
    var all := lines + [line];
    assert lines[0] == header && lines[1..] == tail;
    assert all[0] == header && all[1..] == tail + [line];
    BodyOfSnoc(tail, line);
    BlocksEmptyIffNoHeaders(tail);
    var rest := Blocks(tail);
    if rest == [] {
      BodyOfNoHeaders(tail);
    } else {
      ExtendCons(Block(header, BodyOf(tail)), rest, line);
    }
  }

  lemma ExtendCons(first: Block, rest: seq<Block>, line: string)
    requires rest != []
    ensures Extend([first] + rest, line) == [first] + Extend(rest, line)
  {
    assert ([first] + rest)[..|rest|] == [first] + rest[..|rest| - 1];
  }

  lemma NailsSnoc(body: seq<string>, line: string)
    ensures Nails(body + [line]) == Nails(body) + NailOf(line)
  {
    assert (body + [line])[..|body|] == body;
  }

  /** The loop invariant: the first `i` lines have been read into `threads`, `current` and the count. */
  ghost predicate Scanned(seen: seq<string>, i: nat, threads: seq<Thread>, current: Option<Thread>, total: int)
  {
    i <= |seen| && HeadersColored(seen[..i]) && (current.None? ==> threads == []) &&
    Open(threads, current) == ThreadsOf(Blocks(seen[..i])) &&
    total == InstructionCount(Open(threads, current))
  }

  lemma ScanHeader(seen: seq<string>, i: nat, threads: seq<Thread>, current: Option<Thread>, total: int)
    requires Scanned(seen, i, threads, current, total)
    requires i < |seen| && IsHeader(seen[i]) && FindColor(seen[i]).Some?
    ensures Scanned(seen, i + 1, Open(threads, current), Some(Thread(FindColor(seen[i]).value, [])), total)
  {
    var line := seen[i];
    TakeOneMore(seen, i);
    ColoredSnoc(seen[..i], line);
    HeaderStep(seen[..i], line);
    CountSnoc(Open(threads, current), Thread(FindColor(line).value, []));
  }

  lemma ScanBody(seen: seq<string>, i: nat, threads: seq<Thread>, current: Thread, total: int)
    requires Scanned(seen, i, threads, Some(current), total)
    requires i < |seen| && !IsHeader(seen[i])
    ensures ParseInt(seen[i]).None? ==> Scanned(seen, i + 1, threads, Some(current), total)
    ensures ParseInt(seen[i]).Some? ==>
              Scanned(seen, i + 1, threads,
                      Some(Thread(current.color, current.instructions + [Instruction(ParseInt(seen[i]).value)])),
                      total + 1)
  {
    var line := seen[i];
    TakeOneMore(seen, i);
    ColoredSnoc(seen[..i], line);
    BodyStep(seen[..i], line);
    var next := Thread(current.color, current.instructions + NailOf(line));
    CountSnoc(threads, current);
    CountSnoc(threads, next);
    if ParseInt(line).None? {
      assert current.instructions + NailOf(line) == current.instructions;
    }
  }

  lemma ScanPreamble(seen: seq<string>, i: nat, threads: seq<Thread>, total: int)
    requires Scanned(seen, i, threads, None, total)
    requires i < |seen| && !IsHeader(seen[i])
    ensures Scanned(seen, i + 1, threads, None, total)
  {
    var line := seen[i];
    TakeOneMore(seen, i);
    ColoredSnoc(seen[..i], line);
    PreambleStep(seen[..i], line);
  }

  /** Before the first line nothing has been read. */
  lemma ScanStart(seen: seq<string>)
    ensures Scanned(seen, 0, [], None, 0)
  {
    assert seen[..0] == [];
  }

  /** A colourless header rejects the file with its line number. */
  lemma ScanBadHeader(seen: seq<string>, i: nat, threads: seq<Thread>, current: Option<Thread>, total: int)
    requires Scanned(seen, i, threads, current, total)
    requires i < |seen| && BadHeader(seen[i])
    ensures Interpret(seen) == Err(InvalidColorFormat(i + 1, seen[i]))
  {
    FirstBadHeaderAt(seen, i);
  }

  /** After the last line: the open thread is the last one, and no thread at all is an error. */
  lemma ScanDone(seen: seq<string>, threads: seq<Thread>, current: Option<Thread>, total: int)
    requires Scanned(seen, |seen|, threads, current, total)
    ensures Interpret(seen) ==
              if Open(threads, current) == [] then Err(NoThreadsFound)
              else Ok(Project(Open(threads, current), total))
  {
    assert seen[..|seen|] == seen;
  }

  lemma TakeOneMore<T>(s: seq<T>, i: nat)
    requires i < |s|
    ensures s[..i + 1] == s[..i] + [s[i]]
  {
  }

  lemma ColoredSnoc(lines: seq<string>, line: string)
    requires HeadersColored(lines) && !BadHeader(line)
    ensures HeadersColored(lines + [line])
  {
    assert forall k :: 0 <= k < |lines| ==> (lines + [line])[k] == lines[k];
  }

  lemma CountSnoc(threads: seq<Thread>, t: Thread)
    ensures InstructionCount(threads + [t]) == InstructionCount(threads) + |t.instructions|
  {
    assert (threads + [t])[..|threads|] == threads;
  }

  /** Loop step for a header line with a colour. */
  lemma HeaderStep(seen: seq<string>, line: string)
    requires IsHeader(line) && FindColor(line).Some?
    ensures Blocks(seen + [line]) == Blocks(seen) + [Block(line, [])]
    ensures ThreadsOf(Blocks(seen + [line])) ==
              ThreadsOf(Blocks(seen)) + [Thread(FindColor(line).value, [])]
  {
    BlocksSnocHeader(seen, line);
  }

  /** The threads with one more body line given to the last one. */
  function ExtendLast(threads: seq<Thread>, line: string): seq<Thread>
  {
    if threads == [] then []
    else
      var last := threads[|threads| - 1];
      threads[..|threads| - 1] + [Thread(last.color, last.instructions + NailOf(line))]
  }

  /** Loop step for a line that is not a header. */
  lemma BodyStep(seen: seq<string>, line: string)
    requires !IsHeader(line)
    ensures ThreadsOf(Blocks(seen + [line])) == ExtendLast(ThreadsOf(Blocks(seen)), line)
  {
    BlocksSnocBody(seen, line);
    var b := Blocks(seen);
    if b != [] {
      var n := |b|;
      var e := Extend(b, line);
      assert e[..n - 1] == b[..n - 1];
      NailsSnoc(b[n - 1].body, line);
    }
  }

  /** Loop step for a line before the first header. */
  lemma PreambleStep(seen: seq<string>, line: string)
    requires !IsHeader(line)
    requires Blocks(seen) == []
    ensures Blocks(seen + [line]) == []
  {
    BlocksSnocBody(seen, line);
  }
}
