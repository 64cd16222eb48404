/**
 * The instruction cursor of app/page.tsx: the pair (currentThreadIndex,
 * currentInstructionIndex) over a loaded project, the Next and Previous
 * transitions behind the buttons and the keyboard shortcuts, the buttons'
 * disabled conditions, the current instruction and the progress percentage.
 *
 * The indices are plain integers: a restored snapshot may hold any values,
 * and Previous into a thread without instructions sets the instruction index
 * to -1.
 */
module Navigation {
  import opened Wrappers
  import opened Types

  /** (currentThreadIndex, currentInstructionIndex). */
  datatype Cursor = Cursor(thread: int, instruction: int)

  /** Where an upload and a reset put the cursor. */
  const Start: Cursor := Cursor(0, 0)

  /**
   * The positions the transitions keep to: a thread that exists and an
   * instruction of it, or, in a thread without instructions, index 0 or -1.
   */
  predicate Valid(threads: seq<Thread>, c: Cursor)
  {
    0 <= c.thread < |threads| &&
    (if |threads[c.thread].instructions| == 0 then -1 <= c.instruction <= 0
     else 0 <= c.instruction < |threads[c.thread].instructions|)
  }

  /** The cursor names an instruction, so the page shows it with the two buttons. */
  predicate Shown(threads: seq<Thread>, c: Cursor)
  {
    0 <= c.thread < |threads| && 0 <= c.instruction < |threads[c.thread].instructions|
  }

  /**
   * handleNext with a project loaded: the next instruction of the thread,
   * else the first of the next thread, else nowhere. With a thread index out
   * of range the handler throws before it updates anything.
   */
  function Next(threads: seq<Thread>, c: Cursor): Cursor
  {
    if !(0 <= c.thread < |threads|) then c
    else if c.instruction < |threads[c.thread].instructions| - 1 then Cursor(c.thread, c.instruction + 1)
    else if c.thread < |threads| - 1 then Cursor(c.thread + 1, 0)
    else c
  }

  /**
   * handlePrevious with a project loaded: the previous instruction of the
   * thread, else the last of the previous thread (-1 when it has none), else
   * nowhere. When the previous thread does not exist the handler has already
   * moved the thread index when it throws, and the instruction index stays.
   */
  function Previous(threads: seq<Thread>, c: Cursor): Cursor
  {
    if c.instruction > 0 then Cursor(c.thread, c.instruction - 1)
    else if c.thread > 0 then
      if c.thread - 1 < |threads| then Cursor(c.thread - 1, |threads[c.thread - 1].instructions| - 1)
      else Cursor(c.thread - 1, c.instruction)
    else c
  }

  /** The Next button is disabled at the last instruction of the last thread. */
  predicate NextDisabled(threads: seq<Thread>, c: Cursor)
    requires 0 <= c.thread < |threads|
  {
    c.thread == |threads| - 1 && c.instruction == |threads[c.thread].instructions| - 1
  }

  /** The Previous button is disabled at the first instruction of the first thread. */
  predicate PreviousDisabled(c: Cursor)
  {
    c.thread == 0 && c.instruction == 0
  }

  // ---------------------------------------------------------------------------
  // Transitions

  /** Both transitions keep a valid cursor valid. */
  lemma TransitionsKeepValid(threads: seq<Thread>, c: Cursor)
    requires Valid(threads, c)
    ensures Valid(threads, Next(threads, c))
    ensures Valid(threads, Previous(threads, c))
  {
  }

  /** When no thread is empty, a valid cursor always names an instruction. */
  lemma ValidIsShownWithoutEmptyThreads(threads: seq<Thread>, c: Cursor)
    requires forall t :: 0 <= t < |threads| ==> threads[t].instructions != []
    requires Valid(threads, c)
    ensures Shown(threads, c)
  {
  }

  /**
   * Previous undoes a Next that moved, except from index 0 of a thread
   * without instructions: see `PreviousAfterNextFromEmptyThread`.
   */
  lemma PreviousUndoesNext(threads: seq<Thread>, c: Cursor)
    requires Valid(threads, c) && Next(threads, c) != c
    requires threads[c.thread].instructions != [] || c.instruction != 0
    ensures Previous(threads, Next(threads, c)) == c
  {
  }

  /** From index 0 of a thread without instructions, Next and then Previous lands on index -1. */
  lemma PreviousAfterNextFromEmptyThread(threads: seq<Thread>, t: int)
    requires 0 <= t < |threads| - 1 && threads[t].instructions == []
    ensures Next(threads, Cursor(t, 0)) == Cursor(t + 1, 0)
    ensures Previous(threads, Next(threads, Cursor(t, 0))) == Cursor(t, -1)
  {
  }

  /** Next undoes a Previous that moved, from any valid cursor with a non-negative instruction index. */
  lemma NextUndoesPrevious(threads: seq<Thread>, c: Cursor)
    requires Valid(threads, c) && Previous(threads, c) != c
    requires c.instruction >= 0
    ensures Next(threads, Previous(threads, c)) == c
  {
  }

  /** Where the buttons are shown, Next does nothing exactly when its button is disabled. */
  lemma NextButtonMatches(threads: seq<Thread>, c: Cursor)
    requires Shown(threads, c)
    ensures Next(threads, c) == c <==> NextDisabled(threads, c)
  {
  }

  /** Where the buttons are shown, Previous does nothing exactly when its button is disabled. */
  lemma PreviousButtonMatches(threads: seq<Thread>, c: Cursor)
    requires Shown(threads, c)
    ensures Previous(threads, c) == c <==> PreviousDisabled(c)
  {
  }

  // ---------------------------------------------------------------------------
  // The current instruction

  /** getCurrentInstruction: the instruction under the cursor, if the project, thread and instruction exist. */
  function CurrentInstruction(project: Option<Project>, c: Cursor): (r: Option<Instruction>)
  {
    if project.None? then None
    else if !(0 <= c.thread < |project.value.threads|) then None
    else if !(0 <= c.instruction < |project.value.threads[c.thread].instructions|) then None
    else Some(project.value.threads[c.thread].instructions[c.instruction])
  }

  /**
   * At a valid cursor the current instruction exists exactly when the thread
   * has instructions and the index is not -1; it is the cursor's instruction.
   */
  lemma CurrentInstructionAtValid(p: Project, c: Cursor)
    requires Valid(p.threads, c)
    ensures CurrentInstruction(Some(p), c).Some? <==> p.threads[c.thread].instructions != [] && c.instruction >= 0
    ensures CurrentInstruction(Some(p), c).Some? ==>
              CurrentInstruction(Some(p), c).value == p.threads[c.thread].instructions[c.instruction]
  {
  }

  /** The page shows an instruction and the buttons exactly where the cursor is `Shown`. */
  lemma CurrentInstructionShown(p: Project, c: Cursor)
    ensures CurrentInstruction(Some(p), c).Some? <==> Shown(p.threads, c)
    ensures CurrentInstruction(None, c).None?
  {
  }

  // ---------------------------------------------------------------------------
  // Progress

  /** The instructions before the cursor: all of the earlier threads', plus the instruction index. */
  function Completed(threads: seq<Thread>, c: Cursor): int
    requires c.thread <= |threads|
  {
    InstructionCount(threads[..if c.thread < 0 then 0 else c.thread]) + c.instruction
  }

  /** Math.round(n / d): the integer r with r - 1/2 <= n/d < r + 1/2. */
  function RoundRatio(n: int, d: int): int
    requires d != 0
  {
    if d > 0 then (2 * n + d) / (2 * d) else (-2 * n - d) / (-2 * d)
  }

  lemma RoundRatioIsNearest(n: int, d: int)
    requires d != 0
    ensures var (m, e) := if d > 0 then (n, d) else (-n, -d);
            2 * e * RoundRatio(n, d) <= 2 * m + e < 2 * e * RoundRatio(n, d) + 2 * e
  {
    var (m, e) := if d > 0 then (n, d) else (-n, -d);
    var q := (2 * m + e) / (2 * e);
    assert RoundRatio(n, d) == q;
    assert 2 * m + e == (2 * e) * q + (2 * m + e) % (2 * e);
  }

  /**
   * Math.round(completed / total * 100), computed exactly on rationals; `None`
   * when the division by a zero total gives NaN or an infinity.
   */
  function Percent(completed: int, total: int): Option<int>
  {
    if total == 0 then None else Some(RoundRatio(100 * completed, total))
  }

  /** Each earlier thread counts in full, so a later thread index counts at least as much. */
  lemma CompletedPrefix(threads: seq<Thread>, t: int)
    requires 0 <= t < |threads|
    ensures InstructionCount(threads[..t + 1]) == InstructionCount(threads[..t]) + |threads[t].instructions|
    ensures InstructionCount(threads[..t + 1]) <= InstructionCount(threads)
  {
    assert threads[..t + 1][..t] == threads[..t];
    InstructionCountPrefix(threads, t + 1);
  }

  /**
   * At a valid cursor with a non-negative index the completed count lies in
   * 0..total, and below the total when the current thread has instructions.
   */
  lemma CompletedBounds(threads: seq<Thread>, c: Cursor)
    requires Valid(threads, c) && c.instruction >= 0
    ensures 0 <= Completed(threads, c) <= InstructionCount(threads)
    ensures threads[c.thread].instructions != [] ==> Completed(threads, c) < InstructionCount(threads)
  {
    CompletedPrefix(threads, c.thread);
  }

  /**
   * For a project whose total counts its instructions, the percentage is 0 at
   * the start and within 0..100 at every valid cursor with a non-negative
   * index; it is undefined only for a project without instructions.
   */
  lemma ProgressBounds(threads: seq<Thread>, c: Cursor)
    requires Valid(threads, c) && c.instruction >= 0
    ensures var total := InstructionCount(threads);
            Percent(Completed(threads, c), total).None? <==> total == 0
    ensures var total := InstructionCount(threads);
            total > 0 ==> 0 <= Percent(Completed(threads, c), total).value <= 100
    ensures var total := InstructionCount(threads);
            total > 0 && c == Start ==> Percent(Completed(threads, c), total) == Some(0)
  {
    CompletedBounds(threads, c);
    var total := InstructionCount(threads);
    if total > 0 {
      PercentInRange(Completed(threads, c), total);
    }
  }

  /**
   * A valid cursor with a negative index sits at -1 in a thread without
   * instructions, where the completed count is one less than the earlier
   * threads' total: -1 when that thread is the first.
   */
  lemma CompletedInEmptyThread(threads: seq<Thread>, c: Cursor)
    requires Valid(threads, c) && c.instruction < 0
    ensures threads[c.thread].instructions == [] && c.instruction == -1
    ensures -1 <= Completed(threads, c) == InstructionCount(threads[..c.thread]) - 1 < InstructionCount(threads)
  {
    CompletedPrefix(threads, c.thread);
  }

  /**
   * The percentage can be negative: with an empty first thread, Next and
   * then Previous leave the cursor valid at (0, -1), where the page
   * computes -100.
   */
  lemma NegativeProgressInEmptyThread()
    ensures var threads := [Thread([1, 2, 3], []), Thread([4, 5, 6], [Instruction(5)])];
            var c := Previous(threads, Next(threads, Start));
            c == Cursor(0, -1) && Valid(threads, c) && Completed(threads, c) == -1 &&
            Percent(Completed(threads, c), InstructionCount(threads)) == Some(-100)
  {
  }

  /** A share of a positive total rounds to a percentage between 0 and 100. */
  lemma PercentInRange(done: int, total: int)
    requires 0 <= done <= total && total > 0
    ensures 0 <= RoundRatio(100 * done, total) <= 100
  {
    var r := RoundRatio(100 * done, total);
    RoundRatioIsNearest(100 * done, total);
    if r < 0 {
      MulMono(total, r + 1, 0);
    }
    if r > 100 {
      MulMono(total, 101, r);
    }
  }

  lemma MulMono(k: int, x: int, y: int)
    requires k > 0 && x <= y
    ensures k * x <= k * y
  {
  }

  /**
   * At the last instruction of the last thread one instruction is still
   * counted as not done, so the percentage reads 100 exactly when the
   * project has at least 200 instructions and rounding lifts 99.5 or more.
   */
  lemma FinalProgress(threads: seq<Thread>)
    requires |threads| >= 1 && threads[|threads| - 1].instructions != []
    ensures var c := Cursor(|threads| - 1, |threads[|threads| - 1].instructions| - 1);
            var total := InstructionCount(threads);
            Completed(threads, c) == total - 1 &&
            (Percent(Completed(threads, c), total) == Some(100) <==> total >= 200)
  {
    var n := |threads|;
    assert threads[..n] == threads;
    CompletedPrefix(threads, n - 1);
    var total := InstructionCount(threads);
    var r := RoundRatio(100 * (total - 1), total);
    RoundRatioIsNearest(100 * (total - 1), total);
    if r >= 101 {
      MulMono(2 * total, 101, r);
    } else if r <= 99 {
      MulMono(2 * total, r, 99);
    }
  }

  /**
   * Next moves the completed count on by one, except out of index 0 of a
   * thread without instructions, which it leaves as it is.
   */
  lemma NextCompletesOne(threads: seq<Thread>, c: Cursor)
    requires Valid(threads, c) && Next(threads, c) != c
    ensures Completed(threads, Next(threads, c)) ==
            Completed(threads, c) + (if threads[c.thread].instructions == [] && c.instruction == 0 then 0 else 1)
  {
    if c.instruction >= |threads[c.thread].instructions| - 1 {
      CompletedPrefix(threads, c.thread);
    }
  }

  // ---------------------------------------------------------------------------
  // Auto-advance

  /** Auto-advance: `n` firings of the interval, each a Next. */
  function Advance(threads: seq<Thread>, c: Cursor, n: nat): Cursor
    decreases n
  {
    if n == 0 then c else Advance(threads, Next(threads, c), n - 1)
  }

  /** How far a cursor is along the playback: strictly increased by every Next that moves. */
  function Rank(threads: seq<Thread>, c: Cursor): int
    requires c.thread <= |threads|
  {
    Completed(threads, c) + c.thread
  }

  lemma RankBounds(threads: seq<Thread>, c: Cursor)
    requires Valid(threads, c)
    ensures -1 <= Rank(threads, c) <= InstructionCount(threads) + |threads| - 1
    ensures Next(threads, c) != c ==> Rank(threads, c) < Rank(threads, Next(threads, c))
  {
    CompletedPrefix(threads, c.thread);
    if Next(threads, c) != c {
      NextCompletesOne(threads, c);
    }
  }

  /** Next does nothing at a valid cursor exactly on the last thread at or past its last instruction. */
  lemma NextStopsAtEnd(threads: seq<Thread>, c: Cursor)
    requires Valid(threads, c)
    ensures Next(threads, c) == c <==>
            c.thread == |threads| - 1 && c.instruction >= |threads[c.thread].instructions| - 1
  {
  }

  /**
   * Auto-advance from a valid cursor reaches the end of the last thread within
   * (total instructions + threads) firings and then stays there.
   */
  lemma {:induction false} AdvanceReachesEnd(threads: seq<Thread>, c: Cursor, n: nat)
    requires Valid(threads, c)
    requires n + Rank(threads, c) >= InstructionCount(threads) + |threads| - 1
    ensures Valid(threads, Advance(threads, c, n))
    ensures Next(threads, Advance(threads, c, n)) == Advance(threads, c, n)
    ensures Advance(threads, c, n).thread == |threads| - 1
    decreases n
  {
    RankBounds(threads, c);
    TransitionsKeepValid(threads, c);
    if n == 0 {
      RankBounds(threads, Next(threads, c));
      NextStopsAtEnd(threads, c);
    } else if Next(threads, c) == c {
      AdvanceFixed(threads, c, n);
      NextStopsAtEnd(threads, c);
    } else {
      AdvanceReachesEnd(threads, Next(threads, c), n - 1);
    }
  }

  /** No thread of the project is without instructions. */
  predicate NoEmptyThreads(threads: seq<Thread>)
  {
    forall t :: 0 <= t < |threads| ==> threads[t].instructions != []
  }

  /** The last instruction of the last thread, where playback ends. */
  function Last(threads: seq<Thread>): Cursor
    requires |threads| >= 1
  {
    Cursor(|threads| - 1, |threads[|threads| - 1].instructions| - 1)
  }

  /**
   * Without empty threads every firing completes one instruction, so from a
   * valid cursor the firings still missing to reach the last instruction are
   * exactly the instructions not yet completed, minus the current one.
   */
  lemma {:induction false} AdvanceCountsInstructions(threads: seq<Thread>, c: Cursor)
    requires NoEmptyThreads(threads) && Valid(threads, c)
    ensures 0 <= Completed(threads, c) < InstructionCount(threads)
    ensures Advance(threads, c, InstructionCount(threads) - 1 - Completed(threads, c)) == Last(threads)
    decreases InstructionCount(threads) - Completed(threads, c)
  {
    CompletedBounds(threads, c);
    NextStopsAtEnd(threads, c);
    if Next(threads, c) == c {
      FinalProgress(threads);
    } else {
      var d := Next(threads, c);
      NextCompletesOne(threads, c);
      TransitionsKeepValid(threads, c);
      CompletedBounds(threads, d);
      AdvanceCountsInstructions(threads, d);
    }
  }

  /** `a` firings and then `b` more are `a + b` firings. */
  lemma {:induction false} AdvanceSplit(threads: seq<Thread>, c: Cursor, a: nat, b: nat)
    ensures Advance(threads, Advance(threads, c, a), b) == Advance(threads, c, a + b)
    decreases a
  {
    if a > 0 {
      AdvanceSplit(threads, Next(threads, c), a - 1, b);
    }
  }

  /**
   * From the start, a project without empty threads reaches its last
   * instruction after exactly one firing fewer than it has instructions,
   * not before, and stays there on every further firing.
   */
  lemma AdvanceFromStart(threads: seq<Thread>, m: nat)
    requires |threads| >= 1 && NoEmptyThreads(threads)
    ensures InstructionCount(threads) >= 1
    ensures Advance(threads, Start, InstructionCount(threads) - 1) == Last(threads)
    ensures Advance(threads, Start, InstructionCount(threads) - 1 + m) == Last(threads)
    ensures forall n :: 0 <= n < InstructionCount(threads) - 1 ==> Advance(threads, Start, n) != Last(threads)
  {
    assert threads[..0] == [];
    AdvanceCountsInstructions(threads, Start);
    var total := InstructionCount(threads);
    NextStopsAtEnd(threads, Last(threads));
    AdvanceFixed(threads, Last(threads), m);
    AdvanceSplit(threads, Start, total - 1, m);
    forall n | 0 <= n < total - 1
      ensures Advance(threads, Start, n) != Last(threads)
    {
      AdvanceProgress(threads, Start, n);
      FinalProgress(threads);
    }
  }

  /** Without empty threads, n firings that stay short of the end complete n instructions. */
  lemma {:induction false} AdvanceProgress(threads: seq<Thread>, c: Cursor, n: nat)
    requires NoEmptyThreads(threads) && Valid(threads, c)
    ensures Valid(threads, Advance(threads, c, n))
    ensures Completed(threads, Advance(threads, c, n)) ==
            if Completed(threads, c) + n < InstructionCount(threads) then Completed(threads, c) + n
            else InstructionCount(threads) - 1
    decreases n
  {
    CompletedBounds(threads, c);
    if n > 0 {
      NextStopsAtEnd(threads, c);
      TransitionsKeepValid(threads, c);
      if Next(threads, c) == c {
        FinalProgress(threads);
        AdvanceFixed(threads, c, n);
      } else {
        NextCompletesOne(threads, c);
        AdvanceProgress(threads, Next(threads, c), n - 1);
      }
    }
  }

  /**
   * An empty thread costs a firing of its own: a thread without instructions
   * followed by a one-nail thread has one instruction, yet the start is not
   * its last instruction and one firing is needed to get there.
   */
  lemma EmptyThreadCostsAFiring()
    ensures var threads := [Thread([0, 0, 0], []), Thread([0, 0, 0], [Instruction(4)])];
            InstructionCount(threads) == 1 &&
            Advance(threads, Start, InstructionCount(threads) - 1) != Last(threads) &&
            Advance(threads, Start, 1) == Last(threads)
  {
    var threads := [Thread([0, 0, 0], []), Thread([0, 0, 0], [Instruction(4)])];
    assert threads[1..] == [Thread([0, 0, 0], [Instruction(4)])];
    assert Advance(threads, Start, 1) == Advance(threads, Cursor(1, 0), 0);
  }

  /** Once Next does nothing, further firings do nothing. */
  lemma {:induction false} AdvanceFixed(threads: seq<Thread>, c: Cursor, n: nat)
    requires Next(threads, c) == c
    ensures Advance(threads, c, n) == c
  {
    if n > 0 {
      AdvanceFixed(threads, c, n - 1);
    }
  }

  // ---------------------------------------------------------------------------
  // Auto-advance as installed by the effect

  /**
   * The interval's callback calls the handleNext of the render that last ran
   * the effect, so it steps from that render's cursor, `captured`. The
   * effect runs again, and captures the new cursor, only when the
   * instruction index has changed since.
   */
  datatype Installed = Installed(captured: Cursor, current: Cursor)

  /** One firing of the interval as the effect installs it. */
  function FireAsWritten(threads: seq<Thread>, s: Installed): Installed
  {
    var moved := Next(threads, s.captured);
    Installed(if moved.instruction != s.captured.instruction then moved else s.captured, moved)
  }

  /** `n` firings of the interval as installed, starting from the effect having just run. */
  function AdvanceAsWritten(threads: seq<Thread>, s: Installed, n: nat): Installed
    decreases n
  {
    if n == 0 then s else AdvanceAsWritten(threads, FireAsWritten(threads, s), n - 1)
  }

  /** Three threads of one instruction each. */
  const OneNailThreads: seq<Thread> :=
    [Thread([0, 0, 0], [Instruction(5)]), Thread([0, 0, 0], [Instruction(6)]), Thread([0, 0, 0], [Instruction(7)])]

  /**
   * With threads of one instruction each, the installed callback moves from
   * the start to the second thread and then stays there for ever, while
   * stepping from the current cursor reaches the third thread in two firings.
   */
  lemma AsWrittenStalls(n: nat)
    requires n >= 1
    ensures AdvanceAsWritten(OneNailThreads, Installed(Start, Start), n).current == Cursor(1, 0)
    ensures Advance(OneNailThreads, Start, 2) == Cursor(2, 0)
  {
    var stuck := Installed(Start, Cursor(1, 0));
    assert FireAsWritten(OneNailThreads, Installed(Start, Start)) == stuck;
    StuckStaysStuck(n - 1);
  }

  lemma {:induction false} StuckStaysStuck(n: nat)
    ensures AdvanceAsWritten(OneNailThreads, Installed(Start, Cursor(1, 0)), n) == Installed(Start, Cursor(1, 0))
  {
    if n > 0 {
      assert FireAsWritten(OneNailThreads, Installed(Start, Cursor(1, 0))) == Installed(Start, Cursor(1, 0));
      StuckStaysStuck(n - 1);
    }
  }

  /**
   * When every thread has at least two instructions each move changes the
   * instruction index, so the installed callback always steps from the
   * current cursor and agrees with `Advance`.
   */
  lemma {:induction false} AsWrittenAgreesWithoutShortThreads(threads: seq<Thread>, c: Cursor, n: nat)
    requires forall t :: 0 <= t < |threads| ==> |threads[t].instructions| >= 2
    requires Valid(threads, c)
    ensures AdvanceAsWritten(threads, Installed(c, c), n) == Installed(Advance(threads, c, n), Advance(threads, c, n))
    decreases n
  {
    if n > 0 {
      var moved := Next(threads, c);
      assert FireAsWritten(threads, Installed(c, c)) == Installed(moved, moved);
      TransitionsKeepValid(threads, c);
      AsWrittenAgreesWithoutShortThreads(threads, moved, n - 1);
    }
  }
}
