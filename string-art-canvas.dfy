/**
 * The preview of components/string-art-canvas.tsx, reduced to what it draws:
 * one dot and number per nail around the circle, one line per connection
 * made so far in its thread's colour, and a ring around the current nail.
 *
 * A point on the circle is kept as the fraction of a full turn it sits at
 * (nail n of N at n/N); the pixel geometry (centre, radius, sine and cosine)
 * is not modelled.
 */
module StringArtCanvas {
  import opened Wrappers
  import opened Types
  import opened Text

  /** The point at fraction num/den of a full turn, starting from angle 0. */
  datatype Turn = Turn(num: int, den: int)

  /** One drawing step, in the order the effect issues them. */
  datatype Command =
    | Nail(at: Turn, caption: string)                  // the grey dot and its number
    | Segment(color: seq<int>, from: Turn, to: Turn)   // one connection, in the thread's colour
    | Highlight(at: Turn)                              // the red ring on the current nail

  /** Where nail `nail` sits when there are `totalNails` nails. */
  function Position(nail: int, totalNails: int): Turn
  {
    Turn(nail, totalNails)
  }

  function Max(a: int, b: int): int
  {
    if a < b then b else a
  }

  /** Math.max over the nail numbers of some instructions, starting from 0. */
  function MaxOf(instructions: seq<Instruction>): int
  {
    if instructions == [] then 0
    else Max(MaxOf(instructions[..|instructions| - 1]), instructions[|instructions| - 1].nailNumber)
  }

  /** Math.max over every nail number of every thread, starting from 0. */
  function MaxNailOf(threads: seq<Thread>): int
  {
    if threads == [] then 0
    else Max(MaxNailOf(threads[..|threads| - 1]), MaxOf(threads[|threads| - 1].instructions))
  }

  /** totalNails: one more than the largest nail number, nail numbers counting from 0. */
  function TotalNails(threads: seq<Thread>): int
  {
    MaxNailOf(threads) + 1
  }

  /** The dots and numbers of nails 0..n-1. */
  function NailCommands(n: int, totalNails: int): seq<Command>
    requires n >= 0
  {
    if n == 0 then [] else NailCommands(n - 1, totalNails) + [Nail(Position(n - 1, totalNails), NatToString(n - 1))]
  }

  /** The index of the last instruction thread `t` is drawn up to. */
  function Limit(threads: seq<Thread>, t: int, cur: int, curInstr: int): int
    requires 0 <= t < |threads|
  {
    if t == cur then curInstr else |threads[t].instructions| - 1
  }

  /**
   * The index one past the last existing thread the loop visits: threads
   * 0..cur, none when cur is negative, and all of them when cur is one past
   * the last thread (the loop then skips the missing thread).
   */
  function Drawn(threads: seq<Thread>, cur: int): int
  {
    if cur < 0 then 0 else if cur < |threads| then cur + 1 else |threads|
  }

  /** The current instruction exists, so its nail is ringed. */
  predicate Shown(threads: seq<Thread>, cur: int, curInstr: int)
  {
    0 <= cur < |threads| && 0 <= curInstr < |threads[cur].instructions|
  }

  /**
   * The effect runs without throwing: the current thread exists when there
   * is one to draw, and the current instruction exists when segments run up
   * to it.
   */
  predicate Renderable(project: Option<Project>, cur: int, curInstr: int)
  {
    project.Some? ==> RenderableThreads(project.value.threads, cur, curInstr)
  }

  /**
   * The thread loop reads no missing thread and no missing instruction: a
   * current thread one past the last is skipped only when the current
   * instruction is negative, and connections of an existing current thread
   * run at most to its last instruction.
   */
  predicate RenderableThreads(threads: seq<Thread>, cur: int, curInstr: int)
  {
    cur <= |threads| &&
    (cur == |threads| ==> curInstr < 0) &&
    (0 <= cur < |threads| ==> curInstr <= 0 || curInstr < |threads[cur].instructions|)
  }

  /** The connections of a thread up to instruction `limit`: one per consecutive pair. */
  function ThreadSegments(thread: Thread, limit: int, totalNails: int): seq<Command>
    requires limit <= 0 || limit < |thread.instructions|
  {
    if limit <= 0 then []
    else ThreadSegments(thread, limit - 1, totalNails) +
         [Segment(thread.color, Position(thread.instructions[limit - 1].nailNumber, totalNails),
                  Position(thread.instructions[limit].nailNumber, totalNails))]
  }

  /** The connections of threads 0..n-1, thread after thread. */
  function SegmentsBefore(threads: seq<Thread>, cur: int, curInstr: int, totalNails: int, n: int): seq<Command>
    requires RenderableThreads(threads, cur, curInstr)
    requires n <= Drawn(threads, cur)
  {
    if n <= 0 then []
    else SegmentsBefore(threads, cur, curInstr, totalNails, n - 1) +
         ThreadSegments(threads[n - 1], Limit(threads, n - 1, cur, curInstr), totalNails)
  }

  /** The ring on the current nail, if the current thread and instruction exist. */
  function HighlightCommand(threads: seq<Thread>, cur: int, curInstr: int, totalNails: int): seq<Command>
  {
    if Shown(threads, cur, curInstr) then
      [Highlight(Position(threads[cur].instructions[curInstr].nailNumber, totalNails))]
    else []
  }

  /** Everything drawn for a project at a cursor: nails, then connections, then the ring. */
  function Scene(project: Option<Project>, cur: int, curInstr: int): seq<Command>
    requires Renderable(project, cur, curInstr)
  {
    if project.None? then []
    else
      var threads := project.value.threads;
      var total := TotalNails(threads);
      MaxNailBounds(threads);
      NailCommands(total, total) +
      SegmentsBefore(threads, cur, curInstr, total, Drawn(threads, cur)) +
      HighlightCommand(threads, cur, curInstr, total)
  }

  /** The two nested forEach loops finding the largest nail number, starting from 0. */
  method LargestNail(threads: seq<Thread>) returns (maxNailNumber: int)
    ensures maxNailNumber == MaxNailOf(threads)
  {
    maxNailNumber := 0;
    for t := 0 to |threads|
      invariant maxNailNumber == MaxNailOf(threads[..t]) && maxNailNumber >= 0
    {
      var instructions := threads[t].instructions;
      assert instructions[..0] == [];
      for i := 0 to |instructions|
        invariant maxNailNumber == Max(MaxNailOf(threads[..t]), MaxOf(instructions[..i])) && maxNailNumber >= 0
      {
        assert instructions[..i + 1][..i] == instructions[..i];
        maxNailNumber := Max(maxNailNumber, instructions[i].nailNumber);
      }
      assert instructions[..|instructions|] == instructions;
      assert threads[..t + 1][..t] == threads[..t];
    }
    assert threads[..|threads|] == threads;
  }

  /** The loop drawing every nail's dot and number. */
  method DrawNails(totalNails: int) returns (cmds: seq<Command>)
    requires totalNails >= 0
    ensures cmds == NailCommands(totalNails, totalNails)
  {
    cmds := [];
    for i := 0 to totalNails
      invariant cmds == NailCommands(i, totalNails)
    {
      cmds := cmds + [Nail(Position(i, totalNails), NatToString(i))];
    }
  }

  /** The inner loop drawing one thread's connections up to instruction `limit`. */
  method DrawThread(thread: Thread, limit: int, totalNails: int) returns (cmds: seq<Command>)
    requires limit <= 0 || limit < |thread.instructions|
    ensures cmds == ThreadSegments(thread, limit, totalNails)
  {
    cmds := [];
    if limit < 0 {
      return;
    }
    for i := 0 to limit
      invariant cmds == ThreadSegments(thread, i, totalNails)
    {
      var fromNail := thread.instructions[i].nailNumber;
      var toNail := thread.instructions[i + 1].nailNumber;
      cmds := cmds + [Segment(thread.color, Position(fromNail, totalNails), Position(toNail, totalNails))];
    }
  }

  /** The loop over threads 0..cur, each drawn up to its limit. */
  method DrawSegments(threads: seq<Thread>, cur: int, curInstr: int, totalNails: int) returns (cmds: seq<Command>)
    requires RenderableThreads(threads, cur, curInstr)
    ensures cmds == SegmentsBefore(threads, cur, curInstr, totalNails, Drawn(threads, cur))
  {
    cmds := [];
    var t := 0;
    while t <= cur
      invariant 0 <= t && (cur < 0 ==> t == 0) && (0 <= cur ==> t <= cur + 1)
      invariant cmds == SegmentsBefore(threads, cur, curInstr, totalNails, if t < |threads| then t else |threads|)
    {
      var maxInstructionIndex := if t == cur then curInstr else |threads[t].instructions| - 1;
      if maxInstructionIndex >= 0 {
        var segments := DrawThread(threads[t], maxInstructionIndex, totalNails);
        cmds := cmds + segments;
      }
      t := t + 1;
    }
  }

  /** The effect body, issuing draw commands in sequence. */
  method Render(project: Option<Project>, cur: int, curInstr: int) returns (cmds: seq<Command>)
    requires Renderable(project, cur, curInstr)
    ensures cmds == Scene(project, cur, curInstr)
  {
    if project.None? {
      return [];
    }
    var threads := project.value.threads;
    var maxNailNumber := LargestNail(threads);
    MaxNailBounds(threads);
    var totalNails := maxNailNumber + 1;
    var nails := DrawNails(totalNails);
    var segments := DrawSegments(threads, cur, curInstr, totalNails);
    cmds := nails + segments;

    if 0 <= cur < |threads| && 0 <= curInstr < |threads[cur].instructions| {
      var currentNail := threads[cur].instructions[curInstr].nailNumber;
      cmds := cmds + [Highlight(Position(currentNail, totalNails))];
    }
  }

  // ---------------------------------------------------------------------------
  // Nails

  lemma {:induction false} MaxOfBounds(instructions: seq<Instruction>)
    ensures MaxOf(instructions) >= 0
    ensures forall k :: 0 <= k < |instructions| ==> instructions[k].nailNumber <= MaxOf(instructions)
    ensures MaxOf(instructions) == 0 ||
            exists k :: 0 <= k < |instructions| && instructions[k].nailNumber == MaxOf(instructions)
    decreases |instructions|
  {
    if instructions != [] {
      var last := |instructions| - 1;
      var front := instructions[..last];
      MaxOfBounds(front);
      forall k | 0 <= k < last
        ensures instructions[k].nailNumber <= MaxOf(instructions)
      {
        assert instructions[k] == front[k];
      }
      if MaxOf(instructions) == MaxOf(front) {
        if MaxOf(front) != 0 {
          var k :| 0 <= k < |front| && front[k].nailNumber == MaxOf(front);
          assert instructions[k] == front[k];
        }
      } else {
        assert instructions[last].nailNumber == MaxOf(instructions);
      }
    }
  }

  /**
   * The largest nail number is at least 0, at least every nail number, and
   * either 0 or the number of some instruction.
   */
  lemma {:induction false} MaxNailBounds(threads: seq<Thread>)
    ensures MaxNailOf(threads) >= 0
    ensures forall t, k :: 0 <= t < |threads| && 0 <= k < |threads[t].instructions| ==>
              threads[t].instructions[k].nailNumber <= MaxNailOf(threads)
    ensures MaxNailOf(threads) == 0 ||
            exists t, k :: 0 <= t < |threads| && 0 <= k < |threads[t].instructions| &&
              threads[t].instructions[k].nailNumber == MaxNailOf(threads)
    decreases |threads|
  {
    if threads != [] {
      var n := |threads|;
      var front := threads[..n - 1];
      MaxNailBounds(front);
      MaxOfBounds(threads[n - 1].instructions);
      forall t, k | 0 <= t < n - 1 && 0 <= k < |threads[t].instructions|
        ensures threads[t].instructions[k].nailNumber <= MaxNailOf(threads)
      {
        assert threads[t] == front[t];
      }
      if MaxNailOf(threads) == MaxNailOf(front) {
        if MaxNailOf(front) != 0 {
          var t, k :| 0 <= t < |front| && 0 <= k < |front[t].instructions| &&
                      front[t].instructions[k].nailNumber == MaxNailOf(front);
          assert threads[t] == front[t];
        }
      } else if MaxNailOf(threads) != 0 {
        var last := threads[n - 1].instructions;
        var k :| 0 <= k < |last| && last[k].nailNumber == MaxOf(last);
        assert threads[n - 1].instructions[k].nailNumber == MaxNailOf(threads);
      }
    }
  }

  /**
   * There is at least one nail, every nail number is below the count, and
   * the last nail is 0 or the largest nail number of some instruction.
   */
  lemma TotalNailsBounds(threads: seq<Thread>)
    ensures TotalNails(threads) >= 1
    ensures forall t, k :: 0 <= t < |threads| && 0 <= k < |threads[t].instructions| ==>
              threads[t].instructions[k].nailNumber < TotalNails(threads)
    ensures TotalNails(threads) == 1 ||
            exists t, k :: 0 <= t < |threads| && 0 <= k < |threads[t].instructions| &&
              threads[t].instructions[k].nailNumber == TotalNails(threads) - 1
  {
    MaxNailBounds(threads);
  }

  /** Nails 0..n-1 are drawn in order, each once, at its own position and labelled with its own number. */
  lemma {:induction false} NailCommandsAt(n: int, totalNails: int)
    requires n >= 0
    ensures |NailCommands(n, totalNails)| == n
    ensures forall i :: 0 <= i < n ==>
              NailCommands(n, totalNails)[i] == Nail(Position(i, totalNails), NatToString(i))
  {
    if n > 0 {
      NailCommandsAt(n - 1, totalNails);
      var front := NailCommands(n - 1, totalNails);
      forall i | 0 <= i < n - 1
        ensures NailCommands(n, totalNails)[i] == Nail(Position(i, totalNails), NatToString(i))
      {
        assert NailCommands(n, totalNails)[i] == front[i];
      }
    }
  }

  // ---------------------------------------------------------------------------
  // Connections

  /** A thread drawn up to `limit` contributes one connection per consecutive pair of instructions below it. */
  lemma {:induction false} ThreadSegmentsAt(thread: Thread, limit: int, totalNails: int)
    requires limit <= 0 || limit < |thread.instructions|
    ensures |ThreadSegments(thread, limit, totalNails)| == (if limit <= 0 then 0 else limit)
    ensures forall k :: 0 <= k < limit ==>
              ThreadSegments(thread, limit, totalNails)[k] ==
              Segment(thread.color, Position(thread.instructions[k].nailNumber, totalNails),
                      Position(thread.instructions[k + 1].nailNumber, totalNails))
  {
    if limit > 0 {
      ThreadSegmentsAt(thread, limit - 1, totalNails);
    }
  }

  /**
   * Every connection drawn for threads 0..n-1 joins two consecutive
   * instructions k, k+1 of one thread t below its limit, in that thread's
   * colour; and every such pair is drawn.
   */
  lemma {:induction false} SegmentsBeforeAt(threads: seq<Thread>, cur: int, curInstr: int, totalNails: int, n: int)
    requires RenderableThreads(threads, cur, curInstr)
    requires n <= Drawn(threads, cur)
    ensures forall m :: 0 <= m < |SegmentsBefore(threads, cur, curInstr, totalNails, n)| ==>
              DrawnSegment(threads, cur, curInstr, totalNails, n, SegmentsBefore(threads, cur, curInstr, totalNails, n)[m])
    ensures forall t, k :: 0 <= t < n && 0 <= k < Limit(threads, t, cur, curInstr) ==>
              SegmentOf(threads, t, k, totalNails) in SegmentsBefore(threads, cur, curInstr, totalNails, n)
    decreases n
  {
    if n > 0 {
      var front := SegmentsBefore(threads, cur, curInstr, totalNails, n - 1);
      var last := ThreadSegments(threads[n - 1], Limit(threads, n - 1, cur, curInstr), totalNails);
      SegmentsBeforeAt(threads, cur, curInstr, totalNails, n - 1);
      ThreadSegmentsAt(threads[n - 1], Limit(threads, n - 1, cur, curInstr), totalNails);
      var all := front + last;
      assert SegmentsBefore(threads, cur, curInstr, totalNails, n) == all;
      forall m | 0 <= m < |all|
        ensures DrawnSegment(threads, cur, curInstr, totalNails, n, all[m])
      {
        if m < |front| {
          assert DrawnSegment(threads, cur, curInstr, totalNails, n - 1, front[m]);
          var t, k :| 0 <= t < n - 1 && 0 <= k < Limit(threads, t, cur, curInstr) &&
                      front[m] == SegmentOf(threads, t, k, totalNails);
          assert all[m] == front[m];
        } else {
          assert all[m] == last[m - |front|] == SegmentOf(threads, n - 1, m - |front|, totalNails);
        }
      }
      forall t, k | 0 <= t < n && 0 <= k < Limit(threads, t, cur, curInstr)
        ensures SegmentOf(threads, t, k, totalNails) in all
      {
        if t == n - 1 {
          assert all[|front| + k] == last[k];
        }
      }
    }
  }

  /**
   * `cmd` is the connection from instruction k to instruction k+1 of some
   * thread t below n, with k below that thread's limit.
   */
  predicate DrawnSegment(threads: seq<Thread>, cur: int, curInstr: int, totalNails: int, n: int, cmd: Command)
    requires RenderableThreads(threads, cur, curInstr)
    requires n <= |threads|
  {
    exists t, k :: 0 <= t < n && 0 <= k < Limit(threads, t, cur, curInstr) && cmd == SegmentOf(threads, t, k, totalNails)
  }

  /** The connection from instruction k to instruction k+1 of thread t. */
  function SegmentOf(threads: seq<Thread>, t: int, k: int, totalNails: int): Command
    requires 0 <= t < |threads| && 0 <= k < |threads[t].instructions| - 1
  {
    Segment(threads[t].color, Position(threads[t].instructions[k].nailNumber, totalNails),
            Position(threads[t].instructions[k + 1].nailNumber, totalNails))
  }

  // ---------------------------------------------------------------------------
  // The scene

  /**
   * With no project nothing is drawn; otherwise the scene opens with every
   * nail 0..totalNails-1 in order, each at its position and with its number,
   * and no nail comes after them, so each nail is drawn once.
   */
  lemma SceneNails(project: Option<Project>, cur: int, curInstr: int)
    requires Renderable(project, cur, curInstr)
    ensures project.None? ==> Scene(project, cur, curInstr) == []
    ensures project.Some? ==>
              var total := TotalNails(project.value.threads);
              total <= |Scene(project, cur, curInstr)| &&
              forall i :: 0 <= i < total ==>
                Scene(project, cur, curInstr)[i] == Nail(Position(i, total), NatToString(i))
    ensures project.Some? ==>
              var total := TotalNails(project.value.threads);
              forall i :: total <= i < |Scene(project, cur, curInstr)| ==> !Scene(project, cur, curInstr)[i].Nail?
  {
    if project.Some? {
      var threads := project.value.threads;
      var total := TotalNails(threads);
      MaxNailBounds(threads);
      NailCommandsAt(total, total);
      var nails := NailCommands(total, total);
      var segments := SegmentsBefore(threads, cur, curInstr, total, Drawn(threads, cur));
      SegmentsBeforeAt(threads, cur, curInstr, total, Drawn(threads, cur));
      var scene := Scene(project, cur, curInstr);
      assert scene == nails + segments + HighlightCommand(threads, cur, curInstr, total);
      forall i | total <= i < |scene| ensures !scene[i].Nail? {
        if i < |nails| + |segments| {
          assert scene[i] == segments[i - |nails|];
          assert DrawnSegment(threads, cur, curInstr, total, Drawn(threads, cur), segments[i - |nails|]);
        }
      }
    }
  }

  /**
   * The scene has a ring exactly when the current instruction exists, then
   * as its last command and on the current nail.
   */
  lemma SceneHighlight(project: Option<Project>, cur: int, curInstr: int)
    requires Renderable(project, cur, curInstr)
    requires project.Some?
    ensures var scene := Scene(project, cur, curInstr);
            (exists m :: 0 <= m < |scene| && scene[m].Highlight?) <==> Shown(project.value.threads, cur, curInstr)
    ensures var scene := Scene(project, cur, curInstr);
            var threads := project.value.threads;
            Shown(threads, cur, curInstr) ==>
              scene[|scene| - 1] == Highlight(Position(threads[cur].instructions[curInstr].nailNumber, TotalNails(threads)))
  {
    var threads := project.value.threads;
    var total := TotalNails(threads);
    MaxNailBounds(threads);
    NailCommandsAt(total, total);
    var nails := NailCommands(total, total);
    var segments := SegmentsBefore(threads, cur, curInstr, total, Drawn(threads, cur));
    SegmentsBeforeAt(threads, cur, curInstr, total, Drawn(threads, cur));
    var scene := Scene(project, cur, curInstr);
    assert scene == nails + segments + HighlightCommand(threads, cur, curInstr, total);
    forall m | 0 <= m < |nails| + |segments| ensures !scene[m].Highlight? {
      if m < |nails| {
        assert scene[m] == nails[m];
      } else {
        assert scene[m] == segments[m - |nails|];
        assert DrawnSegment(threads, cur, curInstr, total, Drawn(threads, cur), segments[m - |nails|]);
      }
    }
    if Shown(threads, cur, curInstr) {
      assert scene[|scene| - 1].Highlight?;
    } else {
      assert |scene| == |nails| + |segments|;
    }
  }

  /**
   * Every connection in the scene joins consecutive instructions k, k+1 of
   * a thread t no later than the current one, in that thread's colour, with
   * k below that thread's limit (the current instruction for the current
   * thread, its last instruction for earlier ones); and every such
   * connection is in the scene.
   */
  lemma SceneSegments(project: Option<Project>, cur: int, curInstr: int)
    requires Renderable(project, cur, curInstr)
    requires project.Some?
    ensures var scene := Scene(project, cur, curInstr);
            var threads := project.value.threads;
            forall m :: 0 <= m < |scene| && scene[m].Segment? ==>
              DrawnSegment(threads, cur, curInstr, TotalNails(threads), Drawn(threads, cur), scene[m])
    ensures var scene := Scene(project, cur, curInstr);
            var threads := project.value.threads;
            forall t, k :: 0 <= t < Drawn(threads, cur) && 0 <= k < Limit(threads, t, cur, curInstr) ==>
              SegmentOf(threads, t, k, TotalNails(threads)) in scene
  {
    var threads := project.value.threads;
    var total := TotalNails(threads);
    MaxNailBounds(threads);
    NailCommandsAt(total, total);
    var nails := NailCommands(total, total);
    var segments := SegmentsBefore(threads, cur, curInstr, total, Drawn(threads, cur));
    SegmentsBeforeAt(threads, cur, curInstr, total, Drawn(threads, cur));
    var highlight := HighlightCommand(threads, cur, curInstr, total);
    var scene := Scene(project, cur, curInstr);
    assert scene == nails + segments + highlight;
    forall m | 0 <= m < |scene| && scene[m].Segment?
      ensures DrawnSegment(threads, cur, curInstr, total, Drawn(threads, cur), scene[m])
    {
      if |nails| <= m < |nails| + |segments| {
        assert scene[m] == segments[m - |nails|];
      }
    }
    forall t, k | 0 <= t < Drawn(threads, cur) && 0 <= k < Limit(threads, t, cur, curInstr)
      ensures SegmentOf(threads, t, k, total) in scene
    {
      var x := SegmentOf(threads, t, k, total);
      assert x in segments;
      var m :| 0 <= m < |segments| && segments[m] == x;
      assert scene[|nails| + m] == x;
    }
  }

  /**
   * The current thread contributes exactly `curInstr` connections, the last
   * of them ending at the current nail, after all those of earlier threads.
   */
  lemma CurrentThreadSegments(threads: seq<Thread>, cur: int, curInstr: int, totalNails: int)
    requires RenderableThreads(threads, cur, curInstr)
    requires 0 <= cur && curInstr > 0
    ensures var segments := SegmentsBefore(threads, cur, curInstr, totalNails, cur + 1);
            var before := SegmentsBefore(threads, cur, curInstr, totalNails, cur);
            |segments| == |before| + curInstr &&
            segments[..|before|] == before &&
            segments[|segments| - 1] ==
              Segment(threads[cur].color, Position(threads[cur].instructions[curInstr - 1].nailNumber, totalNails),
                      Position(threads[cur].instructions[curInstr].nailNumber, totalNails))
  {
    ThreadSegmentsAt(threads[cur], curInstr, totalNails);
  }
}
