/**
 * The project data model of lib/types.ts: a project is an ordered list of
 * coloured threads, each an ordered list of nail instructions.
 */
module Types {

  /** One step of a thread: "connect to this nail next". */
  datatype Instruction = Instruction(nailNumber: int)

  /** A thread: its colour (the RGB integers, not range-checked) and its steps in order. */
  datatype Thread = Thread(color: seq<int>, instructions: seq<Instruction>)

  /** A parsed instruction file. */
  datatype Project = Project(threads: seq<Thread>, totalInstructions: int)

  /** The number of instructions over all the given threads. */
  function InstructionCount(threads: seq<Thread>): nat
  {
    if threads == [] then 0
    else InstructionCount(threads[..|threads| - 1]) + |threads[|threads| - 1].instructions|
  }

  /** Counting distributes over concatenation of thread lists. */
  lemma {:induction false} InstructionCountAppend(a: seq<Thread>, b: seq<Thread>)
    ensures InstructionCount(a + b) == InstructionCount(a) + InstructionCount(b)
    decreases |b|
  {
    if b != [] {
      var b' := b[..|b| - 1];
      assert (a + b)[..|a + b| - 1] == a + b';
      InstructionCountAppend(a, b');
    } else {
      assert a + b == a;
    }
  }

  /** A thread counts at least its own instructions, so every prefix counts at most the whole. */
  lemma {:induction false} InstructionCountPrefix(threads: seq<Thread>, t: nat)
    requires t <= |threads|
    ensures InstructionCount(threads[..t]) + InstructionCount(threads[t..]) == InstructionCount(threads)
  {
    assert threads[..t] + threads[t..] == threads;
    InstructionCountAppend(threads[..t], threads[t..]);
  }
}
