/**
 * The "Required Thread Colors" summary of app/page.tsx: the threads grouped
 * by colour in a Map keyed by the colour, in the order colours are first
 * seen, each group with the number of connections (instructions) of its
 * threads and the 1-based numbers of those threads.
 *
 * The Map's key is `color.join(",")`, which tells two integer colours apart
 * exactly when they differ, so the model keys the groups by the colour
 * itself. The Map is modelled as its entries in insertion order, which is
 * the order `Array.from(colorMap.values())` yields.
 */
module ColorSummary {
  import opened Wrappers
  import opened Types

  /** One entry of the colour map. */
  datatype ColorGroup = ColorGroup(color: seq<int>, connectionCount: int, threadIndices: seq<int>)

  /** `colorMap.has` / `colorMap.get`: the position of the entry for `color`, if there is one. */
  function Find(groups: seq<ColorGroup>, color: seq<int>): (r: Option<nat>)
    ensures r.Some? ==> r.value < |groups| && groups[r.value].color == color
    ensures r.None? ==> forall j :: 0 <= j < |groups| ==> groups[j].color != color
  {
    FindFrom(groups, color, 0)
  }

  /** The first entry at or after `from` with the given colour. */
  function FindFrom(groups: seq<ColorGroup>, color: seq<int>, from: nat): (r: Option<nat>)
    requires from <= |groups|
    ensures r.Some? ==> from <= r.value < |groups| && groups[r.value].color == color
    ensures r.None? ==> forall j :: from <= j < |groups| ==> groups[j].color != color
    decreases |groups| - from
  {
    if from == |groups| then None
    else if groups[from].color == color then Some(from)
    else FindFrom(groups, color, from + 1)
  }

  /** The entry after thread number `number` is added to it. */
  function Count(g: ColorGroup, thread: Thread, number: int): ColorGroup
  {
    ColorGroup(g.color, g.connectionCount + |thread.instructions|, g.threadIndices + [number])
  }

  /** One turn of the forEach: create the entry if the colour is new, then count the thread in it. */
  function AddThread(groups: seq<ColorGroup>, thread: Thread, number: int): seq<ColorGroup>
  {
    match Find(groups, thread.color)
    case None => groups + [Count(ColorGroup(thread.color, 0, []), thread, number)]
    case Some(j) => groups[j := Count(groups[j], thread, number)]
  }

  /** The summary of a list of threads: each thread added in turn, numbered from 1. */
  function Summary(threads: seq<Thread>): seq<ColorGroup>
  {
    if threads == [] then []
    else AddThread(Summary(threads[..|threads| - 1]), threads[|threads| - 1], |threads|)
  }

  /** The grouping loop over the threads, updating the map entry by entry. */
  method SummarizeColors(threads: seq<Thread>) returns (groups: seq<ColorGroup>)
    ensures groups == Summary(threads)
  {
    groups := [];
    for index := 0 to |threads|
      invariant groups == Summary(threads[..index])
    {
      var thread := threads[index];
      var key := Find(groups, thread.color);
      ghost var before := groups;
      if key.None? {
        groups := groups + [ColorGroup(thread.color, 0, [])];
        key := Some(|groups| - 1);
      }
      var entry := groups[key.value];
      groups := groups[key.value := ColorGroup(entry.color, entry.connectionCount + |thread.instructions|,
                                               entry.threadIndices + [index + 1])];
      assert threads[..index + 1][..index] == threads[..index];
      assert groups == AddThread(before, thread, index + 1);
    }
    assert threads[..|threads|] == threads;
  }

  // ---------------------------------------------------------------------------
  // What the summary satisfies

  /** The instructions of the threads of one colour. */
  function ColorCount(threads: seq<Thread>, color: seq<int>): nat
  {
    if threads == [] then 0
    else ColorCount(threads[..|threads| - 1], color) +
         (if threads[|threads| - 1].color == color then |threads[|threads| - 1].instructions| else 0)
  }

  /** The sum of the connection counts of the groups. */
  function Connections(groups: seq<ColorGroup>): int
  {
    if groups == [] then 0 else Connections(groups[..|groups| - 1]) + groups[|groups| - 1].connectionCount
  }

  /** No two groups share a colour. */
  predicate Distinct(groups: seq<ColorGroup>)
  {
    forall j, j' :: 0 <= j < j' < |groups| ==> groups[j].color != groups[j'].color
  }

  /** The thread numbers of `g` are in 1..n, strictly increasing, and name threads of g's colour. */
  predicate Listed(threads: seq<Thread>, g: ColorGroup)
  {
    (forall q :: 0 <= q < |g.threadIndices| ==>
       1 <= g.threadIndices[q] <= |threads| && threads[g.threadIndices[q] - 1].color == g.color) &&
    (forall q, q' :: 0 <= q < q' < |g.threadIndices| ==> g.threadIndices[q] < g.threadIndices[q'])
  }

  /** `g` lists at least one thread, and its first is the first thread of its colour. */
  predicate FirstOfColor(threads: seq<Thread>, g: ColorGroup)
  {
    g.threadIndices != [] &&
    forall i :: 0 <= i < |threads| && i + 1 < g.threadIndices[0] ==> threads[i].color != g.color
  }

  /** Thread number `k` is listed in a group of its colour. */
  predicate Placed(groups: seq<ColorGroup>, color: seq<int>, k: int)
  {
    exists j :: 0 <= j < |groups| && groups[j].color == color && k in groups[j].threadIndices
  }

  predicate AllListed(threads: seq<Thread>, groups: seq<ColorGroup>)
  {
    forall j :: 0 <= j < |groups| ==> Listed(threads, groups[j])
  }

  predicate AllFirst(threads: seq<Thread>, groups: seq<ColorGroup>)
  {
    forall j :: 0 <= j < |groups| ==> FirstOfColor(threads, groups[j])
  }

  /** Earlier groups start at earlier threads. */
  predicate Ordered(groups: seq<ColorGroup>)
  {
    forall j, j' :: 0 <= j < j' < |groups| && groups[j].threadIndices != [] && groups[j'].threadIndices != [] ==>
      groups[j].threadIndices[0] < groups[j'].threadIndices[0]
  }

  predicate AllPlaced(threads: seq<Thread>, groups: seq<ColorGroup>)
  {
    forall i :: 0 <= i < |threads| ==> Placed(groups, threads[i].color, i + 1)
  }

  predicate AllCounted(threads: seq<Thread>, groups: seq<ColorGroup>)
  {
    forall j :: 0 <= j < |groups| ==> groups[j].connectionCount == ColorCount(threads, groups[j].color)
  }

  /** Everything the summary of `threads` satisfies. */
  predicate Summarizes(threads: seq<Thread>, groups: seq<ColorGroup>)
  {
    Distinct(groups) && AllListed(threads, groups) && AllFirst(threads, groups) && Ordered(groups) &&
    AllPlaced(threads, groups) && AllCounted(threads, groups) &&
    Connections(groups) == InstructionCount(threads)
  }

  /** The summary satisfies all of the above. */
  lemma {:induction false} SummaryInvariant(threads: seq<Thread>)
    ensures Summarizes(threads, Summary(threads))
    decreases |threads|
  {
    if threads != [] {
      var n := |threads|;
      var front := threads[..n - 1];
      var t := threads[n - 1];
      assert threads == front + [t];
      SummaryInvariant(front);
      var groups := Summary(front);
      assert Summary(threads) == AddThread(groups, t, n);
      StepDistinct(groups, t, n);
      StepListed(front, groups, t);
      StepFirst(front, groups, t);
      StepOrdered(front, groups, t);
      StepPlaced(front, groups, t);
      StepCounted(front, groups, t);
      StepConnections(front, groups, t);
    }
  }

  // ---------------------------------------------------------------------------
  // One thread more

  lemma StepDistinct(groups: seq<ColorGroup>, t: Thread, n: int)
    requires Distinct(groups)
    ensures Distinct(AddThread(groups, t, n))
  {
  }

  lemma ListedGrow(front: seq<Thread>, t: Thread, g: ColorGroup)
    requires Listed(front, g)
    ensures Listed(front + [t], g)
  {
    forall q | 0 <= q < |g.threadIndices|
      ensures (front + [t])[g.threadIndices[q] - 1] == front[g.threadIndices[q] - 1]
    {
    }
  }

  lemma ListedCount(front: seq<Thread>, t: Thread, g: ColorGroup)
    requires Listed(front, g) && g.color == t.color
    ensures Listed(front + [t], Count(g, t, |front| + 1))
  {
    ListedGrow(front, t, g);
  }

  lemma StepListed(front: seq<Thread>, groups: seq<ColorGroup>, t: Thread)
    requires AllListed(front, groups)
    ensures AllListed(front + [t], AddThread(groups, t, |front| + 1))
  {
    var n := |front| + 1;
    var result := AddThread(groups, t, n);
    forall j | 0 <= j < |groups| ensures Listed(front + [t], groups[j]) {
      ListedGrow(front, t, groups[j]);
    }
    match Find(groups, t.color)
    case None =>
      ListedCount(front, t, ColorGroup(t.color, 0, []));
    case Some(j) =>
      ListedCount(front, t, groups[j]);
  }

  lemma FirstGrow(front: seq<Thread>, t: Thread, g: ColorGroup)
    requires FirstOfColor(front, g) && Listed(front, g)
    ensures FirstOfColor(front + [t], g)
  {
    forall i | 0 <= i < |front| + 1 && i + 1 < g.threadIndices[0]
      ensures (front + [t])[i] == front[i]
    {
    }
  }

  lemma StepFirst(front: seq<Thread>, groups: seq<ColorGroup>, t: Thread)
    requires AllFirst(front, groups) && AllListed(front, groups) && AllPlaced(front, groups)
    ensures AllFirst(front + [t], AddThread(groups, t, |front| + 1))
  {
    var n := |front| + 1;
    forall j | 0 <= j < |groups| ensures FirstOfColor(front + [t], groups[j]) {
      FirstGrow(front, t, groups[j]);
    }
    match Find(groups, t.color)
    case None =>
      forall i | 0 <= i < n - 1 ensures (front + [t])[i].color != t.color {
        assert (front + [t])[i] == front[i];
        assert Placed(groups, front[i].color, i + 1);
      }
    case Some(j) =>
      assert Count(groups[j], t, n).threadIndices[0] == groups[j].threadIndices[0];
  }

  lemma StepOrdered(front: seq<Thread>, groups: seq<ColorGroup>, t: Thread)
    requires Ordered(groups) && AllListed(front, groups) && AllFirst(front, groups)
    ensures Ordered(AddThread(groups, t, |front| + 1))
  {
    var n := |front| + 1;
    match Find(groups, t.color)
    case None =>
      forall j | 0 <= j < |groups| ensures groups[j].threadIndices[0] < n {
        assert Listed(front, groups[j]);
      }
    case Some(j) =>
      assert Count(groups[j], t, n).threadIndices[0] == groups[j].threadIndices[0];
  }

  lemma StepPlaced(front: seq<Thread>, groups: seq<ColorGroup>, t: Thread)
    requires AllPlaced(front, groups)
    ensures AllPlaced(front + [t], AddThread(groups, t, |front| + 1))
  {
    var n := |front| + 1;
    var result := AddThread(groups, t, n);
    forall i | 0 <= i < n ensures Placed(result, (front + [t])[i].color, i + 1) {
      var k := i + 1;
      if k < n {
        assert (front + [t])[i] == front[i];
        assert Placed(groups, front[i].color, k);
        var j :| 0 <= j < |groups| && groups[j].color == front[i].color && k in groups[j].threadIndices;
        assert result[j].color == groups[j].color && k in result[j].threadIndices;
      } else {
        var j := if Find(groups, t.color).Some? then Find(groups, t.color).value else |groups|;
        assert result[j].color == t.color && n in result[j].threadIndices;
      }
    }
  }

  lemma CountSnoc(front: seq<Thread>, t: Thread, color: seq<int>)
    ensures ColorCount(front + [t], color) == ColorCount(front, color) + (if t.color == color then |t.instructions| else 0)
  {
    assert (front + [t])[..|front|] == front;
  }

  lemma StepCounted(front: seq<Thread>, groups: seq<ColorGroup>, t: Thread)
    requires AllCounted(front, groups) && AllPlaced(front, groups) && Distinct(groups)
    ensures AllCounted(front + [t], AddThread(groups, t, |front| + 1))
  {
    var n := |front| + 1;
    var result := AddThread(groups, t, n);
    forall j | 0 <= j < |result| ensures result[j].connectionCount == ColorCount(front + [t], result[j].color) {
      CountSnoc(front, t, result[j].color);
      if j == |groups| {
        assert Find(groups, t.color).None?;
        forall k | 0 <= k < |front| ensures front[k].color != t.color {
          var m := k + 1;
          assert front[m - 1] == front[k];
          assert Placed(groups, front[m - 1].color, m);
        }
        ColorCountAbsent(front, t.color);
      }
    }
  }

  lemma {:induction false} ColorCountAbsent(threads: seq<Thread>, color: seq<int>)
    requires forall k :: 0 <= k < |threads| ==> threads[k].color != color
    ensures ColorCount(threads, color) == 0
    decreases |threads|
  {
    if threads != [] {
      ColorCountAbsent(threads[..|threads| - 1], color);
    }
  }

  lemma {:induction false} ConnectionsUpdate(groups: seq<ColorGroup>, j: nat, g: ColorGroup)
    requires j < |groups|
    ensures Connections(groups[j := g]) == Connections(groups) - groups[j].connectionCount + g.connectionCount
    decreases |groups|
  {
    var n := |groups|;
    if j < n - 1 {
      assert groups[j := g][..n - 1] == groups[..n - 1][j := g];
      ConnectionsUpdate(groups[..n - 1], j, g);
    } else {
      assert groups[j := g][..n - 1] == groups[..n - 1];
    }
  }

  lemma StepConnections(front: seq<Thread>, groups: seq<ColorGroup>, t: Thread)
    requires Connections(groups) == InstructionCount(front)
    ensures Connections(AddThread(groups, t, |front| + 1)) == InstructionCount(front + [t])
  {
    var n := |front| + 1;
    assert (front + [t])[..|front|] == front;
    match Find(groups, t.color)
    case None =>
      var g := Count(ColorGroup(t.color, 0, []), t, n);
      assert (groups + [g])[..|groups|] == groups;
    case Some(j) =>
      ConnectionsUpdate(groups, j, Count(groups[j], t, n));
  }

  // ---------------------------------------------------------------------------
  // The summary's properties, one by one

  /** With distinct colours, the entry found for a colour is the one that has it. */
  lemma FindUnique(groups: seq<ColorGroup>, j: nat)
    requires Distinct(groups) && j < |groups|
    ensures Find(groups, groups[j].color) == Some(j)
  {
  }

  /**
   * The groups partition the thread numbers 1..n: each number is in the
   * group of its thread's colour, in no other, and only once there.
   */
  lemma ThreadInExactlyOneGroup(threads: seq<Thread>, k: int)
    requires 1 <= k <= |threads|
    ensures var groups := Summary(threads);
            Find(groups, threads[k - 1].color).Some? &&
            (forall j :: 0 <= j < |groups| ==>
               (k in groups[j].threadIndices <==> j == Find(groups, threads[k - 1].color).value)) &&
            multiset(groups[Find(groups, threads[k - 1].color).value].threadIndices)[k] == 1
  {
    SummaryInvariant(threads);
    var groups := Summary(threads);
    assert Distinct(groups) && AllListed(threads, groups) && AllPlaced(threads, groups);
    PartitionOf(threads, groups, k);
  }

  lemma PartitionOf(threads: seq<Thread>, groups: seq<ColorGroup>, k: int)
    requires Distinct(groups) && AllListed(threads, groups) && AllPlaced(threads, groups)
    requires 1 <= k <= |threads|
    ensures Find(groups, threads[k - 1].color).Some?
    ensures forall j :: 0 <= j < |groups| ==>
              (k in groups[j].threadIndices <==> j == Find(groups, threads[k - 1].color).value)
    ensures multiset(groups[Find(groups, threads[k - 1].color).value].threadIndices)[k] == 1
  {
    assert Placed(groups, threads[k - 1].color, k);
    var jk :| 0 <= jk < |groups| && groups[jk].color == threads[k - 1].color && k in groups[jk].threadIndices;
    FindUnique(groups, jk);
    forall j | 0 <= j < |groups| && k in groups[j].threadIndices
      ensures j == jk
    {
      assert Listed(threads, groups[j]);
      OnlyGroupOf(threads, groups, j, k);
    }
    assert Listed(threads, groups[jk]);
    OnceInIncreasing(groups[jk].threadIndices, k);
  }

  /** A group that lists thread `k` is the group of that thread's colour. */
  lemma OnlyGroupOf(threads: seq<Thread>, groups: seq<ColorGroup>, j: int, k: int)
    requires Distinct(groups) && 0 <= j < |groups| && Listed(threads, groups[j])
    requires k in groups[j].threadIndices
    ensures 1 <= k <= |threads| && Find(groups, threads[k - 1].color) == Some(j)
  {
    var q :| 0 <= q < |groups[j].threadIndices| && groups[j].threadIndices[q] == k;
    ListedMember(threads, groups[j], q);
    assert threads[k - 1].color == groups[j].color;
    FindUnique(groups, j);
  }

  /** A value occurs at most once in a strictly increasing list. */
  lemma OnceInIncreasing(s: seq<int>, x: int)
    requires forall q, q' :: 0 <= q < q' < |s| ==> s[q] < s[q']
    requires x in s
    ensures multiset(s)[x] == 1
  {
    var i :| 0 <= i < |s| && s[i] == x;
    assert s == s[..i] + [x] + s[i + 1..];
    assert x !in s[..i];
    assert x !in s[i + 1..];
  }

  /** Every group lists only thread numbers in 1..n whose thread has the group's colour, and no colour twice. */
  lemma SummaryGroupsListTheirThreads(threads: seq<Thread>)
    ensures var groups := Summary(threads);
            Distinct(groups) &&
            forall j, q :: 0 <= j < |groups| && 0 <= q < |groups[j].threadIndices| ==>
              1 <= groups[j].threadIndices[q] <= |threads| &&
              threads[groups[j].threadIndices[q] - 1].color == groups[j].color
  {
    SummaryInvariant(threads);
    ListedAll(threads, Summary(threads));
  }

  lemma ListedAll(threads: seq<Thread>, groups: seq<ColorGroup>)
    requires AllListed(threads, groups)
    ensures forall j, q :: 0 <= j < |groups| && 0 <= q < |groups[j].threadIndices| ==>
              1 <= groups[j].threadIndices[q] <= |threads| &&
              threads[groups[j].threadIndices[q] - 1].color == groups[j].color
  {
    forall j, q | 0 <= j < |groups| && 0 <= q < |groups[j].threadIndices|
      ensures 1 <= groups[j].threadIndices[q] <= |threads| &&
              threads[groups[j].threadIndices[q] - 1].color == groups[j].color
    {
      ListedMember(threads, groups[j], q);
    }
  }

  lemma ListedMember(threads: seq<Thread>, g: ColorGroup, q: int)
    requires Listed(threads, g) && 0 <= q < |g.threadIndices|
    ensures 1 <= g.threadIndices[q] <= |threads| && threads[g.threadIndices[q] - 1].color == g.color
  {
  }

  /**
   * Groups come in the order their colours are first seen: a group's first
   * thread is the first thread of that colour, and earlier groups start earlier.
   */
  lemma SummaryFirstSeenOrder(threads: seq<Thread>)
    ensures var groups := Summary(threads);
            (forall j :: 0 <= j < |groups| ==>
               (groups[j].threadIndices != [] &&
                forall i :: 0 <= i < |threads| && i + 1 < groups[j].threadIndices[0] ==>
                  threads[i].color != groups[j].color)) &&
            (forall j, j' :: 0 <= j < j' < |groups| ==>
               groups[j].threadIndices != [] && groups[j'].threadIndices != [] &&
               groups[j].threadIndices[0] < groups[j'].threadIndices[0])
  {
    var groups := Summary(threads);
    SummaryInvariant(threads);
    forall j | 0 <= j < |groups| ensures FirstOfColor(threads, groups[j]) {
    }
  }

  /** Each group counts exactly the instructions of the threads of its colour. */
  lemma SummaryCounts(threads: seq<Thread>)
    ensures var groups := Summary(threads);
            forall j :: 0 <= j < |groups| ==> groups[j].connectionCount == ColorCount(threads, groups[j].color)
  {
    SummaryInvariant(threads);
  }

  /** The connection counts of all groups add up to the instructions of all threads. */
  lemma SummaryConnectionsTotal(threads: seq<Thread>)
    ensures Connections(Summary(threads)) == InstructionCount(threads)
  {
    SummaryInvariant(threads);
  }
}
