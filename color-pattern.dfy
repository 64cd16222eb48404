/**
 * The colour pattern of lib/file-parser.ts, /\[(\d+),\s*(\d+),\s*(\d+)\]/,
 * and `line.match` with it.
 *
 * The pattern is written as a list of tokens and matched by a recursive
 * matcher. Each digit run and each whitespace run is read to its end: in
 * this pattern a digit run is always followed by ',' or ']' and a whitespace
 * run by a digit, so a shorter run could never be followed by the rest of
 * the pattern, and the longest run is the only way to match.
 */
module ColorPattern {
  import opened Wrappers
  import opened Text

  /** One element of the pattern. */
  datatype Token =
    | Literal(c: char)   // exactly this character
    | Number             // (\d+), captured and read in base 10
    | Blank              // \s*

  /** /\[(\d+),\s*(\d+),\s*(\d+)\]/ */
  const Pattern: seq<Token> :=
    [Literal('['), Number, Literal(','), Blank, Number, Literal(','), Blank, Number, Literal(']')]

  /** The index just past the run of digits that starts at `from`. */
  function DigitsEnd(s: string, from: nat): (e: nat)
    requires from <= |s|
    ensures from <= e <= |s| && AllDigits(s[from..e])
    decreases |s| - from
  {
    if from < |s| && IsDigit(s[from]) then DigitsEnd(s, from + 1) else from
  }

  /** `DigitsEnd` stops at the end of the run: no digit at the index it returns. */
  lemma {:induction false} DigitsEndIsRunEnd(s: string, from: nat)
    requires from <= |s|
    ensures DigitsEnd(s, from) == |s| || !IsDigit(s[DigitsEnd(s, from)])
    decreases |s| - from
  {
    if from < |s| && IsDigit(s[from]) {
      DigitsEndIsRunEnd(s, from + 1);
    }
  }

  /** The index just past the run of whitespace that starts at `from`. */
  function SpacesEnd(s: string, from: nat): (e: nat)
    requires from <= |s|
    ensures from <= e <= |s|
    decreases |s| - from
  {
    if from < |s| && IsSpace(s[from]) then SpacesEnd(s, from + 1) else from
  }

  /** `SpacesEnd` stops at the end of the run: all whitespace before it, none at it. */
  lemma {:induction false} SpacesEndIsRunEnd(s: string, from: nat)
    requires from <= |s|
    ensures AllSpace(s[from..SpacesEnd(s, from)])
    ensures SpacesEnd(s, from) == |s| || !IsSpace(s[SpacesEnd(s, from)])
    decreases |s| - from
  {
    if from < |s| && IsSpace(s[from]) {
      SpacesEndIsRunEnd(s, from + 1);
    }
  }

  /**
   * The captures of `pattern` when it matches `s` starting at index `p`,
   * reading every digit and whitespace run to its end without backtracking.
   * That is the regular expression's own answer for patterns like the colour
   * pattern, where a digit run is followed by a literal that is not a digit
   * and a whitespace run by a digit run, but not for patterns in general.
   */
  function MatchAt(s: string, p: nat, pattern: seq<Token>): Option<seq<int>>
    requires p <= |s|
    decreases pattern
  {
    if pattern == [] then Some([])
    else match pattern[0]
      case Literal(c) =>
        if p < |s| && s[p] == c then MatchAt(s, p + 1, pattern[1..]) else None
      case Blank => MatchAt(s, SpacesEnd(s, p), pattern[1..])
      case Number =>
        var e := DigitsEnd(s, p);
        if e == p then None
        else match MatchAt(s, e, pattern[1..])
          case None => None
          case Some(rest) => Some([DigitsValue(s[p..e]) as int] + rest)
  }

  /** The number of capturing groups of a pattern. */
  function Groups(pattern: seq<Token>): nat
  {
    if pattern == [] then 0 else (if pattern[0] == Number then 1 else 0) + Groups(pattern[1..])
  }

  /** A match yields one non-negative integer per capturing group. */
  lemma {:induction false} MatchAtCaptures(s: string, p: nat, pattern: seq<Token>)
    requires p <= |s| && MatchAt(s, p, pattern).Some?
    ensures |MatchAt(s, p, pattern).value| == Groups(pattern)
    ensures forall k :: 0 <= k < |MatchAt(s, p, pattern).value| ==> MatchAt(s, p, pattern).value[k] >= 0
    decreases pattern
  {
    if pattern != [] {
      match pattern[0]
      case Literal(c) =>
        MatchAtCaptures(s, p + 1, pattern[1..]);
      case Blank =>
        MatchAtCaptures(s, SpacesEnd(s, p), pattern[1..]);
      case Number =>
        MatchAtCaptures(s, DigitsEnd(s, p), pattern[1..]);
    }
  }

  /** The leftmost position at or after `p` where `pattern` matches. */
  function MatchFrom(s: string, p: nat, pattern: seq<Token>): (r: Option<nat>)
    requires p <= |s|
    ensures r.Some? ==> p <= r.value < |s|
    decreases |s| - p
  {
    if p == |s| then None
    else if MatchAt(s, p, pattern).Some? then Some(p)
    else MatchFrom(s, p + 1, pattern)
  }

  /** `MatchFrom` finds a match, and no earlier one. */
  lemma {:induction false} MatchFromIsLeftmost(s: string, p: nat, pattern: seq<Token>)
    requires p <= |s|
    ensures MatchFrom(s, p, pattern).Some? ==> MatchAt(s, MatchFrom(s, p, pattern).value, pattern).Some?
    ensures forall q :: p <= q < (if MatchFrom(s, p, pattern).Some? then MatchFrom(s, p, pattern).value else |s|) ==>
              MatchAt(s, q, pattern).None?
    decreases |s| - p
  {
    if p < |s| && MatchAt(s, p, pattern).None? {
      MatchFromIsLeftmost(s, p + 1, pattern);
    }
  }

  /** `line.match(pattern)` reduced to its captures: those of the leftmost match, if any. */
  function Match(line: string, pattern: seq<Token>): Option<seq<int>>
  {
    match MatchFrom(line, 0, pattern)
    case None => None
    case Some(p) => MatchAt(line, p, pattern)
  }

  /** A match exists exactly when the pattern matches somewhere, and it is the leftmost one. */
  lemma MatchIsLeftmost(line: string, pattern: seq<Token>)
    ensures Match(line, pattern).Some? <==> exists p :: 0 <= p < |line| && MatchAt(line, p, pattern).Some?
    ensures Match(line, pattern).Some? ==>
              exists p :: 0 <= p < |line| && MatchAt(line, p, pattern) == Match(line, pattern) &&
                forall q :: 0 <= q < p ==> MatchAt(line, q, pattern).None?
  {
    MatchFromIsLeftmost(line, 0, pattern);
  }

  /** A match has one non-negative integer per capturing group. */
  lemma MatchCaptures(line: string, pattern: seq<Token>)
    requires Match(line, pattern).Some?
    ensures |Match(line, pattern).value| == Groups(pattern)
    ensures forall k :: 0 <= k < |Match(line, pattern).value| ==> Match(line, pattern).value[k] >= 0
  {
    MatchAtCaptures(line, MatchFrom(line, 0, pattern).value, pattern);
  }

  /** The colour of a header line: the captures of the colour pattern. */
  function FindColor(line: string): Option<seq<int>>
  {
    Match(line, Pattern)
  }

  /** A colour is three non-negative integers. */
  lemma FindColorShape(line: string)
    requires FindColor(line).Some?
    ensures |FindColor(line).value| == 3
    ensures forall k :: 0 <= k < 3 ==> FindColor(line).value[k] >= 0
  {
    MatchCaptures(line, Pattern);
    PatternGroups();
  }

  lemma PatternGroups()
    ensures Groups(Pattern) == 3
  {
  }
}
