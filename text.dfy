/**
 * The JavaScript string built-ins that the core relies on:
 * String.prototype.trim, split with a one-character separator,
 * Number.parseInt(s, 10), Number.prototype.toString for non-negative
 * integers, padStart, toLowerCase and replace(/\s+/g, ...).
 */
module Text {
  import opened Wrappers

  /**
   * What `trim` removes and what the class `\s` matches: the ECMAScript
   * WhiteSpace and LineTerminator characters (tab, line feed, vertical tab,
   * form feed, carriage return, space, no-break space, the byte order mark,
   * the Unicode space separators, line and paragraph separator).
   */
  predicate IsSpace(c: char)
  {
    c == '\t' || c == '\n' || c == '\U{0B}' || c == '\U{0C}' || c == '\r' || c == ' ' ||
    c == '\U{A0}' || c == '\U{1680}' || '\U{2000}' <= c <= '\U{200A}' ||
    c == '\U{2028}' || c == '\U{2029}' || c == '\U{202F}' || c == '\U{205F}' ||
    c == '\U{3000}' || c == '\U{FEFF}'
  }

  /** The class `\d`: ASCII decimal digits. */
  predicate IsDigit(c: char)
  {
    '0' <= c <= '9'
  }

  predicate AllSpace(s: string)
  {
    forall k :: 0 <= k < |s| ==> IsSpace(s[k])
  }

  predicate AllDigits(s: string)
  {
    forall k :: 0 <= k < |s| ==> IsDigit(s[k])
  }

  /** String.prototype.startsWith. */
  predicate StartsWith(s: string, prefix: string)
  {
    |prefix| <= |s| && s[..|prefix|] == prefix
  }

  // ---------------------------------------------------------------------------
  // trim

  /** `s` without its leading whitespace: the suffix after the longest all-space prefix. */
  function TrimStart(s: string): (r: string)
    ensures |r| <= |s|
    ensures AllSpace(s[..|s| - |r|])
    ensures r == [] || !IsSpace(r[0])
  {
    if s != [] && IsSpace(s[0]) then TrimStart(s[1..]) else s
  }

  /** What `TrimStart` keeps is a suffix of its input. */
  lemma {:induction false} TrimStartIsSuffix(s: string)
    ensures TrimStart(s) == s[|s| - |TrimStart(s)|..]
  {
    if s != [] && IsSpace(s[0]) {
      TrimStartIsSuffix(s[1..]);
      assert s[1..][|s| - 1 - |TrimStart(s)|..] == s[|s| - |TrimStart(s)|..];
    }
  }

  /** `s` without its trailing whitespace: the prefix before the longest all-space suffix. */
  function TrimEnd(s: string): (r: string)
    ensures |r| <= |s| && r == s[..|r|]
    ensures AllSpace(s[|r|..])
    ensures r == [] || !IsSpace(r[|r| - 1])
  {
    if s != [] && IsSpace(s[|s| - 1]) then TrimEnd(s[..|s| - 1]) else s
  }

  /** String.prototype.trim. */
  function Trim(s: string): (r: string)
    ensures |r| <= |s|
    ensures r == [] || (!IsSpace(r[0]) && !IsSpace(r[|r| - 1]))
  {
    TrimEnd(TrimStart(s))
  }

  /** A string trims to nothing exactly when it is all whitespace. */
  lemma TrimEmptyIffBlank(s: string)
    ensures Trim(s) == [] <==> AllSpace(s)
  {
    var t := TrimStart(s);
    if Trim(s) == [] {
      assert t[|TrimEnd(t)|..] == t;
      assert s == s[..|s| - |t|] + t;
    }
    if AllSpace(s) {
      TrimStartOfBlank(s);
    }
  }

  lemma {:induction false} TrimStartOfBlank(s: string)
    requires AllSpace(s)
    ensures TrimStart(s) == []
  {
    if s != [] {
      TrimStartOfBlank(s[1..]);
    }
  }

  /** Trimming a string that neither starts nor ends with whitespace changes nothing. */
  lemma TrimOfTrimmed(s: string)
    requires s == [] || (!IsSpace(s[0]) && !IsSpace(s[|s| - 1]))
    ensures Trim(s) == s
  {
  }

  /** Trimming twice is trimming once. */
  lemma TrimIdempotent(s: string)
    ensures Trim(Trim(s)) == Trim(s)
  {
    TrimOfTrimmed(Trim(s));
  }

  // ---------------------------------------------------------------------------
  // split and its inverse

  /** String.prototype.split(sep) for a one-character separator: never empty, pieces free of `sep`. */
  function Split(s: string, sep: char): (r: seq<string>)
    ensures |r| >= 1
  {
    if s == [] then [[]]
    else
      var rest := Split(s[1..], sep);
      if s[0] == sep then [[]] + rest else [[s[0]] + rest[0]] + rest[1..]
  }

  /** No piece of a split contains the separator. */
  lemma {:induction false} SplitPiecesFree(s: string, sep: char)
    ensures forall k :: 0 <= k < |Split(s, sep)| ==> sep !in Split(s, sep)[k]
  {
    if s != [] {
      SplitPiecesFree(s[1..], sep);
      var rest := Split(s[1..], sep);
      if s[0] != sep {
        assert sep !in [s[0]] + rest[0];
      }
    }
  }

  /** Array.prototype.join(sep). */
  function Join(parts: seq<string>, sep: char): string
    requires |parts| >= 1
  {
    if |parts| == 1 then parts[0] else parts[0] + [sep] + Join(parts[1..], sep)
  }

  /** Joining the pieces of a split gives back the original string. */
  lemma {:induction false} JoinSplit(s: string, sep: char)
    ensures Join(Split(s, sep), sep) == s
  {
    if s != [] {
      var rest := Split(s[1..], sep);
      JoinSplit(s[1..], sep);
      if s[0] != sep && |rest| > 1 {
        assert Split(s, sep)[1..] == rest[1..];
        assert Join(rest, sep) == rest[0] + [sep] + Join(rest[1..], sep);
      }
    }
  }

  /** A string without the separator splits into itself alone. */
  lemma {:induction false} SplitWithoutSeparator(s: string, sep: char)
    requires sep !in s
    ensures Split(s, sep) == [s]
  {
    if s != [] {
      assert sep !in s[1..];
      SplitWithoutSeparator(s[1..], sep);
      assert [s[0]] + s[1..] == s;
    }
  }

  /** Splitting at a separator splits the two sides independently. */
  lemma {:induction false} SplitAround(a: string, b: string, sep: char)
    ensures Split(a + [sep] + b, sep) == Split(a, sep) + Split(b, sep)
  {
    if a == [] {
      assert (a + [sep] + b)[1..] == b;
    } else {
      assert (a + [sep] + b)[1..] == a[1..] + [sep] + b;
      SplitAround(a[1..], b, sep);
    }
  }

  /** Splitting the join of separator-free pieces gives back the pieces. */
  lemma {:induction false} SplitJoin(parts: seq<string>, sep: char)
    requires |parts| >= 1
    requires forall k :: 0 <= k < |parts| ==> sep !in parts[k]
    ensures Split(Join(parts, sep), sep) == parts
  {
    if |parts| == 1 {
      SplitWithoutSeparator(parts[0], sep);
    } else {
      SplitJoin(parts[1..], sep);
      SplitAround(parts[0], Join(parts[1..], sep), sep);
      SplitWithoutSeparator(parts[0], sep);
    }
  }

  // ---------------------------------------------------------------------------
  // decimal numbers

  function DigitValue(c: char): nat
    requires IsDigit(c)
  {
    (c as int) - ('0' as int)
  }

  function DigitChar(d: nat): (c: char)
    requires d < 10
    ensures IsDigit(c) && DigitValue(c) == d
  {
    (('0' as int) + d) as char
  }

  /** The value of a run of decimal digits, most significant first. */
  function DigitsValue(ds: string): nat
    requires AllDigits(ds)
  {
    if ds == [] then 0 else DigitsValue(ds[..|ds| - 1]) * 10 + DigitValue(ds[|ds| - 1])
  }

  /** Leading zeros do not change a digit run's value. */
  lemma {:induction false} DigitsValueLeadingZero(ds: string)
    requires AllDigits(ds)
    ensures AllDigits("0" + ds) && DigitsValue("0" + ds) == DigitsValue(ds)
  {
    if ds != [] {
      assert ("0" + ds)[..|"0" + ds| - 1] == "0" + ds[..|ds| - 1];
      DigitsValueLeadingZero(ds[..|ds| - 1]);
    }
  }

  /** The longest prefix of `s` made of digits. */
  function LeadingDigits(s: string): (r: string)
    ensures |r| <= |s| && r == s[..|r|] && AllDigits(r)
    ensures |r| == |s| || !IsDigit(s[|r|])
  {
    if s != [] && IsDigit(s[0]) then [s[0]] + LeadingDigits(s[1..]) else []
  }

  /** `s` after an optional leading sign character. */
  function Unsigned(s: string): string
  {
    if s != [] && (s[0] == '-' || s[0] == '+') then s[1..] else s
  }

  /**
   * Number.parseInt(s, 10): skip leading whitespace, read an optional sign
   * and then the longest run of digits, ignoring whatever follows. `None`
   * stands for NaN, which is returned exactly when no digit follows the sign.
   */
  function ParseInt(s: string): Option<int>
  {
    var t := TrimStart(s);
    var ds := LeadingDigits(Unsigned(t));
    if ds == [] then None
    else if t[0] == '-' then Some(-(DigitsValue(ds) as int))
    else Some(DigitsValue(ds))
  }

  /** NaN exactly when no digit follows the optional sign; without a minus sign the value is not negative. */
  lemma ParseIntNaN(s: string)
    ensures ParseInt(s).None? <==> (Unsigned(TrimStart(s)) == [] || !IsDigit(Unsigned(TrimStart(s))[0]))
    ensures ParseInt(s).Some? && (TrimStart(s) == [] || TrimStart(s)[0] != '-') ==> ParseInt(s).value >= 0
  {
  }

  /** A digit run followed by anything that is not a digit parses to the run's value. */
  lemma {:induction false} ParseIntIgnoresTrailing(ds: string, rest: string)
    requires ds != [] && AllDigits(ds)
    requires rest == [] || !IsDigit(rest[0])
    ensures ParseInt(ds + rest) == Some(DigitsValue(ds))
  {
    var s := ds + rest;
    LeadingDigitsOf(ds, rest);
    TrimStartOfNonSpace(s);
    assert Unsigned(s) == s;
    assert LeadingDigits(Unsigned(TrimStart(s))) == ds;
  }

  /** The same with a minus sign in front. */
  lemma {:induction false} ParseIntNegative(ds: string, rest: string)
    requires ds != [] && AllDigits(ds)
    requires rest == [] || !IsDigit(rest[0])
    ensures ParseInt("-" + ds + rest) == Some(-(DigitsValue(ds) as int))
  {
    var s := ds + rest;
    LeadingDigitsOf(ds, rest);
    var m := "-" + s;
    assert m == "-" + ds + rest;
    TrimStartOfNonSpace(m);
    assert m[0] == '-' && m[1..] == s;
    assert Unsigned(m) == s;
    var t := TrimStart(m);
    assert t == m && t[0] == '-';
    assert LeadingDigits(Unsigned(t)) == ds;
    assert ParseInt(m) == Some(-(DigitsValue(ds) as int));
  }

  lemma {:induction false} LeadingDigitsOf(ds: string, rest: string)
    requires AllDigits(ds)
    requires rest == [] || !IsDigit(rest[0])
    ensures LeadingDigits(ds + rest) == ds
  {
    if ds != [] {
      assert (ds + rest)[1..] == ds[1..] + rest;
      LeadingDigitsOf(ds[1..], rest);
    }
  }

  lemma TrimStartOfNonSpace(s: string)
    requires s != [] && !IsSpace(s[0])
    ensures TrimStart(s) == s
  {
  }

  /** Number.prototype.toString() of a non-negative integer: its decimal digits without leading zeros. */
  function NatToString(n: nat): (r: string)
    ensures r != [] && AllDigits(r) && DigitsValue(r) == n
    ensures r[0] != '0' || n == 0
    ensures |r| == 1 <==> n < 10
  {
    if n < 10 then [DigitChar(n)]
    else
      var r := NatToString(n / 10) + [DigitChar(n % 10)];
      assert r[..|r| - 1] == NatToString(n / 10);
      r
  }

  /** Parsing the decimal rendering of a number gives the number back. */
  lemma ParseIntNatToString(n: nat)
    ensures ParseInt(NatToString(n)) == Some(n)
  {
    ParseIntIgnoresTrailing(NatToString(n), []);
    assert NatToString(n) + [] == NatToString(n);
  }

  /** String.prototype.padStart(width, fill) with a one-character fill. */
  function PadStart(s: string, width: nat, fill: char): (r: string)
    ensures |r| == if |s| < width then width else |s|
    ensures r[|r| - |s|..] == s
    ensures forall k :: 0 <= k < |r| - |s| ==> r[k] == fill
  {
    if |s| < width then seq(width - |s|, _ => fill) + s else s
  }

  // ---------------------------------------------------------------------------
  // toLowerCase and replace(/\s+/g, glue)

  /** The capital letters of Basic Latin and Latin-1: A-Z and À-Þ except the sign ×. */
  predicate IsUpper(c: char)
  {
    'A' <= c <= 'Z' || ('\U{C0}' <= c <= '\U{DE}' && c != '\U{D7}')
  }

  /** Each of those capitals maps to its small letter, 32 code points further on; nothing else changes. */
  function ToLowerChar(c: char): (r: char)
    ensures !IsUpper(r) && (IsUpper(c) || r == c)
  {
    if IsUpper(c) then ((c as int) + 32) as char else c
  }

  /** String.prototype.toLowerCase on the Basic Latin and Latin-1 letters. */
  function ToLower(s: string): (r: string)
    ensures |r| == |s| && forall k :: 0 <= k < |s| ==> r[k] == ToLowerChar(s[k])
  {
    seq(|s|, k requires 0 <= k < |s| => ToLowerChar(s[k]))
  }

  /** `s.replace(/\s+/g, glue)`: every maximal run of whitespace becomes one copy of `glue`. */
  function ReplaceSpaceRuns(s: string, glue: string): string
    decreases |s|
  {
    if s == [] then []
    else if IsSpace(s[0]) then
      var rest := TrimStart(s);
      glue + ReplaceSpaceRuns(rest, glue)
    else [s[0]] + ReplaceSpaceRuns(s[1..], glue)
  }

  /** Replacing runs by a whitespace-free string leaves no whitespace. */
  lemma {:induction false} ReplaceSpaceRunsNoSpace(s: string, glue: string)
    requires forall k :: 0 <= k < |glue| ==> !IsSpace(glue[k])
    ensures forall k :: 0 <= k < |ReplaceSpaceRuns(s, glue)| ==> !IsSpace(ReplaceSpaceRuns(s, glue)[k])
    decreases |s|
  {
    if s != [] {
      if IsSpace(s[0]) {
        var rest := TrimStart(s);
        ReplaceSpaceRunsNoSpace(rest, glue);
      } else {
        ReplaceSpaceRunsNoSpace(s[1..], glue);
      }
    }
  }

  /** Leading whitespace up to a non-space character (or the end) is what `TrimStart` removes. */
  lemma {:induction false} TrimStartSkipsRun(w: string, b: string)
    requires AllSpace(w) && (b == [] || !IsSpace(b[0]))
    ensures TrimStart(w + b) == b
  {
    if w != [] {
      assert (w + b)[0] == w[0] && (w + b)[1..] == w[1..] + b;
      TrimStartSkipsRun(w[1..], b);
    } else {
      assert w + b == b;
    }
  }

  /**
   * A whole run of whitespace, however long, becomes exactly one copy of
   * the glue, and the replacement goes on after it.
   */
  lemma ReplaceSpaceRunsRun(w: string, b: string, glue: string)
    requires |w| > 0 && forall k :: 0 <= k < |w| ==> IsSpace(w[k])
    requires b == [] || !IsSpace(b[0])
    ensures ReplaceSpaceRuns(w + b, glue) == glue + ReplaceSpaceRuns(b, glue)
  {
    assert (w + b)[0] == w[0];
    TrimStartSkipsRun(w, b);
  }

  /** A character that is not whitespace is copied as it is, and the replacement goes on after it. */
  lemma ReplaceSpaceRunsKeeps(c: char, b: string, glue: string)
    requires !IsSpace(c)
    ensures ReplaceSpaceRuns([c] + b, glue) == [c] + ReplaceSpaceRuns(b, glue)
  {
    assert ([c] + b)[0] == c && ([c] + b)[1..] == b;
  }

  /** A string without whitespace is left unchanged. */
  lemma {:induction false} ReplaceSpaceRunsIdentity(s: string, glue: string)
    requires forall k :: 0 <= k < |s| ==> !IsSpace(s[k])
    ensures ReplaceSpaceRuns(s, glue) == s
  {
    if s != [] {
      ReplaceSpaceRunsIdentity(s[1..], glue);
    }
  }
}
