/**
 * formatTime of app/page.tsx: a number of seconds shown as hh:mm:ss, each
 * field its decimal digits left-padded with '0' to two characters (hours
 * are not capped, so 100 hours and more take more digits).
 */
module TimeFormat {
  import opened Wrappers
  import opened Text

  /** `n.toString().padStart(2, "0")`. */
  function TwoDigits(n: nat): string
  {
    PadStart(NatToString(n), 2, '0')
  }

  /** formatTime(seconds) for a non-negative whole number of seconds. */
  function FormatTime(seconds: nat): string
  {
    var hours := seconds / 3600;
    var minutes := (seconds % 3600) / 60;
    var secs := seconds % 60;
    TwoDigits(hours) + ":" + TwoDigits(minutes) + ":" + TwoDigits(secs)
  }

  /**
   * A padded field is at least two digits long, exactly two below 100, holds
   * no ':' and parses back to its value.
   */
  lemma TwoDigitsParsesBack(n: nat)
    ensures |TwoDigits(n)| >= 2 && (n < 100 ==> |TwoDigits(n)| == 2)
    ensures AllDigits(TwoDigits(n)) && ':' !in TwoDigits(n)
    ensures ParseInt(TwoDigits(n)) == Some(n)
  {
    var ds := NatToString(n);
    if n >= 10 {
      assert TwoDigits(n) == ds;
      if n < 100 {
        assert |NatToString(n / 10)| == 1;
      }
      ParseIntNatToString(n);
    } else {
      assert TwoDigits(n) == "0" + ds;
      DigitsValueLeadingZero(ds);
      ParseIntIgnoresTrailing("0" + ds, []);
      assert "0" + ds + [] == "0" + ds;
    }
    assert ':' !in TwoDigits(n) by {
      assert AllDigits(TwoDigits(n));
    }
  }

  /** The three fields formatTime computes: minutes and seconds below 60, together the given seconds. */
  lemma TimeFields(seconds: nat)
    ensures var (h, m, s) := (seconds / 3600, (seconds % 3600) / 60, seconds % 60);
            h * 3600 + m * 60 + s == seconds && 0 <= m < 60 && 0 <= s < 60
  {
  }

  /** Three ':'-free fields joined by ':' split back into themselves. */
  lemma SplitThree(a: string, b: string, c: string)
    requires ':' !in a && ':' !in b && ':' !in c
    ensures Split(a + ":" + b + ":" + c, ':') == [a, b, c]
  {
    var parts := [a, b, c];
    assert Join(parts[2..], ':') == c;
    assert Join(parts[1..], ':') == b + ":" + c;
    assert Join(parts, ':') == a + ":" + b + ":" + c;
    SplitJoin(parts, ':');
  }

  /**
   * The shown text splits at ':' into three fields that parse back to hours,
   * minutes and seconds: minutes and seconds below 60, and together exactly
   * the given number of seconds.
   */
  lemma FormatTimeRoundTrip(seconds: nat)
    ensures var fields := Split(FormatTime(seconds), ':');
            |fields| == 3 &&
            ParseInt(fields[0]).Some? && ParseInt(fields[1]).Some? && ParseInt(fields[2]).Some? &&
            var (h, m, s) := (ParseInt(fields[0]).value, ParseInt(fields[1]).value, ParseInt(fields[2]).value);
            h * 3600 + m * 60 + s == seconds && 0 <= m < 60 && 0 <= s < 60 && h >= 0
  {
    var hours := seconds / 3600;
    var minutes := (seconds % 3600) / 60;
    var secs := seconds % 60;
    TimeFields(seconds);
    TwoDigitsParsesBack(hours);
    TwoDigitsParsesBack(minutes);
    TwoDigitsParsesBack(secs);
    SplitThree(TwoDigits(hours), TwoDigits(minutes), TwoDigits(secs));
  }

  /** Below 100 hours the text is always eight characters, hh:mm:ss. */
  lemma FormatTimeLength(seconds: nat)
    requires seconds < 360000
    ensures |FormatTime(seconds)| == 8
  {
    TwoDigitsParsesBack(seconds / 3600);
    TwoDigitsParsesBack((seconds % 3600) / 60);
    TwoDigitsParsesBack(seconds % 60);
  }
}
