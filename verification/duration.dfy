/**
 * `format_duration`: a whole number of seconds rendered as text, in seconds
 * below one minute and otherwise in minutes plus the leftover seconds. The
 * reading `ParseDuration` is its inverse and pins the rendering down exactly.
 */
module Duration {
  import opened Wrappers
  import opened Decimal

  const SecondsUnit: string := " second(s)"
  const MinutesUnit: string := " minute(s)"
  /** The minutes unit when a seconds part follows it. */
  const MinutesSep: string := " minute(s) "

  /** Renders `secondsTotal`; the split into minutes and seconds happens only from 60 on, so it is never of a negative number. */
  function FormatDuration(secondsTotal: int): (r: string)
    ensures |r| > 0 && (r[0] == '-' <==> secondsTotal < 0)
    ensures secondsTotal >= 0 ==> IsDigit(r[0])
    ensures secondsTotal < 60 ==> r == IntToString(secondsTotal) + SecondsUnit
  {
    if secondsTotal < 60 then IntToString(secondsTotal) + SecondsUnit
    else FormatMinutes(secondsTotal / 60, secondsTotal % 60)
  }

  /** The text for `minutes` whole minutes and `seconds` leftover seconds, the seconds part left out when there are none. */
  function FormatMinutes(minutes: nat, seconds: nat): (r: string)
    ensures |r| > 0 && IsDigit(r[0])
  {
    if seconds == 0 then NatToString(minutes) + MinutesUnit
    else NatToString(minutes) + (MinutesSep + (NatToString(seconds) + SecondsUnit))
  }

  /** Reads a rendered duration back into seconds; `None` for text `FormatDuration` does not produce in this shape. */
  function ParseDuration(t: string): Option<int> {
    if |t| > 0 && t[0] == '-' then
      match ParseNat(t[1..])
      case Some((n, rest)) => if rest == SecondsUnit then Some(-(n as int)) else None
      case None => None
    else
      match ParseNat(t)
      case Some((n, rest)) => ParseUnits(n, rest)
      case None => None
  }

  /** What follows a leading count `n`: a seconds unit, a minutes unit, or a minutes unit and a seconds part. */
  function ParseUnits(n: nat, rest: string): Option<int> {
    if rest == SecondsUnit then Some(n)
    else if rest == MinutesUnit then Some(n * 60)
    else if MinutesSep <= rest then
      match ParseNat(rest[|MinutesSep|..])
      case Some((m, tail)) => if tail == SecondsUnit then Some(n * 60 + m) else None
      case None => None
    else None
  }

  lemma ParseDurationOfNumeral(n: nat, t: string)
    requires t == [] || !IsDigit(t[0])
    ensures ParseDuration(NatToString(n) + t) == ParseUnits(n, t)
  {
    assert (NatToString(n) + t)[0] == NatToString(n)[0];
    ParseNatToString(n, t);
  }

  lemma ParseNegative(u: string)
    ensures ParseDuration("-" + u) == (
      match ParseNat(u)
      case Some((n, rest)) => if rest == SecondsUnit then Some(-(n as int)) else None
      case None => None)
  {
    assert ("-" + u)[0] == '-' && ("-" + u)[1..] == u;
  }

  lemma UnitsDiffer()
    ensures MinutesUnit != SecondsUnit
  {
    assert MinutesUnit[1] != SecondsUnit[1];
  }

  lemma SecondsPartIsNoUnit(d: string)
    ensures MinutesSep + d != SecondsUnit && MinutesSep + d != MinutesUnit
  {
    assert (MinutesSep + d)[1] != SecondsUnit[1];
    assert |MinutesSep + d| != |MinutesUnit|;
  }

  lemma SecondsPartFollows(d: string)
    ensures MinutesSep <= MinutesSep + d && (MinutesSep + d)[|MinutesSep|..] == d
  {
  }

  lemma SecondsPartReads(minutes: nat, seconds: nat)
    ensures ParseUnits(minutes, MinutesSep + (NatToString(seconds) + SecondsUnit)) == Some(minutes * 60 + seconds)
  {
    var d := NatToString(seconds) + SecondsUnit;
    SecondsPartIsNoUnit(d);
    SecondsPartFollows(d);
    ParseNatToString(seconds, SecondsUnit);
  }

  /** Nothing is lost in the rendering: reading it back gives the number of seconds, for every int. */
  lemma FormatDurationRoundTrip(secondsTotal: int)
    ensures ParseDuration(FormatDuration(secondsTotal)) == Some(secondsTotal)
  {
    if secondsTotal < 0 {
      RoundTripNegative(secondsTotal);
    } else if secondsTotal < 60 {
      RoundTripBelowMinute(secondsTotal);
    } else if secondsTotal % 60 == 0 {
      RoundTripWholeMinutes(secondsTotal);
    } else {
      RoundTripMinutesAndSeconds(secondsTotal);
    }
  }

  lemma RoundTripNegative(secondsTotal: int)
    requires secondsTotal < 0
    ensures ParseDuration(FormatDuration(secondsTotal)) == Some(secondsTotal)
  {
    var n := -secondsTotal;
    var u := NatToString(n) + SecondsUnit;
    calc {
      ParseDuration(FormatDuration(secondsTotal));
      { assert FormatDuration(secondsTotal) == "-" + u; }
      ParseDuration("-" + u);
      { ParseNegative(u); ParseNatToString(n, SecondsUnit); }
      Some(secondsTotal);
    }
  }

  lemma RoundTripBelowMinute(secondsTotal: int)
    requires 0 <= secondsTotal < 60
    ensures ParseDuration(FormatDuration(secondsTotal)) == Some(secondsTotal)
  {
    calc {
      ParseDuration(FormatDuration(secondsTotal));
      { assert FormatDuration(secondsTotal) == NatToString(secondsTotal) + SecondsUnit; }
      ParseDuration(NatToString(secondsTotal) + SecondsUnit);
      { ParseDurationOfNumeral(secondsTotal, SecondsUnit); }
      ParseUnits(secondsTotal, SecondsUnit);
    }
  }

  lemma RoundTripWholeMinutes(secondsTotal: int)
    requires secondsTotal >= 60 && secondsTotal % 60 == 0
    ensures ParseDuration(FormatDuration(secondsTotal)) == Some(secondsTotal)
  {
    var minutes := secondsTotal / 60;
    calc {
      ParseDuration(FormatDuration(secondsTotal));
      { assert FormatDuration(secondsTotal) == NatToString(minutes) + MinutesUnit; }
      ParseDuration(NatToString(minutes) + MinutesUnit);
      { ParseDurationOfNumeral(minutes, MinutesUnit); }
      ParseUnits(minutes, MinutesUnit);
      { UnitsDiffer(); }
      Some(minutes * 60);
    }
  }

  lemma RoundTripMinutesAndSeconds(secondsTotal: int)
    requires secondsTotal >= 60 && secondsTotal % 60 != 0
    ensures ParseDuration(FormatDuration(secondsTotal)) == Some(secondsTotal)
  {
    var minutes, seconds := secondsTotal / 60, secondsTotal % 60;
    assert FormatDuration(secondsTotal) == FormatMinutes(minutes, seconds);
    RoundTripFormatMinutes(minutes, seconds, secondsTotal);
  }

  lemma RoundTripFormatMinutes(minutes: nat, seconds: nat, total: int)
    requires seconds != 0 && total == minutes * 60 + seconds
    ensures ParseDuration(FormatMinutes(minutes, seconds)) == Some(total)
  {
    var rest := MinutesSep + (NatToString(seconds) + SecondsUnit);
    calc {
      ParseDuration(FormatMinutes(minutes, seconds));
      { ParseUnitsOfNumeral(minutes, rest, FormatMinutes(minutes, seconds)); }
      ParseUnits(minutes, rest);
      { SecondsPartReads(minutes, seconds); }
      Some(total);
    }
  }

  lemma ParseUnitsOfNumeral(n: nat, rest: string, t: string)
    requires rest == [] || !IsDigit(rest[0])
    requires t == NatToString(n) + rest
    ensures ParseDuration(t) == ParseUnits(n, rest)
  {
    ParseDurationOfNumeral(n, rest);
  }

  /** Two different numbers of seconds are never rendered alike. */
  lemma FormatDurationInjective(a: int, b: int)
    requires FormatDuration(a) == FormatDuration(b)
    ensures a == b
  {
    FormatDurationRoundTrip(a);
    FormatDurationRoundTrip(b);
  }

  /**
   * From one minute on, the text starts with the minute count `M`, and the
   * seconds part `S` is present exactly when the split leaves a remainder;
   * `M * 60 + S` is the input, with `M >= 1` and `S` strictly below a minute.
   */
  lemma FormatDurationMinutes(secondsTotal: int)
    requires secondsTotal >= 60
    ensures var m, s := secondsTotal / 60, secondsTotal % 60;
      && m >= 1 && 0 <= s < 60 && m * 60 + s == secondsTotal
      && (s == 0 ==> FormatDuration(secondsTotal) == NatToString(m) + MinutesUnit)
      && (s != 0 ==>
            1 <= s <= 59 &&
            FormatDuration(secondsTotal) == NatToString(m) + " minute(s) " + NatToString(s) + SecondsUnit)
  {
    var m, s := secondsTotal / 60, secondsTotal % 60;
    assert NatToString(m) + (MinutesSep + (NatToString(s) + SecondsUnit))
        == NatToString(m) + " minute(s) " + NatToString(s) + SecondsUnit;
  }

  /** Worked examples of the rendering. */
  lemma FormatDurationExamples()
    ensures FormatDuration(0) == "0 second(s)"
    ensures FormatDuration(59) == "59 second(s)"
    ensures FormatDuration(60) == "1 minute(s)"
    ensures FormatDuration(90) == "1 minute(s) 30 second(s)"
    ensures FormatDuration(3600) == "60 minute(s)"
    ensures FormatDuration(15) == "15 second(s)"
  {
    NumeralExamples();
    BelowMinuteExamples();
    MinuteExamples();
    MinuteAndSecondsExample();
  }

  lemma BelowMinuteExamples()
    ensures FormatDuration(0) == "0 second(s)"
    ensures FormatDuration(59) == "59 second(s)"
    ensures FormatDuration(15) == "15 second(s)"
  {
    NumeralExamples();
    assert FormatDuration(0) == "0 second(s)" by {
      assert FormatDuration(0) == NatToString(0) + SecondsUnit;
    }
    assert FormatDuration(59) == "59 second(s)" by {
      assert FormatDuration(59) == NatToString(59) + SecondsUnit;
    }
    assert FormatDuration(15) == "15 second(s)" by {
      assert FormatDuration(15) == NatToString(15) + SecondsUnit;
    }
  }

  lemma MinuteExamples()
    requires NatToString(1) == "1" && NatToString(60) == "60"
    ensures FormatDuration(60) == "1 minute(s)"
    ensures FormatDuration(3600) == "60 minute(s)"
  {
    assert FormatDuration(60) == "1 minute(s)" by {
      assert FormatDuration(60) == FormatMinutes(1, 0);
      assert FormatMinutes(1, 0) == NatToString(1) + MinutesUnit;
    }
    assert FormatDuration(3600) == "60 minute(s)" by {
      assert FormatDuration(3600) == FormatMinutes(60, 0);
      assert FormatMinutes(60, 0) == NatToString(60) + MinutesUnit;
    }
  }

  lemma MinuteAndSecondsExample()
    requires NatToString(1) == "1" && NatToString(30) == "30"
    ensures FormatDuration(90) == "1 minute(s) 30 second(s)"
  {
    assert FormatDuration(90) == FormatMinutes(1, 30);
    assert FormatMinutes(1, 30) == NatToString(1) + (MinutesSep + (NatToString(30) + SecondsUnit));
  }

  lemma NumeralExamples()
    ensures NatToString(0) == "0" && NatToString(1) == "1"
    ensures NatToString(59) == "59" && NatToString(30) == "30" && NatToString(60) == "60"
    ensures NatToString(15) == "15"
  {
    assert DigitChar(0) == '0' && DigitChar(1) == '1' && DigitChar(3) == '3';
    assert DigitChar(5) == '5' && DigitChar(6) == '6' && DigitChar(9) == '9';
    assert NatToString(59) == NatToString(5) + [DigitChar(9)];
    assert NatToString(30) == NatToString(3) + [DigitChar(0)];
    assert NatToString(60) == NatToString(6) + [DigitChar(0)];
    assert NatToString(15) == NatToString(1) + [DigitChar(5)];
  }
}
