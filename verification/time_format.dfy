/** The countdown display: a duration below a minute as "N сек", anything
    longer as zero-padded minutes and seconds "MM:SS". A parser for the same
    texts is the partner that pins the format down. */
module TimeFormat {
  import opened Basics

  predicate IsDigit(c: char)
  {
    '0' <= c <= '9'
  }

  predicate AllDigits(s: string)
  {
    forall i :: 0 <= i < |s| ==> IsDigit(s[i])
  }

  function Digit(d: nat): (c: char)
    requires d < 10
    ensures IsDigit(c) && c as int - '0' as int == d
  {
    (d + '0' as int) as char
  }

  function DigitValue(c: char): nat
    requires IsDigit(c)
  {
    c as int - '0' as int
  }

  /** Decimal digits of n, most significant first, no leading zero. */
  function Decimal(n: nat): (s: string)
    ensures AllDigits(s)
    ensures 1 <= |s|
    ensures n < 10 <==> |s| == 1
    ensures n < 100 ==> |s| <= 2
    ensures s[0] == '0' <==> n == 0
    decreases n
  {
    if n < 10 then [Digit(n)] else Decimal(n / 10) + [Digit(n % 10)]
  }

  /** A digit string as Python writes a non-negative integer: at least one
      digit, and no leading zero unless the number is zero. */
  predicate Canonical(d: string)
  {
    AllDigits(d) && 1 <= |d| && (|d| == 1 || d[0] != '0')
  }

  /** A digit string as the ":02d" field writes a non-negative integer:
      exactly two digits, or more than two without a leading zero. */
  predicate Padded(d: string)
  {
    AllDigits(d) && 2 <= |d| && (|d| == 2 || d[0] != '0')
  }

  /** The number a string of decimal digits denotes (leading zeros allowed). */
  function ValueOf(s: string): nat
    requires AllDigits(s)
    decreases |s|
  {
    if |s| == 0 then 0 else 10 * ValueOf(s[..|s| - 1]) + DigitValue(s[|s| - 1])
  }

  lemma {:induction false} ValueOfDecimal(n: nat)
    ensures ValueOf(Decimal(n)) == n
    decreases n
  {
    if n >= 10 {
      var s := Decimal(n);
      assert s[..|s| - 1] == Decimal(n / 10);
      ValueOfDecimal(n / 10);
    }
  }

  lemma {:induction false} LeadingZero(s: string)
    requires AllDigits(s)
    ensures AllDigits("0" + s)
    ensures ValueOf("0" + s) == ValueOf(s)
    decreases |s|
  {
    if |s| > 0 {
      var z := "0" + s;
      assert z[..|z| - 1] == "0" + s[..|s| - 1];
      LeadingZero(s[..|s| - 1]);
    }
  }

  /** Python's str() of an integer: the canonical digits of its magnitude,
      after a minus sign when it is negative. */
  function IntText(i: int): (s: string)
    ensures 1 <= |s|
    ensures i >= 0 ==> Canonical(s) && ValueOf(s) == i
    ensures i < 0 ==> |s| >= 2 && s[0] == '-' && Canonical(s[1..]) && s[1] != '0' && ValueOf(s[1..]) == -i
  {
    if i < 0 then
      var d := Decimal(-i);
      ValueOfDecimal(-i);
      var s := "-" + d;
      assert s[1..] == d;
      s
    else
      ValueOfDecimal(i);
      Decimal(i)
  }

  /** The ":02d" field of a non-negative number: zero-padded to two digits. */
  function Pad2(s: string): (r: string)
    requires AllDigits(s) && 1 <= |s|
    ensures AllDigits(r)
    ensures |r| >= 2 && |r| >= |s|
    ensures |s| <= 2 ==> |r| == 2
    ensures ValueOf(r) == ValueOf(s)
    ensures Canonical(s) ==> Padded(r)
  {
    if |s| < 2 then LeadingZero(s); "0" + s else s
  }

  const SecondsSuffix := " сек"

  predicate HasSuffix(t: string)
  {
    |t| >= |SecondsSuffix| && t[|t| - |SecondsSuffix|..] == SecondsSuffix
  }

  /** The two fields of a clock text "MM:SS": minutes before the colon,
      exactly two digits of seconds after it. */
  predicate IsClock(t: string)
  {
    && |t| >= 5
    && t[|t| - 3] == ':'
    && AllDigits(t[..|t| - 3])
    && AllDigits(t[|t| - 2..])
  }

  function ClockMinutes(t: string): nat
    requires IsClock(t)
  {
    ValueOf(t[..|t| - 3])
  }

  function ClockSeconds(t: string): nat
    requires IsClock(t)
  {
    ValueOf(t[|t| - 2..])
  }

  /** The clock text of a duration of a minute or more. */
  function Clock(seconds: int): (r: string)
    requires seconds >= 60
    ensures IsClock(r)
    ensures Padded(r[..|r| - 3])
    ensures ClockMinutes(r) == seconds / 60
    ensures ClockSeconds(r) == seconds % 60
  {
    var m, s := Decimal(seconds / 60), Decimal(seconds % 60);
    assert Canonical(m) by {
      assert |m| > 1 ==> seconds / 60 != 0;
    }
    var r := Pad2(m) + ":" + Pad2(s);
    assert r[..|r| - 3] == Pad2(m);
    assert r[|r| - 2..] == Pad2(s);
    ValueOfDecimal(seconds / 60);
    ValueOfDecimal(seconds % 60);
    r
  }

  /** Time as the bot shows it. */
  function FormatTime(seconds: int): (r: string)
    ensures seconds < 60 <==> HasSuffix(r)
    ensures seconds >= 60 ==>
              && IsClock(r)
              && Padded(r[..|r| - 3])
              && ClockSeconds(r) < 60
              && ClockMinutes(r) == seconds / 60
              && ClockMinutes(r) * 60 + ClockSeconds(r) == seconds
  {
    if seconds < 60 then
      var r := IntText(seconds) + SecondsSuffix;
      assert r[|r| - |SecondsSuffix|..] == SecondsSuffix;
      r
    else
      var r := Clock(seconds);
      assert IsDigit(r[|r| - 1]) by {
        assert r[|r| - 1] == r[|r| - 2..][1];
      }
      r
  }

  /** Reads an integer exactly as Python's str() writes it: no sign but a
      leading minus, no superfluous leading zero, no "-0". */
  function ParseInt(s: string): Option<int>
  {
    if |s| >= 2 && s[0] == '-' && AllDigits(s[1..]) && s[1] != '0' then
      var magnitude: int := ValueOf(s[1..]);
      Some(-magnitude)
    else if Canonical(s) then Some(ValueOf(s))
    else None
  }

  /** Reads back a time text of either form; a text of the wrong form for
      its value ("75 сек", "00:30") is refused. */
  function ParseTime(t: string): Option<int>
  {
    if HasSuffix(t) then
      match ParseInt(t[..|t| - |SecondsSuffix|])
      case Some(v) => if v < 60 then Some(v) else None
      case None => None
    else if IsClock(t) && Padded(t[..|t| - 3]) && ClockSeconds(t) < 60 && ClockMinutes(t) >= 1 then
      Some(ClockMinutes(t) * 60 + ClockSeconds(t))
    else None
  }

  lemma ParseIntText(i: int)
    ensures ParseInt(IntText(i)) == Some(i)
  {
    var s := IntText(i);
    if i >= 0 {
      assert IsDigit(s[0]) && s[0] != '-';
    }
  }

  /** Every time text reads back as the number of seconds it was made from. */
  lemma FormatTimeRoundTrip(seconds: int)
    ensures ParseTime(FormatTime(seconds)) == Some(seconds)
  {
    var r := FormatTime(seconds);
    if seconds < 60 {
      assert r[..|r| - |SecondsSuffix|] == IntText(seconds);
      ParseIntText(seconds);
    }
  }

  /** Hence two different durations never look the same. */
  lemma FormatTimeInjective(a: int, b: int)
    requires FormatTime(a) == FormatTime(b)
    ensures a == b
  {
    FormatTimeRoundTrip(a);
    FormatTimeRoundTrip(b);
  }

  lemma {:induction false} LeadingDigitPositive(s: string)
    requires AllDigits(s) && 1 <= |s| && s[0] != '0'
    ensures ValueOf(s) >= 1
    decreases |s|
  {
    if |s| > 1 {
      LeadingDigitPositive(s[..|s| - 1]);
    }
  }

  /** Canonical digits are the decimal text of their own value. */
  lemma {:induction false} DecimalOfValue(d: string)
    requires Canonical(d)
    ensures Decimal(ValueOf(d)) == d
    decreases |d|
  {
    var init, last := d[..|d| - 1], d[|d| - 1];
    if |d| == 1 {
      assert ValueOf(d) == DigitValue(last);
    } else {
      assert init[0] == d[0];
      LeadingDigitPositive(init);
      var v := ValueOf(d);
      assert v == 10 * ValueOf(init) + DigitValue(last);
      assert v / 10 == ValueOf(init) && v % 10 == DigitValue(last);
      DecimalOfValue(init);
      assert d == init + [last];
    }
  }

  /** A padded field is the ":02d" text of its own value. */
  lemma PaddedOfValue(f: string)
    requires Padded(f)
    ensures Pad2(Decimal(ValueOf(f))) == f
  {
    if f[0] != '0' {
      DecimalOfValue(f);
    } else {
      assert f[..|f| - 1] == f[..1] == "0";
      assert ValueOf(f[..1]) == 0 by {
        assert f[..1][..0] == [];
      }
      assert ValueOf(f) == DigitValue(f[1]);
      assert Decimal(ValueOf(f)) == [f[1]];
      assert f == "0" + [f[1]];
    }
  }

  lemma ParseIntCanonical(p: string, i: int)
    requires ParseInt(p) == Some(i)
    ensures p == IntText(i)
  {
    if |p| >= 2 && p[0] == '-' && AllDigits(p[1..]) && p[1] != '0' {
      var d := p[1..];
      LeadingDigitPositive(d);
      DecimalOfValue(d);
      assert p == "-" + d;
    } else {
      DecimalOfValue(p);
    }
  }

  lemma SuffixTextIsFormatted(t: string, seconds: int)
    requires HasSuffix(t) && ParseTime(t) == Some(seconds)
    ensures t == FormatTime(seconds)
  {
    var p := t[..|t| - |SecondsSuffix|];
    ParseIntCanonical(p, seconds);
    assert t == p + SecondsSuffix;
  }

  /** A clock text the parser accepts is built from its two fields. */
  lemma ClockFields(t: string)
    requires IsClock(t) && Padded(t[..|t| - 3])
    ensures t == Pad2(Decimal(ClockMinutes(t))) + ":" + Pad2(Decimal(ClockSeconds(t)))
  {
    var mf, sf := t[..|t| - 3], t[|t| - 2..];
    PaddedOfValue(mf);
    PaddedOfValue(sf);
    assert t == mf + ":" + sf;
  }

  lemma ClockOfFields(seconds: int, m: nat, sec: nat)
    requires seconds == m * 60 + sec && sec < 60 && m >= 1
    ensures FormatTime(seconds) == Pad2(Decimal(m)) + ":" + Pad2(Decimal(sec))
  {
    assert seconds / 60 == m && seconds % 60 == sec;
  }

  lemma ClockTextIsFormatted(t: string, seconds: int)
    requires !HasSuffix(t) && ParseTime(t) == Some(seconds)
    ensures t == FormatTime(seconds)
  {
    ClockFields(t);
    ClockOfFields(seconds, ClockMinutes(t), ClockSeconds(t));
  }

  /** Conversely, the only texts that read back as a number of seconds are
      the ones the bot writes for it. */
  lemma ParsedTextIsFormatted(t: string, seconds: int)
    requires ParseTime(t) == Some(seconds)
    ensures t == FormatTime(seconds)
  {
    if HasSuffix(t) {
      SuffixTextIsFormatted(t, seconds);
    } else {
      ClockTextIsFormatted(t, seconds);
    }
  }
}
