/** Reading the dialing time from the softphone's stopwatch text. */
module Stopwatch {
  import opened Js

  lemma OccurrencesIn(s: string, c: char)
    ensures Occurrences(s, c) > 0 <==> c in s
  {
    if |s| > 0 {
      OccurrencesIn(s[1..], c);
      assert s == [s[0]] + s[1..];
    }
  }

  /** `dialingSeconds` as one poll tick computes it from the trimmed text
      of the stopwatch: absent or empty text gives 0; the text is split at
      `:` and every piece converted with `Number`; three pieces give the
      third, otherwise the second piece gives the value unless it is
      missing, zero or NaN, in which case the value is 0. */
  function DialingSeconds(time: Option<string>): (r: Num)
    ensures time.None? || time == Some("") ==> r == Int(0)
    ensures r.NaN? ==> time.Some? && |Split(time.value, ':')| == 3
    ensures Truthy(r) ==> time.Some? && ':' in time.value
  {
    if time.None? || |time.value| == 0 then Int(0)
    else
      var parts := Split(time.value, ':');
      OccurrencesIn(time.value, ':');
      if |parts| == 3 then ToNumber(parts[2])
      else if |parts| >= 2 then Or(ToNumber(parts[1]), Int(0))
      else Int(0)
  }

  lemma DigitsHaveNoColon(s: string)
    requires AllDigits(s)
    ensures ':' !in s
  {
  }

  /** Two pieces: the second, converted with `Number`, unless that is 0 or
      NaN (an unparsable field), in which case 0. */
  lemma {:induction false} TwoFields(a: string, b: string)
    requires ':' !in a && ':' !in b
    ensures DialingSeconds(Some(a + ":" + b)) == Or(ToNumber(b), Int(0))
  {
    assert a + ":" + b == a + [':'] + b;
    SplitCons(a, b, ':');
    SplitNone(b, ':');
    assert Split(a + ":" + b, ':') == [a, b];
  }

  /** Three pieces: the third, converted with `Number`, NaN included. */
  lemma {:induction false} ThreeFields(a: string, b: string, c: string)
    requires ':' !in a && ':' !in b && ':' !in c
    ensures DialingSeconds(Some(a + ":" + b + ":" + c)) == ToNumber(c)
  {
    assert a + ":" + b + ":" + c == a + [':'] + (b + [':'] + c);
    SplitCons(a, b + ":" + c, ':');
    SplitCons(b, c, ':');
    SplitNone(c, ':');
    assert Split(a + ":" + b + ":" + c, ':') == [a, b, c];
  }

  /** Four pieces or more read like two: the second piece, or 0. */
  lemma {:induction false} ManyFields(a: string, b: string, c: string, rest: string)
    requires ':' !in a && ':' !in b && ':' !in c
    ensures DialingSeconds(Some(a + ":" + b + ":" + c + ":" + rest)) == Or(ToNumber(b), Int(0))
  {
    var x3 := c + ":" + rest;
    var x2 := b + ":" + x3;
    assert a + ":" + b + ":" + c + ":" + rest == a + ":" + x2;
    SplitCons(a, x2, ':');
    SplitCons(b, x3, ':');
    SplitCons(c, rest, ':');
    var parts := Split(a + ":" + x2, ':');
    assert parts == [a] + ([b] + ([c] + Split(rest, ':')));
    assert |parts| >= 4 && parts[1] == b;
  }

  /** An unparsable seconds field reads as 0. */
  lemma UnparsableSeconds()
    ensures DialingSeconds(Some("01:ab")) == Int(0)
  {
    TwoFields("01", "ab");
    assert "01" + ":" + "ab" == "01:ab";
    assert TrimStart("ab") == "ab";
    assert TrimEnd("ab") == "ab";
    assert ToNumber("ab") == NaN;
  }

  /** A minutes:seconds display reads as its seconds field. */
  lemma {:induction false} MinutesSeconds(mm: string, ss: string)
    requires |mm| > 0 && AllDigits(mm) && |ss| > 0 && AllDigits(ss)
    ensures DialingSeconds(Some(mm + ":" + ss)) == Int(DigitsValue(ss))
  {
    DigitsHaveNoColon(mm);
    DigitsHaveNoColon(ss);
    var t := mm + ":" + ss;
    assert t == mm + [':'] + ss;
    SplitCons(mm, ss, ':');
    SplitNone(ss, ':');
    var parts := Split(t, ':');
    assert parts == [mm, ss];
    ToNumberDigits(ss);
    var x := ToNumber(parts[1]);
    assert x == Int(DigitsValue(ss));
    assert DialingSeconds(Some(t)) == Or(x, Int(0));
  }

  /** An hours:minutes:seconds display reads as its seconds field. */
  lemma {:induction false} HoursMinutesSeconds(hh: string, mm: string, ss: string)
    requires |hh| > 0 && AllDigits(hh) && |mm| > 0 && AllDigits(mm)
    requires |ss| > 0 && AllDigits(ss)
    ensures DialingSeconds(Some(hh + ":" + mm + ":" + ss)) == Int(DigitsValue(ss))
  {
    DigitsHaveNoColon(hh);
    DigitsHaveNoColon(mm);
    DigitsHaveNoColon(ss);
    assert hh + ":" + mm + ":" + ss == hh + [':'] + (mm + [':'] + ss);
    SplitCons(hh, mm + ":" + ss, ':');
    SplitCons(mm, ss, ':');
    SplitNone(ss, ':');
    var parts := Split(hh + ":" + mm + ":" + ss, ':');
    assert parts == [hh, mm, ss];
    ToNumberDigits(ss);
    assert DialingSeconds(Some(hh + ":" + mm + ":" + ss)) == ToNumber(parts[2]);
  }

  /** Text without a colon is never a dialing time. */
  lemma {:induction false} NoColonIsZero(s: string)
    requires ':' !in s
    ensures DialingSeconds(Some(s)) == Int(0)
  {
    SplitNone(s, ':');
  }

  /** Only the seconds field is read: 1 minute 5 seconds reads as 5. */
  lemma OneMinuteFiveSeconds()
    ensures DialingSeconds(Some("01:05")) == Int(5)
  {
    assert AllDigits("01") && AllDigits("05");
    MinutesSeconds("01", "05");
    assert "01" + ":" + "05" == "01:05";
    assert "05"[..1] == "0";
    assert DigitsValue("05") == 5;
  }
}
