/** The countdown length typed into the panel's delay input. */
module Delay {
  import opened Js
  import opened Variants

  /** The delay before any input is typed, in both copies. */
  const DefaultDelay := 3

  /** content.js as written: `Math.max(0, parseInt(value || "0", 10))`.
      A value with no leading digit (".5" is a valid number-input value)
      makes `parseInt` NaN, and `Math.max(0, NaN)` is NaN. */
  function BaseAsWritten(text: string): (r: Num)
    ensures r.Int? ==> r.v >= 0
  {
    Max0(ParseInt(if |text| == 0 then "0" else text))
  }

  /** The delay a typed input stores. For `Base` this is the corrected
      content.js rule: as written, except that NaN becomes 0. For `WrapUp`
      it is `parseInt(value) || 3`: 0 and NaN become 3, every other integer,
      negative ones included, is kept. */
  function FromInput(v: Variant, text: string): (r: Num)
    ensures r.Int?
    ensures v == Base ==> r.v >= 0
    ensures v == Base && BaseAsWritten(text).Int? ==> r == BaseAsWritten(text)
    ensures v == Base && BaseAsWritten(text).NaN? ==> r == Int(0)
    ensures v == WrapUp && Truthy(ParseInt(text)) ==> r == ParseInt(text)
    ensures v == WrapUp && !Truthy(ParseInt(text)) ==> r == Int(DefaultDelay)
  {
    match v
    case Base =>
      var d := BaseAsWritten(text);
      if d.NaN? then Int(0) else d
    case WrapUp => Or(ParseInt(text), Int(DefaultDelay))
  }

  /** The as-written content.js rule stores NaN for the input ".5". */
  lemma BaseAsWrittenStoresNaN()
    ensures BaseAsWritten(".5") == NaN
  {
    assert TrimStart(".5") == ".5";
    assert Unsigned(".5") == ".5";
    assert DigitPrefix(".5") == 0;
  }

  /** The corrected rule stores 0 for the same input. */
  lemma CorrectedStoresZero()
    ensures FromInput(Base, ".5") == Int(0)
  {
    BaseAsWrittenStoresNaN();
  }

  /** A typed number is stored as itself, except where each copy's rule
      replaces it: a negative number by 0 (Base), and 0 by 3 (WrapUp). */
  lemma TypedNumber(n: nat)
    ensures FromInput(Base, Decimal(n)) == Int(n)
    ensures FromInput(WrapUp, Decimal(n)) == (if n == 0 then Int(DefaultDelay) else Int(n))
    ensures FromInput(Base, "-" + Decimal(n)) == Int(0)
    ensures n > 0 ==> FromInput(WrapUp, "-" + Decimal(n)) == Int(-(n as int))
  {
    var d := Decimal(n);
    ParsedDecimal(n);
    assert BaseAsWritten(d) == Max0(ParseInt(d));
    assert BaseAsWritten("-" + d) == Max0(ParseInt("-" + d));
  }

  lemma ParsedDecimal(n: nat)
    ensures ParseInt(Decimal(n)) == Int(n)
    ensures ParseInt("-" + Decimal(n)) == Int(-(n as int))
  {
    var d := Decimal(n);
    ParseIntDecimal(n, "");
    assert d + "" == d;
    assert "-" + d + "" == "-" + d;
  }

  /** An emptied input means 0 in content.js and the default in the others. */
  lemma EmptyInput()
    ensures FromInput(Base, "") == Int(0)
    ensures FromInput(WrapUp, "") == Int(DefaultDelay)
  {
    ParseIntDecimal(0, "");
    assert Decimal(0) == "0";
  }
}
