/** The few JavaScript value semantics the automation loop depends on:
    `undefined`-or-value, integer-valued numbers with NaN, truthiness,
    `parseInt(s, 10)`, `Number(s)` and `String.prototype.split`.

    Numbers are restricted to the integers plus NaN; the loop only ever
    reads stopwatch fields and typed delays, which are decimal integers. */
module Js {

  /** A value that may be `undefined` (an absent element or text). */
  datatype Option<+T> = None | Some(value: T)

  /** A JavaScript number, restricted to the integers, or NaN. */
  datatype Num = NaN | Int(v: int)

  /** JavaScript truthiness of a number: NaN and 0 are falsy. */
  predicate Truthy(n: Num) {
    n.Int? && n.v != 0
  }

  /** `a || b` on numbers. */
  function Or(a: Num, b: Num): Num {
    if Truthy(a) then a else b
  }

  /** `Math.max(0, n)`: NaN propagates. */
  function Max0(n: Num): Num {
    match n
    case NaN => NaN
    case Int(x) => if x < 0 then Int(0) else n
  }

  /** `n--`: NaN stays NaN. */
  function Dec(n: Num): Num {
    match n
    case NaN => NaN
    case Int(x) => Int(x - 1)
  }

  /** `n <= k`; every comparison with NaN is false. */
  predicate AtMost(n: Num, k: int) {
    n.Int? && n.v <= k
  }

  /** `n >= k`; every comparison with NaN is false. */
  predicate AtLeast(n: Num, k: int) {
    n.Int? && n.v >= k
  }

  // ---------------------------------------------------------------------
  // Characters and decimal digits

  predicate IsDigit(c: char) {
    '0' <= c <= '9'
  }

  /** The white space `trim` and `parseInt` skip: the ASCII part of it
      (space, tab, line feed, vertical tab, form feed, carriage return). */
  predicate IsSpace(c: char) {
    c == ' ' || c == '\t' || c == '\n' || c == '\r' || c == '\U{B}' || c == '\U{C}'
  }

  predicate AllDigits(s: string) {
    forall i :: 0 <= i < |s| ==> IsDigit(s[i])
  }

  function DigitValue(c: char): nat
    requires IsDigit(c)
  {
    (c as int - '0' as int) as nat
  }

  function DigitChar(d: nat): (c: char)
    requires d < 10
    ensures IsDigit(c) && DigitValue(c) == d
  {
    ('0' as int + d) as char
  }

  /** The value of a string of decimal digits, most significant first. */
  function DigitsValue(s: string): nat
    requires AllDigits(s)
  {
    if |s| == 0 then 0
    else DigitsValue(s[..|s| - 1]) * 10 + DigitValue(s[|s| - 1])
  }

  /** The canonical decimal rendering of a natural number. */
  function Decimal(n: nat): (s: string)
    ensures |s| > 0 && AllDigits(s)
  {
    if n < 10 then [DigitChar(n)]
    else Decimal(n / 10) + [DigitChar(n % 10)]
  }

  /** Reading back a rendered number gives the number. */
  lemma {:induction false} DecimalRoundTrip(n: nat)
    ensures DigitsValue(Decimal(n)) == n
  {
    if n >= 10 {
      var s := Decimal(n);
      assert s[..|s| - 1] == Decimal(n / 10);
      DecimalRoundTrip(n / 10);
    }
  }

  // ---------------------------------------------------------------------
  // Trimming

  /** `trimStart`: drop the leading white space. */
  function TrimStart(s: string): string {
    if |s| > 0 && IsSpace(s[0]) then TrimStart(s[1..]) else s
  }

  /** `trimEnd`: drop the trailing white space. */
  function TrimEnd(s: string): string {
    if |s| > 0 && IsSpace(s[|s| - 1]) then TrimEnd(s[..|s| - 1]) else s
  }

  /** TrimStart keeps a suffix of its input that does not start with white
      space, and drops only white space. */
  lemma {:induction false} TrimStartStrips(s: string)
    ensures var t := TrimStart(s);
            && |t| <= |s| && t == s[|s| - |t|..]
            && (|t| > 0 ==> !IsSpace(t[0]))
            && forall i :: 0 <= i < |s| - |t| ==> IsSpace(s[i])
  {
    if |s| > 0 && IsSpace(s[0]) {
      TrimStartStrips(s[1..]);
    }
  }

  /** TrimEnd keeps a prefix of its input that does not end with white
      space, and drops only white space. */
  lemma {:induction false} TrimEndStrips(s: string)
    ensures var t := TrimEnd(s);
            && |t| <= |s| && t == s[..|t|]
            && (|t| > 0 ==> !IsSpace(t[|t| - 1]))
            && forall i :: |t| <= i < |s| ==> IsSpace(s[i])
  {
    if |s| > 0 && IsSpace(s[|s| - 1]) {
      TrimEndStrips(s[..|s| - 1]);
    }
  }

  /** `String.prototype.trim`. */
  function Trim(s: string): string {
    TrimEnd(TrimStart(s))
  }

  /** A string that starts and ends with a digit is its own trim. */
  lemma TrimDigits(s: string)
    requires |s| > 0 && AllDigits(s)
    ensures Trim(s) == s
  {
    assert !IsSpace(s[0]) && !IsSpace(s[|s| - 1]);
    assert TrimStart(s) == s;
    assert TrimEnd(s) == s;
  }

  // ---------------------------------------------------------------------
  // parseInt(s, 10)

  /** The length of the longest prefix of `s` made of decimal digits. */
  function DigitPrefix(s: string): (k: nat)
    ensures k <= |s| && AllDigits(s[..k])
    ensures k < |s| ==> !IsDigit(s[k])
  {
    if |s| > 0 && IsDigit(s[0]) then
      var k := 1 + DigitPrefix(s[1..]);
      assert s[..k] == [s[0]] + s[1..][..k - 1];
      k
    else 0
  }

  /** A run of digits followed by a non-digit (or nothing) is exactly the
      digit prefix. */
  lemma {:induction false} DigitPrefixOf(a: string, b: string)
    requires AllDigits(a)
    requires |b| == 0 || !IsDigit(b[0])
    ensures DigitPrefix(a + b) == |a|
  {
    if |a| > 0 {
      assert (a + b)[1..] == a[1..] + b;
      DigitPrefixOf(a[1..], b);
    }
  }

  /** The text after an optional leading sign. */
  function Unsigned(t: string): string {
    if |t| > 0 && (t[0] == '-' || t[0] == '+') then t[1..] else t
  }

  function Signed(negative: bool, x: nat): int {
    if negative then -(x as int) else x
  }

  /** `parseInt(s, 10)`: skip leading white space, read an optional sign and
      the longest run of digits after it; NaN when there is no digit. */
  function ParseInt(s: string): Num {
    var t := TrimStart(s);
    var body := Unsigned(t);
    var k := DigitPrefix(body);
    if k == 0 then NaN
    else Int(Signed(|t| > 0 && t[0] == '-', DigitsValue(body[..k])))
  }

  /** parseInt reads a rendered number back, whatever non-digit text follows
      it, with or without a minus sign. */
  lemma ParseIntDecimal(n: nat, suffix: string)
    requires |suffix| == 0 || !IsDigit(suffix[0])
    ensures ParseInt(Decimal(n) + suffix) == Int(n)
    ensures ParseInt("-" + Decimal(n) + suffix) == Int(-(n as int))
  {
    var d := Decimal(n);
    DigitPrefixOf(d, suffix);
    DecimalRoundTrip(n);
    assert (d + suffix)[..|d|] == d;
    assert !IsSpace((d + suffix)[0]);
    var m := "-" + d + suffix;
    assert !IsSpace(m[0]);
    assert Unsigned(m) == d + suffix;
  }

  /** parseInt gives NaN exactly when no digit follows the white space and
      the optional sign. */
  lemma ParseIntNaN(s: string)
    ensures ParseInt(s).NaN? <==>
              (var b := Unsigned(TrimStart(s)); |b| == 0 || !IsDigit(b[0]))
  {
  }

  // ---------------------------------------------------------------------
  // Number(s)

  /** `Number(s)` for integer text: white space around the text is ignored,
      the empty string is 0, an optional sign and one or more digits give
      their value, and anything else is NaN. */
  function ToNumber(s: string): Num {
    var t := Trim(s);
    if |t| == 0 then Int(0)
    else
      var body := Unsigned(t);
      if |body| > 0 && AllDigits(body) then Int(Signed(t[0] == '-', DigitsValue(body)))
      else NaN
  }

  /** Number reads a field of digits as its decimal value. */
  lemma ToNumberDigits(s: string)
    requires |s| > 0 && AllDigits(s)
    ensures ToNumber(s) == Int(DigitsValue(s))
  {
    TrimDigits(s);
    assert Unsigned(s) == s by {
      assert IsDigit(s[0]);
    }
    assert ToNumber(s) == Int(Signed(s[0] == '-', DigitsValue(s)));
  }

  // ---------------------------------------------------------------------
  // split

  /** The number of occurrences of `c` in `s`. */
  function Occurrences(s: string, c: char): nat {
    if |s| == 0 then 0 else (if s[0] == c then 1 else 0) + Occurrences(s[1..], c)
  }

  /** `s.split(sep)` for a one-character separator. */
  function Split(s: string, sep: char): (parts: seq<string>)
    ensures |parts| == Occurrences(s, sep) + 1
    ensures forall i :: 0 <= i < |parts| ==> sep !in parts[i]
  {
    if |s| == 0 then [""]
    else
      var rest := Split(s[1..], sep);
      if s[0] == sep then [""] + rest
      else [[s[0]] + rest[0]] + rest[1..]
  }

  /** `parts.join(sep)`. */
  function Join(parts: seq<string>, sep: char): string
    requires |parts| > 0
  {
    if |parts| == 1 then parts[0] else parts[0] + [sep] + Join(parts[1..], sep)
  }

  /** Joining the pieces of a split gives back the original text. */
  lemma {:induction false} JoinSplit(s: string, sep: char)
    ensures Join(Split(s, sep), sep) == s
  {
    if |s| > 0 {
      var rest := Split(s[1..], sep);
      JoinSplit(s[1..], sep);
      if s[0] == sep {
        assert Split(s, sep)[1..] == rest;
        assert s == [sep] + s[1..];
      } else {
        var parts := Split(s, sep);
        if |rest| == 1 {
          assert parts == [[s[0]] + rest[0]];
        } else {
          assert parts[1..] == rest[1..];
          assert Join(rest, sep) == rest[0] + [sep] + Join(rest[1..], sep);
        }
      }
    }
  }

  /** A piece without the separator, the separator, and more text split into
      that piece followed by the pieces of the rest. */
  lemma {:induction false} SplitCons(a: string, b: string, sep: char)
    requires sep !in a
    ensures Split(a + [sep] + b, sep) == [a] + Split(b, sep)
  {
    if |a| > 0 {
      assert (a + [sep] + b)[1..] == a[1..] + [sep] + b;
      SplitCons(a[1..], b, sep);
      assert a == [a[0]] + a[1..];
    } else {
      assert a + [sep] + b == [sep] + b;
    }
  }

  /** Text without the separator splits into itself alone. */
  lemma {:induction false} SplitNone(a: string, sep: char)
    requires sep !in a
    ensures Split(a, sep) == [a]
  {
    if |a| > 0 {
      SplitNone(a[1..], sep);
      assert a == [a[0]] + a[1..];
    }
  }

  /** Splitting the join of separator-free pieces gives back the pieces. */
  lemma {:induction false} SplitJoin(parts: seq<string>, sep: char)
    requires |parts| > 0
    requires forall i :: 0 <= i < |parts| ==> sep !in parts[i]
    ensures Split(Join(parts, sep), sep) == parts
  {
    if |parts| == 1 {
      SplitNone(parts[0], sep);
    } else {
      SplitJoin(parts[1..], sep);
      SplitCons(parts[0], Join(parts[1..], sep), sep);
    }
  }
}
