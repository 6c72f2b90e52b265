/**
 * JavaScript numbers as the two components use them: `parseInt` and
 * `parseFloat` on decimal text, `toFixed(2)` of a byte count divided by
 * 1024, and `toFixed(1)` of an average or a rate. Values are exact
 * rationals; NaN is kept because it is what unparsable text yields.
 */
module Numbers {

  /** A number: NaN, or a finite exact value. */
  datatype Num = NaN | Fin(v: real)

  /** `a + b`: NaN as soon as either side is NaN. */
  function Add(a: Num, b: Num): Num
  {
    if a.Fin? && b.Fin? then Fin(a.v + b.v) else NaN
  }

  lemma AddAssociative(a: Num, b: Num, c: Num)
    ensures Add(Add(a, b), c) == Add(a, Add(b, c))
  {
  }

  lemma AddCommutative(a: Num, b: Num)
    ensures Add(a, b) == Add(b, a)
  {
  }

  /** `a / n` for a positive count `n`. */
  function DivCount(a: Num, n: nat): Num
    requires n > 0
  {
    if a.Fin? then Fin(a.v / n as real) else NaN
  }

  // ---------------------------------------------------------------- digits

  predicate IsDigit(c: char)
  {
    '0' <= c <= '9'
  }

  predicate AllDigits(s: string)
  {
    forall i | 0 <= i < |s| :: IsDigit(s[i])
  }

  /** The value of a decimal digit character (0 for any other character). */
  function DigitValue(c: char): nat
  {
    if IsDigit(c) then c as int - '0' as int else 0
  }

  function DigitChar(d: nat): (c: char)
    requires d < 10
    ensures IsDigit(c) && DigitValue(c) == d
  {
    ('0' as int + d) as char
  }

  /** The value of a decimal digit string, most significant digit first. */
  function DigitsValue(s: string): nat
  {
    if s == [] then 0 else DigitsValue(s[..|s| - 1]) * 10 + DigitValue(s[|s| - 1])
  }

  /** The value of the digits after a decimal point: "25" is 0.25. */
  function FractionValue(f: string): real
  {
    if f == [] then 0.0 else (DigitValue(f[0]) as real + FractionValue(f[1..])) / 10.0
  }

  /** The length of the run of decimal digits at the front of `s`. */
  function DigitSpan(s: string): (n: nat)
    ensures n <= |s|
  {
    if s != [] && IsDigit(s[0]) then 1 + DigitSpan(s[1..]) else 0
  }

  /** The leading run is all digits, and it stops at a non-digit or at the end. */
  lemma {:induction false} DigitSpanIsRun(s: string)
    ensures AllDigits(s[..DigitSpan(s)])
    ensures DigitSpan(s) < |s| ==> !IsDigit(s[DigitSpan(s)])
  {
    if s != [] && IsDigit(s[0]) {
      DigitSpanIsRun(s[1..]);
      assert s[..DigitSpan(s)] == [s[0]] + s[1..][..DigitSpan(s[1..])];
    }
  }

  /** A digit run followed by a non-digit (or nothing) is exactly the leading run. */
  lemma {:induction false} DigitSpanOfDigits(s: string, t: string)
    requires AllDigits(s)
    requires t == [] || !IsDigit(t[0])
    ensures DigitSpan(s + t) == |s|
  {
    if s == [] {
      assert s + t == t;
    } else {
      assert (s + t)[1..] == s[1..] + t;
      DigitSpanOfDigits(s[1..], t);
    }
  }

  /** The shortest decimal numeral of `n` (no leading zeros). */
  function NatToString(n: nat): (s: string)
    ensures |s| >= 1 && AllDigits(s)
    ensures DigitsValue(s) == n
    ensures |s| > 1 ==> s[0] != '0'
  {
    if n < 10 then [DigitChar(n)]
    else
      var s := NatToString(n / 10) + [DigitChar(n % 10)];
      assert s[..|s| - 1] == NatToString(n / 10);
      s
  }

  // ------------------------------------------------------- parseInt / parseFloat

  /** The white space and line terminators that number parsing skips in front. */
  predicate IsStrWhiteSpace(c: char)
  {
    var k := c as int;
    k == 0x09 || k == 0x0A || k == 0x0B || k == 0x0C || k == 0x0D || k == 0x20 ||
    k == 0xA0 || k == 0x1680 || (0x2000 <= k <= 0x200A) || k == 0x2028 || k == 0x2029 ||
    k == 0x202F || k == 0x205F || k == 0x3000 || k == 0xFEFF
  }

  /** The number of white space characters at the front of `s`. */
  function LeadingSpace(s: string): (n: nat)
    ensures n <= |s|
  {
    if s != [] && IsStrWhiteSpace(s[0]) then 1 + LeadingSpace(s[1..]) else 0
  }

  /** `s` without its leading white space. */
  function TrimStart(s: string): string
  {
    s[LeadingSpace(s)..]
  }

  /** Trimming removes a run of white space and stops at the first other character. */
  lemma {:induction false} TrimStartRemovesWhiteSpace(s: string)
    ensures var n := LeadingSpace(s);
      && TrimStart(s) == s[n..]
      && (forall i | 0 <= i < n :: IsStrWhiteSpace(s[i]))
      && (n < |s| ==> !IsStrWhiteSpace(s[n]))
  {
    if s != [] && IsStrWhiteSpace(s[0]) {
      TrimStartRemovesWhiteSpace(s[1..]);
    }
  }

  /** An optional leading sign: whether it is a minus, and the text after it. */
  function SplitSign(s: string): (bool, string)
  {
    if s != [] && s[0] == '-' then (true, s[1..])
    else if s != [] && s[0] == '+' then (false, s[1..])
    else (false, s)
  }

  function Signed(negative: bool, m: real): real
  {
    if negative then -m else m
  }

  /**
   * `parseInt(s)` in base 10: the leading digit run after white space and
   * an optional sign; NaN when there is no digit.
   */
  function ParseInt(s: string): (r: Num)
  {
    var signed := SplitSign(TrimStart(s));
    UnsignedInt(signed.0, signed.1)
  }

  /** The integer part of `parseInt`, once white space and sign are gone. */
  function UnsignedInt(negative: bool, u: string): Num
  {
    var n := DigitSpan(u);
    if n == 0 then NaN else Fin(Signed(negative, DigitsValue(u[..n]) as real))
  }

  /** The digits right after a leading '.', or nothing when `s` does not start with one. */
  function FractionDigits(s: string): (f: string)
  {
    if s != [] && s[0] == '.' then s[1..][..DigitSpan(s[1..])] else []
  }

  /**
   * `parseFloat(s)`: white space, an optional sign, an integer digit run and
   * an optional '.' with a fraction digit run, at least one digit in all;
   * whatever follows is ignored; NaN when there is no digit.
   */
  function ParseFloat(s: string): (r: Num)
  {
    var signed := SplitSign(TrimStart(s));
    UnsignedDecimal(signed.0, signed.1)
  }

  /** The decimal part of `parseFloat`, once white space and sign are gone. */
  function UnsignedDecimal(negative: bool, u: string): Num
  {
    var n := DigitSpan(u);
    var frac := FractionDigits(u[n..]);
    if n == 0 && frac == [] then NaN
    else Fin(Signed(negative, DigitsValue(u[..n]) as real + FractionValue(frac)))
  }

  /** The decimal numeral of an integer, with a leading '-' when negative. */
  function IntToString(i: int): (s: string)
  {
    if i < 0 then "-" + NatToString(-i) else NatToString(i)
  }

  lemma TrimStartKeeps(s: string)
    requires s != [] && !IsStrWhiteSpace(s[0])
    ensures TrimStart(s) == s
  {
    assert LeadingSpace(s) == 0;
  }

  /** The integer part of `parseInt` reads a whole digit string. */
  lemma UnsignedIntOfDigits(negative: bool, digits: string)
    requires digits != [] && AllDigits(digits)
    ensures UnsignedInt(negative, digits) == Fin(Signed(negative, DigitsValue(digits) as real))
  {
    DigitSpanOfDigits(digits, []);
    assert digits + [] == digits;
    assert digits[..|digits|] == digits;
  }

  /** `parseInt` reads back every integer written in decimal. */
  lemma ParseIntOfIntToString(i: int)
    ensures ParseInt(IntToString(i)) == Fin(i as real)
  {
    var m: nat := if i < 0 then -i else i;
    var digits := NatToString(m);
    var s := IntToString(i);
    UnsignedIntOfDigits(i < 0, digits);
    assert IsDigit(digits[0]);
    if i < 0 {
      assert s == "-" + digits;
      assert s[0] == '-' && s[1..] == digits;
      TrimStartKeeps(s);
      assert SplitSign(TrimStart(s)) == (true, digits);
    } else {
      assert s == digits;
      TrimStartKeeps(s);
      assert SplitSign(TrimStart(s)) == (false, digits);
    }
  }

  /** A missing or empty quantity is read as `parseInt('0')`, which is 0. */
  lemma ParseIntZero()
    ensures ParseInt("0") == Fin(0.0)
  {
    ParseIntOfIntToString(0);
    assert IntToString(0) == "0";
  }

  /** A missing or empty price is read as `parseFloat('0')`, which is 0. */
  lemma ParseFloatZero()
    ensures ParseFloat("0") == Fin(0.0)
  {
    var s := "0";
    TrimStartKeeps(s);
    assert SplitSign(s) == (false, s);
    DigitSpanOfDigits(s, []);
    assert s + [] == s;
    assert s[1..] == [];
    assert FractionDigits([]) == [];
    assert s[..1] == s;
    assert DigitsValue(s) == 0;
  }

  // ------------------------------------------------------------------ toFixed

  /**
   * `(bytes / 1024).toFixed(2)` as a number of hundredths. `bytes / 1024` is
   * exact in binary floating point, and toFixed takes the nearest hundredth
   * of that exact value, the larger one on a tie.
   */
  function KiloHundredths(bytes: nat): (h: nat)
    ensures (h as real) / 100.0 - 0.005 <= (bytes as real) / 1024.0 < (h as real) / 100.0 + 0.005
  {
    var h := (100 * bytes + 512) / 1024;
    assert 1024 * h <= 100 * bytes + 512 < 1024 * h + 1024;
    assert (1024 * h) as real <= (100 * bytes + 512) as real < (1024 * h + 1024) as real;
    h
  }

  /** `x.toFixed(2)` for the value `h / 100`: the integer part, a '.', two digits. */
  function Fixed2ToString(h: nat): (s: string)
  {
    NatToString(h / 100) + "." + [DigitChar(h % 100 / 10), DigitChar(h % 10)]
  }

  /** No character of a `toFixed(2)` string is white space, so a " KB" suffix is found at its end. */
  lemma Fixed2HasNoSpace(h: nat)
    ensures forall i | 0 <= i < |Fixed2ToString(h)| :: Fixed2ToString(h)[i] != ' '
  {
  }

  /** `parseFloat` reads back the value `h / 100` from its `toFixed(2)` text. */
  lemma ParseFloatOfFixed2(h: nat)
    ensures ParseFloat(Fixed2ToString(h)) == Fin(h as real / 100.0)
  {
    var q, m := h / 100, h % 100;
    var ip := NatToString(q);
    var fp := [DigitChar(m / 10), DigitChar(h % 10)];
    var s := Fixed2ToString(h);
    assert s == ip + ("." + fp);
    TrimStartKeeps(s);
    assert SplitSign(s) == (false, s);
    DigitSpanOfDigits(ip, "." + fp);
    assert s[..|ip|] == ip;
    assert s[|ip|..] == "." + fp;
    assert FractionDigits("." + fp) == fp by {
      assert ("." + fp)[1..] == fp;
      DigitSpanOfDigits(fp, []);
      assert fp + [] == fp;
      assert fp[..|fp|] == fp;
    }
    assert FractionValue(fp) == (m as real) / 100.0 by {
      assert fp[1..][1..] == [];
      assert FractionValue(fp[1..]) == (h % 10) as real / 10.0;
      assert h % 10 == m % 10 && m == 10 * (m / 10) + m % 10;
    }
    assert h == 100 * q + m;
    assert h as real == 100.0 * (q as real) + m as real;
  }

  /** What `x.toFixed(1)` prints: "NaN", or a sign and a number of tenths. */
  datatype Fixed1 = NaNText | Tenths(negative: bool, tenths: nat)

  /**
   * `x.toFixed(1)`: the magnitude is rounded to the nearest tenth, the larger
   * one on a tie, and the sign is kept when `x` is below zero.
   */
  function ToFixed1(x: Num): (f: Fixed1)
    ensures x.NaN? <==> f.NaNText?
    ensures f.Tenths? ==> f.negative == (x.v < 0.0)
    ensures f.Tenths? ==> var a := if x.v < 0.0 then -x.v else x.v;
      (f.tenths as real) / 10.0 - 0.05 <= a < (f.tenths as real) / 10.0 + 0.05
  {
    if x.NaN? then NaNText
    else
      var a := if x.v < 0.0 then -x.v else x.v;
      Tenths(x.v < 0.0, (a * 10.0 + 0.5).Floor as nat)
  }

  lemma NonNegativeFactor(a: real, w: real)
    requires w > 0.0 && a * w >= 0.0
    ensures a >= 0.0
  {
  }

  /** A percentage of `part` in `whole` is printed as between 0.0 and 100.0. */
  lemma {:induction false} PercentFixed1Bounds(part: nat, whole: nat)
    requires part <= whole && whole > 0
    ensures var f := ToFixed1(Fin((part as real) / (whole as real) * 100.0));
      f.Tenths? && !f.negative && f.tenths <= 1000
  {
    var x := (part as real) / (whole as real);
    var w := whole as real;
    assert x * w == part as real;
    assert (1.0 - x) * w == w - x * w;
    NonNegativeFactor(1.0 - x, w);
    assert 0.0 <= x <= 1.0;
    assert 0.0 <= x * 100.0 * 10.0 + 0.5 < 1001.0;
  }
}
