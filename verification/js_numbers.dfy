/** The two number readers the query compiler uses: `parseInt(s, 10)`, which
    yields an integer or NaN, and the `parseFloat` prefix test behind
    `isNumeric`. Numbers are unbounded integers; JavaScript's doubles are not
    modelled. */
module JsNumbers {
  import opened JsStrings

  /** A JavaScript number as far as pagination needs one: an integer or NaN. */
  datatype JsNum = Int(i: int) | NaN

  /** JavaScript truthiness of a number: NaN and 0 (also -0) are falsy. */
  predicate Truthy(n: JsNum) {
    n.Int? && n.i != 0
  }

  /** `a - b`, NaN-propagating. */
  function Sub(a: JsNum, b: JsNum): JsNum {
    if a.Int? && b.Int? then Int(a.i - b.i) else NaN
  }

  /** `a * b`, NaN-propagating. */
  function Mul(a: JsNum, b: JsNum): JsNum {
    if a.Int? && b.Int? then Int(a.i * b.i) else NaN
  }

  predicate IsDigit(ch: char) {
    '0' <= ch <= '9'
  }

  predicate AllDigits(s: string) {
    forall i :: 0 <= i < |s| ==> IsDigit(s[i])
  }

  function DigitValue(ch: char): nat
    requires IsDigit(ch)
  {
    (ch as int) - ('0' as int)
  }

  function DigitChar(d: nat): (ch: char)
    requires d < 10
    ensures IsDigit(ch) && DigitValue(ch) == d
  {
    (('0' as int) + d) as char
  }

  /** The longest run of decimal digits at the start of `s`. */
  function LeadingDigits(s: string): (ds: string)
    ensures StartsWith(s, ds)
    ensures AllDigits(ds)
    ensures |ds| == |s| || !IsDigit(s[|ds|])
    decreases |s|
  {
    if |s| > 0 && IsDigit(s[0]) then [s[0]] + LeadingDigits(s[1..]) else ""
  }

  /** The value of a decimal digit string, most significant digit first. */
  function DigitsValue(ds: string): nat
    requires AllDigits(ds)
    decreases |ds|
  {
    if |ds| == 0 then 0 else DigitsValue(ds[..|ds| - 1]) * 10 + DigitValue(ds[|ds| - 1])
  }

  /** Whether `t` opens with a minus sign. */
  predicate NegativeSign(t: string) {
    |t| > 0 && t[0] == '-'
  }

  /** What follows one optional sign character (`+` or `-`) at the start of `t`. */
  function AfterSign(t: string): string {
    if |t| > 0 && (t[0] == '-' || t[0] == '+') then t[1..] else t
  }

  /** `parseInt(s, 10)`: skip leading whitespace, read an optional sign and
      the longest digit run; NaN when there is no digit. Trailing characters
      are ignored. */
  function ParseInt(s: string): (r: JsNum)
    ensures r.NaN? <==> (var u := AfterSign(TrimStart(s)); |u| == 0 || !IsDigit(u[0]))
    ensures r.Int? && r.i < 0 ==> NegativeSign(TrimStart(s))
  {
    var t := TrimStart(s);
    var ds := LeadingDigits(AfterSign(t));
    if |ds| == 0 then NaN
    else
      var v: int := DigitsValue(ds);
      Int(if NegativeSign(t) then -v else v)
  }

  /** `isNumeric`: `typeof value === 'string'` holds for every value the
      compiler passes, and `Number.isNaN` of a string is always false, so the
      test reduces to `parseFloat` finding a numeric prefix: after whitespace
      and one optional sign, a digit, a `.` followed by a digit, or `Infinity`. */
  predicate IsNumeric(s: string): (b: bool)
    ensures ParseInt(s).Int? ==> b
  {
    var u := AfterSign(TrimStart(s));
    && |u| > 0
    && (|| IsDigit(u[0])
        || (|u| > 1 && u[0] == '.' && IsDigit(u[1]))
        || StartsWith(u, "Infinity"))
  }

  /** The decimal spelling of a natural number, without leading zeros. */
  function NatDigits(n: nat): (ds: string)
    ensures |ds| > 0 && AllDigits(ds)
    decreases n
  {
    if n < 10 then [DigitChar(n)] else NatDigits(n / 10) + [DigitChar(n % 10)]
  }

  /** The decimal spelling of an integer, `String(n)`. */
  function Show(n: int): string {
    if n < 0 then "-" + NatDigits(-n) else NatDigits(n)
  }

  lemma {:induction false} DigitsValueOfNatDigits(n: nat)
    ensures DigitsValue(NatDigits(n)) == n
    decreases n
  {
    if n >= 10 {
      DigitsValueOfNatDigits(n / 10);
      var ds := NatDigits(n);
      assert ds[..|ds| - 1] == NatDigits(n / 10);
    }
  }

  /** The leading digit run of a digit string followed by a non-digit is that string. */
  lemma {:induction false} LeadingDigitsOfDigits(ds: string, t: string)
    requires AllDigits(ds)
    requires |t| == 0 || !IsDigit(t[0])
    ensures LeadingDigits(ds + t) == ds
    decreases |ds|
  {
    if |ds| > 0 {
      LeadingDigitsOfDigits(ds[1..], t);
      assert (ds + t)[1..] == ds[1..] + t;
      assert [ds[0]] + ds[1..] == ds;
    }
  }

  /** A string starting with a sign or a digit has no leading whitespace. */
  lemma TrimStartAtSignOrDigit(s: string)
    requires |s| > 0 && (s[0] == '-' || IsDigit(s[0]))
    ensures TrimStart(s) == s
  {
    assert !IsJsSpace(s[0]);
  }

  /** `parseInt` of an unsigned digit string followed by a non-digit. */
  lemma ParseIntUnsigned(ds: string, t: string)
    requires |ds| > 0 && AllDigits(ds)
    requires |t| == 0 || !IsDigit(t[0])
    ensures ParseInt(ds + t) == Int(DigitsValue(ds))
  {
    var s := ds + t;
    assert s[0] == ds[0];
    TrimStartAtSignOrDigit(s);
    assert AfterSign(s) == s;
    LeadingDigitsOfDigits(ds, t);
  }

  /** `parseInt` of a string with no leading whitespace, a minus sign and digits. */
  lemma ParseIntAfterMinus(s: string, ds: string)
    requires |ds| > 0 && AllDigits(ds)
    requires TrimStart(s) == s && NegativeSign(s) && LeadingDigits(AfterSign(s)) == ds
    ensures ParseInt(s) == Int(-(DigitsValue(ds) as int))
  {
  }

  lemma MinusPrefix(u: string)
    ensures TrimStart("-" + u) == "-" + u
    ensures NegativeSign("-" + u) && AfterSign("-" + u) == u
  {
    var s := "-" + u;
    assert s[0] == '-' && s[1..] == u;
    TrimStartAtSignOrDigit(s);
  }

  /** `parseInt` of a negated digit string followed by a non-digit. */
  lemma ParseIntNegative(ds: string, t: string)
    requires |ds| > 0 && AllDigits(ds)
    requires |t| == 0 || !IsDigit(t[0])
    ensures ParseInt("-" + (ds + t)) == Int(-(DigitsValue(ds) as int))
  {
    MinusPrefix(ds + t);
    LeadingDigitsOfDigits(ds, t);
    ParseIntAfterMinus("-" + (ds + t), ds);
  }

  /** `parseInt` reads back what `String` wrote, ignoring whatever non-digit
      text follows. */
  lemma ParseIntShowThen(n: int, t: string)
    requires |t| == 0 || !IsDigit(t[0])
    ensures ParseInt(Show(n) + t) == Int(n)
  {
    if n < 0 {
      ParseIntShowNegative(n, t);
    } else {
      ParseIntShowNat(n, t);
    }
  }

  lemma ParseIntShowNegative(n: int, t: string)
    requires n < 0 && (|t| == 0 || !IsDigit(t[0]))
    ensures ParseInt(Show(n) + t) == Int(n)
  {
    var ds := ShowNegativeForm(n);
    assert Show(n) + t == "-" + (ds + t);
    ParseIntMinusDigitsThen(Show(n) + t, ds, t);
  }

  /** The spelling of a negative integer is a minus sign and the digits of its magnitude. */
  lemma ShowNegativeForm(n: int) returns (ds: string)
    requires n < 0
    ensures Show(n) == "-" + ds && |ds| > 0 && AllDigits(ds) && DigitsValue(ds) == -n
  {
    ds := NatDigits(-n);
    DigitsValueOfNatDigits(-n);
  }

  lemma ParseIntMinusDigitsThen(s: string, ds: string, t: string)
    requires |ds| > 0 && AllDigits(ds) && (|t| == 0 || !IsDigit(t[0]))
    requires s == "-" + (ds + t)
    ensures ParseInt(s) == Int(-(DigitsValue(ds) as int))
  {
    ParseIntNegative(ds, t);
  }

  lemma ParseIntShowNat(m: nat, t: string)
    requires |t| == 0 || !IsDigit(t[0])
    ensures ParseInt(Show(m) + t) == Int(m)
  {
    var ds := NatDigits(m);
    DigitsValueOfNatDigits(m);
    ParseIntUnsigned(ds, t);
  }

  /** `parseInt(String(n), 10) === n`. */
  lemma ParseIntShow(n: int)
    ensures ParseInt(Show(n)) == Int(n)
  {
    ParseIntShowThen(n, "");
    assert Show(n) + "" == Show(n);
  }

  /** `parseInt` of a string with no leading whitespace, no minus sign and a digit run. */
  lemma ParseIntAfterNoMinus(s: string, ds: string)
    requires |ds| > 0 && AllDigits(ds)
    requires TrimStart(s) == s && !NegativeSign(s) && LeadingDigits(AfterSign(s)) == ds
    ensures ParseInt(s) == Int(DigitsValue(ds))
  {
  }

  /** `parseInt` of a single digit. */
  lemma ParseIntDigit(s: string)
    requires |s| == 1 && IsDigit(s[0])
    ensures ParseInt(s) == Int(DigitValue(s[0]))
  {
    ParseIntUnsigned(s, "");
    assert s + "" == s;
    assert s[..0] == "";
    assert DigitsValue(s) == DigitValue(s[0]);
  }

  /** The literals the pagination defaults and sentinel are spelt with. */
  lemma ParseIntZero()
    ensures ParseInt("0") == Int(0)
  {
    ParseIntDigit("0");
  }

  lemma ParseIntOne()
    ensures ParseInt("1") == Int(1)
  {
    ParseIntDigit("1");
  }

  lemma ParseIntTwentyFive()
    ensures ParseInt("25") == Int(25)
  {
    assert TrimStart("25") == "25" && !NegativeSign("25") by {
      assert !IsJsSpace('2');
    }
    assert LeadingDigits(AfterSign("25")) == "25" by {
      assert AfterSign("25") == "25";
    }
    assert DigitsValue("25") == 25;
    ParseIntAfterNoMinus("25", "25");
  }

  lemma ParseIntMinusOne()
    ensures ParseInt("-1") == Int(-1)
  {
    assert TrimStart("-1") == "-1" && NegativeSign("-1") by {
      assert !IsJsSpace('-');
    }
    assert LeadingDigits(AfterSign("-1")) == "1" by {
      assert AfterSign("-1") == "1";
    }
    assert DigitsValue("1") == 1;
    ParseIntAfterMinus("-1", "1");
  }

  /** The converse of `IsNumeric`'s contract fails: `.5` passes the numeric
      test but `parseInt` gives NaN. */
  lemma NumericWithoutInteger()
    ensures IsNumeric(".5") && ParseInt(".5") == NaN
  {
    assert TrimStart(".5") == ".5";
    assert AfterSign(".5") == ".5";
    assert LeadingDigits(".5") == "";
  }

  /** Every integer's spelling passes the numeric test. */
  lemma ShowIsNumeric(n: int)
    ensures IsNumeric(Show(n))
  {
    ParseIntShow(n);
  }
}
