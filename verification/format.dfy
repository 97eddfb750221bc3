/** `formatKeyForSequelize` and `formatValue`: the two formatting helpers
    every stage shares. */
module Format {
  import opened JsStrings
  import opened JsNumbers
  import opened QueryTypes

  /** `formatKeyForSequelize`: a dotted association path is wrapped in `$`
      so that Sequelize reads it as a nested column reference; any other name
      is used bare. */
  function FormatKey(key: string): (k: string)
    ensures UnformatKey(k) == key
    ensures k != key <==> '.' in key
    ensures '.' in k <==> '.' in key
  {
    if '.' in key then
      var k := "$" + key + "$";
      assert k[1..|k| - 1] == key;
      k
    else key
  }

  /** A dotted key is wrapped in exactly one `$` on each side, the
      nested-column syntax Sequelize reads. */
  lemma FormatKeyDollars(key: string)
    requires '.' in key
    ensures var k := FormatKey(key); |k| == |key| + 2 && k[0] == '$' && k[|k| - 1] == '$'
  {
  }

  /** Undoes `FormatKey`. */
  function UnformatKey(k: string): string {
    if '.' in k && |k| >= 2 then k[1..|k| - 1] else k
  }

  /** Distinct field names stay distinct once formatted. */
  lemma FormatKeyInjective(a: string, b: string)
    ensures FormatKey(a) == FormatKey(b) ==> a == b
  {
  }

  /** `formatValue`: numeric-looking strings are tagged as numbers, everything
      else stays a string; the text is never altered. */
  function Coerce(s: string): (v: Value)
    ensures v.text == s
    ensures ParseInt(s).Int? ==> v.Num?
  {
    if IsNumeric(s) then Num(s) else Str(s)
  }

  /** An integer's spelling is coerced to a number. */
  lemma CoerceShow(n: int)
    ensures Coerce(Show(n)) == Num(Show(n))
  {
    ShowIsNumeric(n);
  }

  /** A value whose first character can open no number stays a string. */
  lemma CoerceNonNumericStart(s: string)
    requires |s| > 0 && !IsJsSpace(s[0]) && !IsDigit(s[0])
    requires s[0] !in "+-.I"
    ensures Coerce(s) == Str(s)
  {
    assert TrimStart(s) == s;
    assert AfterSign(s) == s;
    assert !StartsWith(s, "Infinity") by {
      assert "Infinity"[0] == 'I';
    }
  }

  /** A value that opens with a digit is tagged as a number, whatever follows. */
  lemma CoerceDigitStart(s: string)
    requires |s| > 0 && IsDigit(s[0])
    ensures Coerce(s) == Num(s)
  {
    assert !IsJsSpace(s[0]);
    assert TrimStart(s) == s;
    assert AfterSign(s) == s;
  }

  /** The empty string and a value opening with a comparison sign stay strings,
      and so does an alphabetic word; a digit prefix is enough for a number tag
      even though `Number` of the whole text would be NaN. */
  lemma CoerceExamples()
    ensures Coerce("") == Str("")
    ensures Coerce(">1000") == Str(">1000")
    ensures Coerce("active") == Str("active")
    ensures Coerce("12abc") == Num("12abc")
  {
    CoerceNonNumericStart(">1000");
    CoerceNonNumericStart("active");
    CoerceDigitStart("12abc");
  }
}
