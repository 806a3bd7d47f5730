/**
 * The type inference `QJsonModel.setData` applies to text typed into the value column.
 * Digits are the ASCII digits '0' to '9'.
 */
module EditText {
  import opened JsonValue

  predicate IsDigit(c: char) {
    '0' <= c <= '9'
  }

  /** `str.isdigit()`: the text is non-empty and made of digits only. */
  predicate IsDigits(s: string) {
    |s| > 0 && forall i | 0 <= i < |s| :: IsDigit(s[i])
  }

  /** `int(s)` for text made of digits (leading zeros allowed). */
  function DigitsValue(s: string): nat
    requires forall i | 0 <= i < |s| :: IsDigit(s[i])
  {
    if s == [] then 0
    else
      assert IsDigit(s[|s| - 1]);
      10 * DigitsValue(s[..|s| - 1]) + (s[|s| - 1] as int - '0' as int)
  }

  function DigitChar(d: nat): (c: char)
    requires d < 10
    ensures IsDigit(c) && c as int - '0' as int == d
  {
    ('0' as int + d) as char
  }

  /** `str(n)` for a natural number: its decimal spelling without leading zeros. */
  function Decimal(n: nat): (s: string)
    ensures IsDigits(s)
    ensures s[0] == '0' ==> n == 0 && s == "0"
  {
    if n < 10 then [DigitChar(n)]
    else
      var s := Decimal(n / 10) + [DigitChar(n % 10)];
      assert s[0] == Decimal(n / 10)[0];
      s
  }

  /** Reading back the decimal spelling of a number gives the number. */
  lemma {:induction false} DecimalRoundTrip(n: nat)
    ensures DigitsValue(Decimal(n)) == n
  {
    if n >= 10 {
      DecimalRoundTrip(n / 10);
      var s := Decimal(n);
      assert s[..|s| - 1] == Decimal(n / 10);
    }
  }

  /** The value and type tag `setData` stores for a value-column edit. */
  datatype Inferred = Inferred(value: Json, tag: Tag)

  /**
   * The precedence of `setData`: digit text becomes an int, exactly "null" becomes None,
   * "true"/"True" and "false"/"False" become booleans, any other text stays a string. The
   * type stored for "null" is None itself, not `type(None)`.
   */
  function Infer(text: string): (r: Inferred)
    ensures !IsContainer(r.value)
    ensures r.value.JInt? <==> IsDigits(text)
    ensures IsDigits(text) ==> r.value == JInt(DigitsValue(text))
    ensures r.value.JStr? <==> !IsDigits(text) && text !in {"null", "true", "True", "false", "False"}
    ensures r.value.JStr? ==> r.value.s == text
    ensures r.value == JNull <==> text == "null"
    ensures r.value == JBool(true) <==> text == "true" || text == "True"
    ensures r.value == JBool(false) <==> text == "false" || text == "False"
    ensures r.tag == (if r.value == JNull then NoType else TypeOf(r.value))
  {
    if IsDigits(text) then Inferred(JInt(DigitsValue(text)), IntType)
    else if text == "null" then Inferred(JNull, NoType)
    else if text == "true" || text == "True" then Inferred(JBool(true), BoolType)
    else if text == "false" || text == "False" then Inferred(JBool(false), BoolType)
    else Inferred(JStr(text), StrType)
  }

  /** Typing the decimal spelling of a natural number stores that number as an int. */
  lemma InferDecimal(n: nat)
    ensures Infer(Decimal(n)) == Inferred(JInt(n), IntType)
  {
    DecimalRoundTrip(n);
  }
}
