/**
 * Values read out of parsed JSON (request bodies, token claims, identity
 * provider payloads) with the three JavaScript conversions the handlers apply
 * to them: truthiness, String(v) and Number(v).
 */
module JsValue {
  import opened Wrappers
  import opened JsText

  /**
   * A JSON value. Numbers are integers (fractional numbers are not modelled);
   * an object or array is kept only through the text String() gives it
   * ("[object Object]", or the comma-joined elements of an array).
   */
  datatype Json = JNull | JBool(b: bool) | JNum(n: int) | JStr(s: string) | JComposite(text: string)

  /** JavaScript truthiness of a property read; None is `undefined`. */
  predicate Truthy(v: Option<Json>) {
    match v
    case None => false
    case Some(JNull) => false
    case Some(JBool(b)) => b
    case Some(JNum(n)) => n != 0
    case Some(JStr(s)) => s != []
    case Some(JComposite(_)) => true
  }

  /**
   * String(v). A number written out is read back by Number() as the same
   * number.
   */
  function ToJsString(v: Json): (r: string)
    ensures v.JNum? ==> StringToNumber(r) == Some(v.n)
  {
    match v
    case JNull => "null"
    case JBool(b) => if b then "true" else "false"
    case JNum(n) =>
      if n < 0 then
        var d := Decimal(-n);
        var t := "-" + d;
        DecimalValue(-n);
        assert t[0] == '-' && t[1..] == d;
        NegativeText(t, d);
        t
      else
        DecimalValue(n);
        DigitsText(Decimal(n));
        Decimal(n)
    case JStr(s) => s
    case JComposite(text) => text
  }

  /**
   * Number(s) for a string: surrounding white space is ignored, the empty
   * string is 0, otherwise an optional sign followed by decimal digits only.
   * None stands for NaN.
   */
  function StringToNumber(s: string): (r: Option<int>)
    ensures Trim(s) == [] ==> r == Some(0)
    ensures r.None? <==> Trim(s) != [] && (DropSign(Trim(s)) == [] || !AllDigits(DropSign(Trim(s))))
  {
    var t := Trim(s);
    var body := DropSign(t);
    if t == [] then Some(0)
    else if body == [] || !AllDigits(body) then None
    else if t[0] == '-' then Some(0 - DigitsValue(body))
    else Some(DigitsValue(body))
  }

  /**
   * Number(v); None stands for NaN. Apart from null and the booleans, it is
   * Number() of the text String() gives the value.
   */
  function ToNumber(v: Json): (r: Option<int>)
    ensures !v.JNull? && !v.JBool? ==> r == StringToNumber(ToJsString(v))
  {
    match v
    case JNull => Some(0)
    case JBool(b) => Some(if b then 1 else 0)
    case JNum(n) => Some(n)
    case JStr(s) => StringToNumber(s)
    case JComposite(text) => StringToNumber(text)
  }

  /** A run of digits is already trimmed and carries no sign. */
  lemma DigitsText(d: string)
    requires d != [] && AllDigits(d)
    ensures Trim(d) == d && DropSign(d) == d && d[0] != '-'
  {
    assert IsDigit(d[0]) && IsDigit(d[|d| - 1]);
    TrimmedText(d);
  }

  /** A minus sign before a run of digits survives trimming and is the only thing DropSign removes. */
  lemma NegativeText(t: string, d: string)
    requires d != [] && AllDigits(d)
    requires |t| == |d| + 1 && t[0] == '-' && t[1..] == d
    ensures Trim(t) == t && DropSign(t) == d
  {
    assert t[|t| - 1] == d[|d| - 1] && IsDigit(d[|d| - 1]);
    TrimmedText(t);
  }

  lemma TrimmedText(s: string)
    requires s != [] && !IsSpace(s[0]) && !IsSpace(s[|s| - 1])
    ensures Trim(s) == s
  {
    assert IsTrimmed(s);
  }
}
