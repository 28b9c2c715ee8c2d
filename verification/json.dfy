/** The JSON scalar values a company record carries, and the two ways the
    script turns them into text: Python's `str` and the CSV writer's cell
    conversion. */
module Json {
  import Wrappers
  import Decimal

  /** A JSON scalar as Python's `json` module decodes it (floats are not modelled). */
  datatype Scalar = Null | Str(s: string) | Int(i: int) | Bool(b: bool)

  /** Python's `str(v)`: `None`, the string itself, the decimal digits, `True`/`False`. */
  function PyStr(v: Scalar): string {
    match v
    case Null => "None"
    case Str(s) => s
    case Int(i) => Decimal.DecimalString(i)
    case Bool(b) => if b then "True" else "False"
  }

  /** The text `csv.DictWriter` writes for a cell: `None` becomes the empty
      string, every other value is written as `str` of it. */
  function CellText(v: Scalar): (t: string)
    ensures v.Str? ==> t == v.s
    ensures v.Null? ==> t == ""
    ensures !v.Null? ==> t == PyStr(v)
    ensures t == "" <==> v == Null || v == Str("")
    ensures v.Int? ==> Decimal.ParseDecimal(t) == Wrappers.Some(v.i)
  {
    if v.Null? then ""
    else if v.Int? then
      Decimal.ParseDecimalString(v.i);
      PyStr(v)
    else PyStr(v)
  }

  /** An integer and its decimal spelling have the same `str`, and no other
      integer shares it. */
  lemma IntAndDecimalStringAgree(n: int, m: int)
    ensures PyStr(Int(n)) == PyStr(Str(Decimal.DecimalString(n)))
    ensures PyStr(Int(m)) == PyStr(Str(Decimal.DecimalString(n))) <==> m == n
  {
    if PyStr(Int(m)) == PyStr(Str(Decimal.DecimalString(n))) {
      Decimal.DecimalStringInjective(m, n);
    }
  }

  lemma PyStrExamples()
    ensures PyStr(Int(42)) == "42"
    ensures PyStr(Int(-7)) == "-7"
    ensures PyStr(Null) == "None"
  {
    assert Decimal.Natural(4) == "4";
    assert Decimal.Natural(42) == Decimal.Natural(4) + "2";
  }
}
