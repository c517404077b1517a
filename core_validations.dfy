/**
 * The numeric coercions of app/core/validations.ts and `badRequest`.
 *
 * A value reaching these schemas is a JavaScript number (an integer, or a
 * number with a fractional part whose value the model does not track), a
 * string, or absent. `Number(s)` is modelled only on all-digit strings; any
 * other string that passes the digit test is `Unknown`.
 */
module CoreValidations {
  import opened Wrappers
  import opened Http
  import JsString

  datatype JsValue = Number(n: int) | NonInteger | Text(s: string) | Missing

  /** A coerced number: a known integer, or the value of a string `Number` parses in a way the model leaves out. */
  datatype Numeric = Known(n: int) | Unknown

  /** The outcome of PositiveIntSchema and PerhapsZeroIntSchema; Undetermined only for `Unknown` values. */
  datatype Verdict = Accepted(n: int) | Refused | Undetermined

  /** `z.string().regex(/\d+/).transform(Number)`. */
  function StringNumber(v: JsValue): (r: Result<Numeric, string>)
    ensures v.Text? ==> (r.Success? <==> JsString.HasDigit(v.s))
    ensures v.Text? && JsString.HasDigit(v.s) && !JsString.AllDigits(v.s) ==> r == Success(Unknown)
    ensures v.Text? && v.s != [] && JsString.AllDigits(v.s) ==> r == Success(Known(JsString.DecimalValue(v.s)))
    ensures !v.Text? ==> r.Failure?
  {
    match v
    case Text(s) =>
      if !JsString.HasDigit(s) then Failure("Invalid")
      else if JsString.AllDigits(s) then Success(Known(JsString.DecimalValue(s)))
      else Success(Unknown)
    case _ => Failure("Expected string")
  }

  /** `z.number().int().min(min).or(StringNumber)`: the first alternative that parses wins. */
  function IntOrStringNumber(min: int, v: JsValue): Result<Numeric, string> {
    if v.Number? && v.n >= min then Success(Known(v.n))
    else match StringNumber(v)
      case Success(x) => Success(x)
      case Failure(_) => Failure("Invalid input")
  }

  /** `.refine((n) => n > 0)`, run only when the union parsed. */
  function RefinePositive(r: Result<Numeric, string>): Verdict {
    match r
    case Failure(_) => Refused
    case Success(Known(n)) => if n > 0 then Accepted(n) else Refused
    case Success(Unknown) => Undetermined
  }

  /**
   * `PositiveIntSchema`: only a value of at least 1 is ever accepted, a
   * value that is neither a number nor a string never is, and only a string
   * with a digit that is not all digits is left undecided.
   */
  function PositiveInt(v: JsValue): (r: Verdict)
    ensures r.Accepted? ==> r.n >= 1
    ensures v.Missing? || v.NonInteger? ==> r == Refused
    ensures v.Number? ==> r != Undetermined
    ensures r.Undetermined? <==> v.Text? && JsString.HasDigit(v.s) && !JsString.AllDigits(v.s)
  {
    RefinePositive(IntOrStringNumber(1, v))
  }

  /** `PerhapsZeroIntSchema`: although `.min(0)` lets 0 through, the refine never accepts it. */
  function PerhapsZeroInt(v: JsValue): (r: Verdict)
    ensures r.Accepted? ==> r.n >= 1
    ensures v == Number(0) ==> r == Refused
    ensures v.Missing? || v.NonInteger? ==> r == Refused
  {
    RefinePositive(IntOrStringNumber(0, v))
  }

  /** The digit test is unanchored: one digit among other characters passes it. */
  lemma StringNumberUnanchored()
    ensures StringNumber(Text("id-7")).Success?
  {
    assert JsString.IsDigit("id-7"[3]);
  }

  /** PositiveIntSchema accepts an integer number exactly when it is at least 1, unchanged. */
  lemma PositiveIntOnNumbers(i: int)
    ensures PositiveInt(Number(i)) == if i >= 1 then Accepted(i) else Refused
  {
  }

  /** PositiveIntSchema accepts a non-empty all-digit string exactly when its value is positive. */
  lemma PositiveIntOnDigits(s: string)
    requires s != [] && JsString.AllDigits(s)
    ensures PositiveInt(Text(s)) == if JsString.DecimalValue(s) > 0 then Accepted(JsString.DecimalValue(s)) else Refused
  {
    assert JsString.IsDigit(s[0]);
  }

  lemma ZeroStringsRefused()
    ensures PositiveInt(Text("0")) == Refused
    ensures PositiveInt(Text("000")) == Refused
  {
    PositiveIntOnDigits("0");
    PositiveIntOnDigits("000");
  }

  /** Despite its `min(0)`, PerhapsZeroIntSchema refuses 0, and it decides every input as PositiveIntSchema does. */
  lemma PerhapsZeroIsPositive(v: JsValue)
    ensures PerhapsZeroInt(Number(0)) == Refused
    ensures PerhapsZeroInt(v) == PositiveInt(v)
  {
  }

  /** Every rendered id from 1 up reads back as that id. */
  lemma PositiveIntReadsIds(n: nat)
    requires n >= 1
    ensures PositiveInt(Text(JsString.NatToString(n))) == Accepted(n)
  {
    JsString.DecimalRoundTrip(n);
    PositiveIntOnDigits(JsString.NatToString(n));
  }

  /** `badRequest(data)`: the data, unchanged, with status 400. */
  function BadRequest<P>(data: ActionData): (r: Response<P>)
    ensures Status(r) == 400 && r.data == data
  {
    Rejected(data)
  }
}
