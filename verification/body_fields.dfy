/**
 * Values of a request body as the handlers see them, and how the store casts them to the
 * schema's types: JavaScript truthiness of optional strings, and the `Number` cast of a field
 * that may arrive as text (form fields always do) or as a JSON number.
 */
module BodyFields {
  import opened Wrappers
  import opened Numbers

  /** JavaScript truthiness of an optional string field. */
  predicate Truthy(f: Option<string>)
  {
    f.Some? && f.value != ""
  }

  /** `f || fallback` for an optional string field. */
  function OrElse(f: Option<string>, fallback: string): (r: string)
    ensures Truthy(f) ==> r == f.value
    ensures !Truthy(f) ==> r == fallback
  {
    if Truthy(f) then f.value else fallback
  }

  /** A numeric body field: absent, a string, or a JSON number. */
  datatype NumberField = NoNumber | NumberText(text: string) | NumberValue(n: int)

  /** The outcome of casting a body value to the schema's `Number` type. */
  datatype NumberCast = Missing | Cast(value: int) | CastFailed

  /** Mongoose's number cast: the empty string is no value, other strings go through
      `Number` (so blanks read as 0 and non-numerals fail), numbers stay as they are. */
  function CastNumber(f: NumberField): (c: NumberCast)
    ensures f.NoNumber? ==> c == Missing
    ensures f.NumberValue? ==> c == Cast(f.n)
    ensures f.NumberText? && f.text == "" ==> c == Missing
    ensures f.NumberText? && f.text != "" ==>
      (c.Cast? <==> NumberOf(f.text).Int?) && (c.Cast? ==> c.value == NumberOf(f.text).v)
  {
    match f
    case NoNumber => Missing
    case NumberValue(n) => Cast(n)
    case NumberText(s) =>
      if s == "" then Missing
      else match NumberOf(s)
        case Int(v) => Cast(v)
        case NaN => CastFailed
  }

  /** JavaScript truthiness of the field: a non-empty string or a non-zero number. */
  predicate NumberTruthy(f: NumberField)
  {
    (f.NumberText? && f.text != "") || (f.NumberValue? && f.n != 0)
  }

  /** A number sent as its decimal text casts to that number. */
  lemma TextCasts(n: int)
    ensures CastNumber(NumberText(IntToDecimal(n))) == Cast(n)
  {
    NumberOfRoundTrip(n);
  }

  /** An optionally signed run of digits casts to its value. */
  lemma SignedDigitsCast(s: string)
    requires |Unsigned(s)| > 0 && AllDigits(Unsigned(s))
    ensures CastNumber(NumberText(s)) == Cast(SignOf(s) * DigitsValue(Unsigned(s)))
  {
    SignedDigitsNumber(s);
  }
}
