/** Spreadsheet cells as the reader delivers them, and the per-cell
    normalisation rule applied while a row is turned into a record. */
module Cells {

  /** A scalar payload. Floating point is not modelled: `Float` carries a
      real number. `NotANumber` is the NaN marker the reader uses for a
      blank cell, which pandas counts as missing. */
  datatype Scalar =
    | Bool(b: bool)
    | Int(i: int)
    | Float(x: real)
    | Text(s: string)
    | NotANumber

  /** A raw cell: `Missing` is Python's None, `Wrapped` is a NumPy scalar
      (a value that has an `.item()` method), `Plain` is a native Python
      value that passes through. */
  datatype Cell =
    | Missing
    | Wrapped(inner: Scalar)
    | Plain(value: Scalar)

  /** A normalised payload value: JSON null or a native scalar. */
  datatype Value = Null | Val(scalar: Scalar)

  /** `pd.isna` on one cell: None, and NaN whether wrapped or not. */
  function IsNa(c: Cell): (na: bool)
    ensures c.Missing? ==> na
    ensures c.Plain? ==> (na <==> c.value == NotANumber)
    ensures c.Wrapped? ==> (na <==> c.inner == NotANumber)
  {
    match c
    case Missing => true
    case Wrapped(s) => s.NotANumber?
    case Plain(s) => s.NotANumber?
  }

  /** The three-way rule: missing becomes null, a wrapped scalar is
      unwrapped, anything else passes through. The missing test comes
      first, so a wrapped NaN becomes null and never reaches `.item()`. */
  function NormalizeCell(c: Cell): (v: Value)
    ensures v.Null? <==> IsNa(c)
    ensures c.Wrapped? && !IsNa(c) ==> v == Val(c.inner)
    ensures c.Plain? && !IsNa(c) ==> v == Val(c.value)
    ensures v.Val? ==> !v.scalar.NotANumber?
  {
    if IsNa(c) then Null
    else if c.Wrapped? then Val(c.inner)
    else Val(c.value)
  }
}
