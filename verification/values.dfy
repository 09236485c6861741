/** The Python objects the metadata layer handles: the values `json.loads`
    produces for the prober's output, the strings and floats the EXIF parser
    produces, and `None`. */
module Values {
  import opened Wrappers

  /** A Python value. `Null` is `None`, which is also what a JSON `null`
      decodes to; the source cannot tell the two apart and neither can the
      model. A `Float` is an IEEE 754 binary64 value held as its bit pattern
      (so infinities and NaNs are representable); the model does no
      arithmetic on it. */
  datatype Value =
    | Null
    | Bool(b: bool)
    | Int(i: int)
    | Float(bits: bv64)
    | Str(s: string)
    | Array(items: seq<Value>)
    | Object(fields: map<string, Value>)

  /** Python's number grammar, left uninterpreted: `parseInt(s)` is
      `int(s)` and `parseFloat(s)` is `float(s)` on a string, `None` where
      Python raises `ValueError`; `intToFloat(n)` is `float(n)` on an int. */
  datatype NumberSyntax = NumberSyntax(
    parseInt: string -> Option<int>,
    parseFloat: string -> Option<bv64>,
    intToFloat: int -> bv64)

  /** The number grammar accepts `s`: `int(s)` or `float(s)` succeeds. */
  predicate IsNumeric(ns: NumberSyntax, s: string) {
    ns.parseInt(s).Some? || ns.parseFloat(s).Some?
  }

  /** The Python exceptions the derived properties can raise. */
  datatype PyError = TypeError | ValueError
}
