/** The tagged values a memory cell holds (struct RAM_VALUE) and their copy semantics. */
module Values {

  /** The C `int` that carries integer, pointer and boolean payloads. */
  newtype Int32 = x: int | -0x8000_0000 <= x < 0x8000_0000

  /** A C `double`, carried as its IEEE 754 bit pattern; the store never computes with it. */
  datatype Double = Double(bits: bv64)

  /** One of RAM_TYPE_INT, _REAL, _STR, _PTR, _BOOLEAN, _NONE with its payload. */
  datatype Value =
    | Int(i: Int32)
    | Real(d: Double)
    | Str(s: string)
    | Ptr(p: Int32)
    | Boolean(b: Int32)
    | None

  /** Result of a read or lookup; `Nothing` stands for the NULL the C code returns. */
  datatype Option<T> = Nothing | Some(value: T)

  /**
   * copy_value: a deep copy. The tag is copied; a string gets its own copy of the
   * characters (strdup), every other payload is copied as it is. With value semantics
   * the copy is indistinguishable from the original and shares nothing with it.
   */
  function CopyValue(v: Value): (r: Value)
    ensures r == v
  {
    match v
    case Str(s) => Str(s[..])
    case _ => v
  }
}
