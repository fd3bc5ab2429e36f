/** Slot values of a script array and the C integer conversions the plugin performs. */
module Values {

  datatype Option<+T> = None | Some(value: T)

  /** An array index as the host stores it: a 32-bit unsigned integer. */
  type Index = x: int | 0 <= x < 0x1_0000_0000

  /** A script integer: a 32-bit signed C `int`. */
  type Int32 = x: int | -0x8000_0000 <= x < 0x8000_0000

  /** Whether an array holds strings or integers; the host decides it from the array's name. */
  datatype Kind = Text | Integer

  datatype Value = Str(s: string) | Num(n: Int32)

  /** The value the plugin writes to empty a slot, and the value an unset slot reads as. */
  function Clear(k: Kind): Value
  {
    match k
    case Text => Str("")
    case Integer => Num(0)
  }

  /** The predicate every query shares: a slot is wanted when "equals the needle" differs from `neq`. */
  predicate Matches(v: Value, needle: Value, neq: bool)
  {
    (v == needle) != neq
  }

  /** C conversion of an `unsigned int` to `int`: two's complement reinterpretation of 32 bits. */
  function AsInt(u: Index): (r: Int32)
    ensures (u - r) % 0x1_0000_0000 == 0
    ensures u < 0x8000_0000 ==> r == u
    ensures u >= 0x8000_0000 ==> r < 0
  {
    if u < 0x8000_0000 then u else u - 0x1_0000_0000
  }

  /** C unsigned subtraction on 32 bits: `b - a` reduced modulo 2^32. */
  function USub(b: Index, a: Index): (r: Index)
    ensures (b - a - r) % 0x1_0000_0000 == 0
    ensures a <= b ==> r == b - a
  {
    (b - a) % 0x1_0000_0000
  }
}
