/** The few C# arithmetic conventions the interpreter relies on, written out
    explicitly because Dafny's integers are unbounded and its `%` is Euclidean. */
module CSharp {

  import Arith

  /** The values of a C# `ushort` (and of a UTF-16 code unit, a C# `char`). */
  type uint16 = x: int | 0 <= x < 0x1_0000

  /** C#'s `%` on `int` for a positive divisor: division truncates toward zero,
      so the remainder takes the sign of the dividend. It agrees with the
      Euclidean remainder on non-negative dividends; on negative ones it is
      that remainder minus `m`, or 0 when `m` divides `a`. */
  function TruncMod(a: int, m: int): (r: int)
    requires m > 0
    ensures a >= 0 ==> 0 <= r < m && r == a % m
    ensures a < 0 ==> -m < r <= 0 && ((r == 0 && a % m == 0) || r == a % m - m)
  {
    if a >= 0 then a % m
    else
      NegativeRemainder(a, m);
      -((-a) % m)
  }

  lemma NegativeRemainder(a: int, m: int)
    requires m > 0 && a < 0
    ensures (-((-a) % m) == 0 && a % m == 0) || -((-a) % m) == a % m - m
  {
    var q, s := (-a) / m, (-a) % m;
    if s == 0 {
      Arith.DivModUnique(a, m, -q, 0);
    } else {
      Arith.DivModUnique(a, m, -q - 1, m - s);
    }
  }

  /** C#'s unchecked conversion of an `int` to `ushort`: keep the low 16 bits. */
  function ToUInt16(v: int): (r: uint16)
    ensures 0 <= v < 0x1_0000 ==> r == v
    ensures (v - r) % 0x1_0000 == 0
  {
    v % 0x1_0000
  }

  /** True when the low 16 bits of `v` are not a UTF-16 surrogate, so that the
      C# `char` they form is also a Dafny `char`. */
  predicate IsScalar16(v: int)
  {
    !(0xD800 <= v % 0x1_0000 < 0xE000)
  }

  /** C#'s unchecked `(char)` conversion of an `int`: the code unit with the
      low 16 bits of `v`. */
  function ToChar16(v: int): (c: char)
    requires IsScalar16(v)
    ensures c as int == ToUInt16(v)
    ensures 0 <= v < 0xD800 ==> c as int == v
    ensures -0x2000 <= v < 0 ==> c as int == v + 0x1_0000
  {
    (v % 0x1_0000) as char
  }

}
