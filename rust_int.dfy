/** Rust's primitive integer semantics, as far as the digit codec relies on them:
    the ten integer types it is instantiated for, truncating `/` and `%`,
    the checked narrowing `num::cast` into `i8`, and the `as isize` conversion. */
module RustInt {

  datatype Option<T> = None | Some(value: T)

  /** The integer types the codec is implemented for. `isize` and `usize`
      are taken to be 64 bits wide. */
  datatype IntType = I8 | I16 | I32 | I64 | Isize | U8 | U16 | U32 | U64 | Usize

  function Min(t: IntType): int
  {
    match t
    case I8 => -0x80
    case I16 => -0x8000
    case I32 => -0x8000_0000
    case I64 | Isize => -0x8000_0000_0000_0000
    case U8 | U16 | U32 | U64 | Usize => 0
  }

  function Max(t: IntType): int
  {
    match t
    case I8 => 0x7f
    case I16 => 0x7fff
    case I32 => 0x7fff_ffff
    case I64 | Isize => 0x7fff_ffff_ffff_ffff
    case U8 => 0xff
    case U16 => 0xffff
    case U32 => 0xffff_ffff
    case U64 | Usize => 0xffff_ffff_ffff_ffff
  }

  /** `x` is a value of type `t`. */
  predicate Fits(t: IntType, x: int)
  {
    Min(t) <= x <= Max(t)
  }

  /** The element type of the digit vector `to_digits` returns. */
  type Int8 = x: int | -0x80 <= x <= 0x7f

  function Abs(x: int): nat
  {
    if x < 0 then -x else x
  }

  /** Rust's `a / 10` on integers: the exact quotient rounded toward zero.
      Ten is the only divisor the codec uses. */
  function Quot10(a: int): (q: int)
    ensures Abs(q) == Abs(a) / 10
    ensures q == 0 || (q > 0 <==> a > 0)
    ensures a != 0 ==> Abs(q) < Abs(a)
  {
    if a < 0 then -((-a) / 10) else a / 10
  }

  /** Rust's `a % 10` on integers: the remainder carries the sign of the dividend. */
  function Rem10(a: int): (r: int)
    ensures Abs(r) < 10
    ensures a >= 0 ==> r >= 0
    ensures a <= 0 ==> r <= 0
  {
    if a < 0 then -((-a) % 10) else a % 10
  }

  /** Rust's division identity `(a / 10) * 10 + a % 10 == a`; the magnitudes
      split the same way, since neither part points against `a`. */
  lemma DivisionIdentity(a: int)
    ensures a == Quot10(a) * 10 + Rem10(a)
    ensures Abs(a) == Abs(Quot10(a)) * 10 + Abs(Rem10(a))
  {
  }

  /** Appending the digit `d` to `x` and dividing by ten again gives back `x`
      and `d`, provided `d` is a decimal digit with the sign of `x`. */
  lemma QuotRemOfStep(x: int, d: int)
    requires (x >= 0 && 0 <= d <= 9) || (x <= 0 && -9 <= d <= 0)
    ensures Quot10(x * 10 + d) == x
    ensures Rem10(x * 10 + d) == d
  {
  }

  /** `num::cast` from an integer into `i8`: `None` when the value does not fit. */
  function CastI8(x: int): Option<Int8>
  {
    if -0x80 <= x <= 0x7f then Some(x) else None
  }

  /** `cast(number % 10).unwrap()` never fails: every remainder by ten
      narrows to `i8` unchanged. */
  lemma RemainderNarrows(a: int)
    ensures CastI8(Rem10(a)) == Some(Rem10(a))
  {
  }

  const IsizeModulus: int := 0x1_0000_0000_0000_0000

  /** Rust's `x as isize`: keeps the low 64 bits of the two's-complement
      representation of `x`. */
  function AsIsize(x: int): (r: int)
    ensures Fits(Isize, r)
    ensures Fits(Isize, x) ==> r == x
    ensures (r - x) % IsizeModulus == 0
  {
    (x - Min(Isize)) % IsizeModulus + Min(Isize)
  }
}
