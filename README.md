# num-digitize in Dafny

A model of the `num_digitize` Rust crate, a decimal digit codec.

- `ToDigits::to_digits` breaks an integer into its base-10 digits, most significant first. It returns them as a `Vec<i8>`.
- `FromDigits::from_digits` folds such a vector back into an `isize`.

A negative number gives digits that are all non-positive, so `-56` becomes `[-5, -6]`. The fold then rebuilds the negative value without a separate sign flag. Zero has no digits.

The project has two modules:

- `rust_int.dfy`, module `RustInt`: the Rust integer semantics the codec relies on. This covers the ten integer types it is instantiated for (`isize` and `usize` taken as 64 bits), the truncating `/ 10` and `% 10`, the checked narrowing `num::cast` into `i8`, and the wrapping `as isize` conversion.
- `digitize.dfy`, module `Digitize`:
  - `Digits`, the specification function of `to_digits`.
  - `ToDigits`, the source's `while` loop as a method proved equal to `Digits`.
  - `Fold` and `FromDigits`, the left fold of `sum * 10 + d` from 0.
  - `CheckedFold` and `FromDigitsIsize`, the same fold run in a checked 64-bit `isize` accumulator.
  - The laws relating these functions.

The ten instantiations of the `impl_for!` macro are one algorithm over unbounded `int`. The width of the value passed to `to_digits` is a precondition, `Fits(t, n)`. The loop invariant shows that every intermediate `number` stays a value of that type, so `/` and `%` never overflow.

The main law is the round trip `from_digits(to_digits(n)) == n`. It is proved twice:

- for every integer, in the unbounded fold (`RoundTrip`);
- in the `isize` accumulator, where it holds exactly when `n` fits in an `isize` (`IsizeRoundTrip`).

The other direction is proved too. Every canonical digit sequence is what `to_digits` returns for the number it folds to (`CanonicalRoundTrip`). A canonical sequence is empty, or has a nonzero leading digit and digits that all share one sign. So `Digits` is a bijection between the integers and the canonical sequences.

## Model

| member | source | states |
|---|---|---|
| `RustInt.Quot10` | src/lib.rs:90 | `number /= 10` rounds toward zero: the magnitude of the quotient is the magnitude of the dividend divided by ten, its sign is the dividend's (or it is 0), and it is strictly smaller in magnitude than a nonzero dividend, which is why the loop ends |
| `RustInt.Rem10` | src/lib.rs:88 | `number % 10` is below ten in magnitude and carries the sign of `number`, so a negative input gives non-positive digits |
| `RustInt.DivisionIdentity` | src/lib.rs:88-90 | the quotient and remainder put back together give `number` again: `(a / 10) * 10 + a % 10 == a`, and the magnitudes split the same way |
| `RustInt.QuotRemOfStep` | src/lib.rs:103 | one fold step `x * 10 + d` is undone by `/ 10` and `% 10` when `d` is a digit with the sign of `x` |
| `RustInt.Min` | src/lib.rs:121-130 | no contract: the least value of each of the ten instantiated integer types (`isize` as 64 bits); `Fits` and the `Fits(t, n)` precondition of `ToDigits` use it |
| `RustInt.Max` | src/lib.rs:121-130 | no contract: the greatest value of each of the ten instantiated integer types (`usize` as 64 bits); `Fits` and the `Fits(t, n)` precondition of `ToDigits` use it |
| `RustInt.CastI8` | src/lib.rs:4 | no contract: the model of `num::cast` into `i8`, `Some(x)` on the `i8` range and `None` elsewhere; `RustInt.RemainderNarrows` states what the codec needs of it |
| `RustInt.RemainderNarrows` | src/lib.rs:88 | `cast(number % 10).unwrap()` never fails: every remainder by ten narrows to `i8` unchanged |
| `RustInt.AsIsize` | src/lib.rs:103 | `*number as isize` always yields an `isize`, is the identity on `isize` values, and differs from its argument by a multiple of 2^64 |
| `Digitize.Digits` | src/lib.rs:83-94 | no contract: the specification of `to_digits`, the digits of `n / 10` followed by `n % 10`, empty for zero; `ToDigits` is proved equal to it, and `DigitsEmpty`, `DigitRange`, `LeadingDigitNonzero`, `DigitsCanonical`, `DigitCount`, `DigitAt` and `RoundTrip` state its properties |
| `Digitize.ToDigits` | src/lib.rs:83-94 | the loop inserting `number % 10` at the front and dividing by ten returns exactly `Digits(n)`; along the way `number` keeps the type's range and the sign of `n`, never grows in magnitude, and the `i8` narrowing never fails |
| `Digitize.DigitsEmpty` | src/lib.rs:138-142 | the digit vector is empty if and only if the number is zero |
| `Digitize.DigitRange` | src/lib.rs:22-27 | every digit of a positive number lies in `0..=9`, every digit of a negative number in `-9..=0` |
| `Digitize.LeadingDigitNonzero` | src/lib.rs:87-91 | a nonzero number yields a nonempty vector whose first digit is nonzero: no leading zeros |
| `Digitize.DigitsCanonical` | src/lib.rs:83-94 | every output of `to_digits` is canonical: empty, or a nonzero leading digit followed by digits of one sign |
| `Digitize.DigitCount` | src/lib.rs:87-91 | a nonzero `n` with `L` digits satisfies `10^(L-1) <= abs(n) < 10^L`, so there is one entry per decimal digit of `abs(n)` |
| `Digitize.DropDigitsSucc` | src/lib.rs:90 | removing `k + 1` digits is removing `k` digits and then dividing by ten once more |
| `Digitize.DropDigitsBound` | src/lib.rs:90 | repeated division by ten never grows the magnitude and never changes the sign |
| `Digitize.DropDigitsPrefix` | src/lib.rs:89-90 | the digits of `n` with its last `k` digits removed are the first `L - k` digits of `n` |
| `Digitize.DigitAt` | src/lib.rs:89 | most significant first: the digit at index `i` is `% 10` of `n` with the `L - 1 - i` digits to its right removed |
| `Digitize.Step` | src/lib.rs:103 | no contract: the fold's closure `sum * 10 + d`; `FoldSnoc` and `FromDigitsSnoc` state what it does to the fold |
| `Digitize.Fold` | src/lib.rs:101-104 | no contract: `Iterator::fold` of `Step` from an accumulator, left to right; `FoldSnoc` and `FoldGrows` state its properties |
| `Digitize.FromDigits` | src/lib.rs:98-105 | no contract: `from_digits` for `Vec<T>`, and for `&[T]` (src/lib.rs:109-116, same body), in an accumulator that cannot overflow and with each element taken at its value, which is what the source computes when every element is an `isize` and no step overflows (`CheckedFoldAgrees`); `FromDigitsSnoc`, `FromDigitsSign`, `RoundTrip` and `CanonicalRoundTrip` state its properties |
| `Digitize.FoldSnoc` | src/lib.rs:101-104 | folding over `s + [d]` from any accumulator is one more `sum * 10 + d` step after the fold over `s` |
| `Digitize.FromDigitsSnoc` | src/lib.rs:101-104 | `from_digits(s + [d]) == from_digits(s) * 10 + d` |
| `Digitize.FromDigitsSign` | src/lib.rs:72 | digits all in `0..=9` fold to a non-negative number, digits all in `-9..=0` to a non-positive one |
| `Digitize.RoundTrip` | src/lib.rs:30-37 | `from_digits(to_digits(n)) == n` for every integer, negatives included |
| `Digitize.CanonicalRoundTrip` | src/lib.rs:66-76 | for a canonical digit sequence, `to_digits(from_digits(s)) == s` |
| `Digitize.CheckedFold` | src/lib.rs:101-104 | the fold computed in an `isize` accumulator, when it completes, ends on an `isize` |
| `Digitize.FromDigitsIsize` | src/lib.rs:98-105 | no contract: `from_digits` in its `isize` accumulator, `None` where it overflows; `CheckedFoldAgrees`, `IsizeOverflowCondition` and `IsizeRoundTrip` state its properties |
| `Digitize.CheckedFoldAgrees` | src/lib.rs:98-105 | when the `isize` fold does not overflow and the elements are `isize` values, it returns the unbounded fold's value |
| `Digitize.CheckedFoldOfDigits` | src/lib.rs:101-104 | for an `isize` value `n`, every intermediate `sum` and `sum * 10` of the fold over its digits stays an `isize`, and the fold ends at `n` |
| `Digitize.IsizeRoundTrip` | src/lib.rs:77 | the `isize` fold over `to_digits(n)` succeeds if and only if `n` fits in an `isize`, and then returns `n` |
| `Digitize.FoldGrows` | src/lib.rs:101-104 | folding digits of one sign onto an accumulator of that sign never shrinks its magnitude |
| `Digitize.CheckedFoldSameSign` | src/lib.rs:101-104 | folding digits of one sign onto an `isize` of that sign overflows exactly when the final value is not an `isize` |
| `Digitize.IsizeOverflowCondition` | src/lib.rs:98-105 | for a digit sequence of one sign, `from_digits` overflows its `isize` accumulator exactly when the value the digits stand for is not an `isize`, and otherwise returns that value |
| `Digitize.WrappedElementExample` | src/lib.rs:103 | `*number as isize` wraps a `u64` element above `isize::MAX`: `from_digits` of `[u64::MAX]` is `-1` in the `isize` accumulator, while the unbounded fold gives `u64::MAX` |
| `Digitize.ZeroExamples` | src/lib.rs:138-149 | `to_digits(0) == []` and `from_digits([]) == 0`, as the tests state; beyond the source's tests, `from_digits([0, 0, 0]) == 0` |
| `Digitize.DocExamples` | src/lib.rs:14-27 | `12 -> [1, 2]` and `-12 -> [-1, -2]` |
| `Digitize.ToDigitsExamples` | src/lib.rs:152-170 | `123 -> [1, 2, 3]` and `-56 -> [-5, -6]` |
| `Digitize.FromDigitsExamples` | src/lib.rs:49-64 | `[1, 2, 3, 4, 5] -> 12345` and `[-1, -2, -3, -4, -5] -> -12345` |
| `Digitize.FromDigitsTestExamples` | src/lib.rs:159-177 | `[1, 2, 3] -> 123` and `[-5, -6] -> -56` |
| `Digitize.WideExample` | src/lib.rs:263-268 | `2591222345`, a `u32` above `i32::MAX`, gives `[2, 5, 9, 1, 2, 2, 2, 3, 4, 5]` |

## Left out

- The `impl_for!` macro (src/lib.rs:80-130) creates ten copies of one algorithm. The model has one algorithm over `int`, with the integer type `t` as a parameter whose only role is the range precondition. So the digits of a value do not depend on the type it was passed in, which follows from `ToDigits`'s `ensures`.
- The `&[T]` implementation of `from_digits` (src/lib.rs:108-117) has the same body as the `Vec<T>` one. Dafny's `seq` has no owned/borrowed distinction, so `FromDigits` models both.
- `num::cast` (src/lib.rs:4) is a foreign library call. `CastI8` models it as the checked conversion into `i8`, with no contract of its own.
- The source does not define what happens when the `isize` accumulator overflows. A debug build panics and a release build wraps. `CheckedFold` returns `None` there and models neither. Overflow happens when, for some prefix of the input, `sum * 10` or `sum + (d as isize)` leaves the `isize` range.
  - For a sequence of digits that share one sign, this is exactly when the value the digits stand for is not an `isize` (`IsizeOverflowCondition`).
  - For the output of `to_digits`, it is exactly when `n` is not an `isize`, so for `u64` or `usize` values above `isize::MAX` (`IsizeRoundTrip`).
- `FromDigits` treats every element at its value. The source first converts each element with `as isize`, which wraps a `u64` or `usize` element above `isize::MAX` (`WrappedElementExample`). `FromDigits` agrees with the source only for `isize` elements without overflow (`CheckedFoldAgrees`). `CheckedFold` models the wrap.
- The source gives no meaning to the result for mixed-sign sequences or for elements outside `-9..=9` (src/lib.rs:72-74). `FromDigits` computes the fold for them, and no law is stated about these inputs.
- `isize` and `usize` are taken to be 64 bits wide. Other platform widths are not modelled.
- `RustInt.Quot10` and `RustInt.Rem10` model Rust's `/` and `%` for the divisor 10 only, because no other divisor occurs in the codec.
- `self.clone()` (src/lib.rs:84) copies a primitive integer, so it is a plain assignment in the model.
- The crate attribute and `extern crate` line (src/lib.rs:1-2) are build configuration.
