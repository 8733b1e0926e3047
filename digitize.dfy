/** The decimal digit codec: `ToDigits::to_digits` breaks an integer into its
    base-10 digits, most significant first, each carrying the sign of the
    integer; `FromDigits::from_digits` folds such digits back into a number. */
module Digitize {
  import opened RustInt

  // ---------------------------------------------------------------------------
  // to_digits

  /** The digits of `n`: the last one is `n % 10`, the ones before it are the
      digits of `n / 10` (truncating), and zero has no digits at all. */
  function Digits(n: int): seq<int>
    decreases Abs(n)
  {
    if n == 0 then [] else Digits(Quot10(n)) + [Rem10(n)]
  }

  /** `to_digits` on a value `n` of the integer type `t`: peel off `n % 10`,
      insert it at the front of the vector, divide `n` by ten, until `n` is 0. */
  method ToDigits(t: IntType, n: int) returns (digits: seq<Int8>)
    requires Fits(t, n)
    ensures digits == Digits(n)
  {
    var number := n;
    digits := [];
    while number != 0
      invariant Fits(t, number)
      invariant Abs(number) <= Abs(n)
      invariant n >= 0 ==> number >= 0
      invariant n <= 0 ==> number <= 0
      invariant Digits(number) + digits == Digits(n)
      decreases Abs(number)
    {
      RemainderNarrows(number);
      var remainder := CastI8(Rem10(number)).value;
      digits := [remainder] + digits;
      number := Quot10(number);
    }
  }

  /** All elements of `s` lie in `lo..=hi`. */
  predicate AllIn(s: seq<int>, lo: int, hi: int)
  {
    forall i :: 0 <= i < |s| ==> lo <= s[i] <= hi
  }

  /** The digit sequences `to_digits` can produce: empty, or led by a nonzero
      digit and made of digits that all share one sign. */
  predicate Canonical(s: seq<int>)
  {
    s == [] || (s[0] != 0 && (AllIn(s, 0, 9) || AllIn(s, -9, 0)))
  }

  /** Zero, and only zero, has no digits. */
  lemma DigitsEmpty(n: int)
    ensures Digits(n) == [] <==> n == 0
  {
  }

  /** Every digit of a positive number lies in `0..=9`, every digit of a
      negative one in `-9..=0`; so the narrowing to `i8` never fails. */
  lemma {:induction false} DigitRange(n: int)
    ensures n > 0 ==> AllIn(Digits(n), 0, 9)
    ensures n < 0 ==> AllIn(Digits(n), -9, 0)
    decreases Abs(n)
  {
    if n != 0 {
      DigitRange(Quot10(n));
    }
  }

  /** A nonzero number has no leading zero digit. */
  lemma {:induction false} LeadingDigitNonzero(n: int)
    requires n != 0
    ensures |Digits(n)| > 0 && Digits(n)[0] != 0
    decreases Abs(n)
  {
    var q := Quot10(n);
    if q == 0 {
      DivisionIdentity(n);
    } else {
      LeadingDigitNonzero(q);
    }
  }

  /** What `to_digits` produces is always canonical. */
  lemma DigitsCanonical(n: int)
    ensures Canonical(Digits(n))
  {
    if n != 0 {
      DigitRange(n);
      LeadingDigitNonzero(n);
    }
  }

  function Pow10(k: nat): nat
  {
    if k == 0 then 1 else 10 * Pow10(k - 1)
  }

  /** There is one digit per decimal digit of `|n|`: a nonzero `n` with `L`
      digits satisfies `10^(L-1) <= |n| < 10^L`. */
  lemma {:induction false} DigitCount(n: int)
    ensures n != 0 ==> Pow10(|Digits(n)| - 1) <= Abs(n) < Pow10(|Digits(n)|)
    decreases Abs(n)
  {
    if n != 0 {
      var q := Quot10(n);
      DivisionIdentity(n);
      DigitCount(q);
    }
  }

  /** `n` with its last `k` decimal digits removed: `n / 10` taken `k` times. */
  function DropDigits(n: int, k: nat): int
    decreases k
  {
    if k == 0 then n else DropDigits(Quot10(n), k - 1)
  }

  lemma {:induction false} DropDigitsSucc(n: int, k: nat)
    ensures DropDigits(n, k + 1) == Quot10(DropDigits(n, k))
    decreases k
  {
    if k > 0 {
      DropDigitsSucc(Quot10(n), k - 1);
    }
  }

  /** Removing digits never grows the magnitude nor changes the sign. */
  lemma {:induction false} DropDigitsBound(n: int, k: nat)
    ensures Abs(DropDigits(n, k)) <= Abs(n)
    ensures n >= 0 ==> DropDigits(n, k) >= 0
    ensures n <= 0 ==> DropDigits(n, k) <= 0
    decreases k
  {
    if k > 0 {
      DropDigitsBound(Quot10(n), k - 1);
    }
  }

  /** The digits of `n` with its last `k` digits removed are the first
      `|Digits(n)| - k` digits of `n`. */
  lemma {:induction false} DropDigitsPrefix(n: int, k: nat)
    requires k <= |Digits(n)|
    ensures Digits(DropDigits(n, k)) == Digits(n)[..|Digits(n)| - k]
    decreases k
  {
    if k > 0 {
      DropDigitsPrefix(Quot10(n), k - 1);
    }
  }

  /** Most significant first: the digit at index `i` is the last digit of `n`
      once the `|Digits(n)| - 1 - i` digits to its right are removed. */
  lemma DigitAt(n: int, i: nat)
    requires i < |Digits(n)|
    ensures Digits(n)[i] == Rem10(DropDigits(n, |Digits(n)| - 1 - i))
  {
    var m := DropDigits(n, |Digits(n)| - 1 - i);
    DropDigitsPrefix(n, |Digits(n)| - 1 - i);
    assert Digits(m) == Digits(n)[..i + 1];
  }

  // ---------------------------------------------------------------------------
  // from_digits

  /** The closure passed to `fold`: `sum * 10 + d`. */
  function Step(sum: int, d: int): int
  {
    sum * 10 + d
  }

  /** `Iterator::fold` of `Step` over `s`, left to right, from `acc`. */
  function Fold(acc: int, s: seq<int>): int
    decreases |s|
  {
    if s == [] then acc else Fold(Step(acc, s[0]), s[1..])
  }

  /** `from_digits`: the fold started from 0. This is the value the source
      computes as long as every element is an `isize` value and the `isize`
      accumulator does not overflow (`CheckedFoldAgrees`); an element outside
      `isize` is wrapped by `as isize` first (`WrappedElementExample`). */
  function FromDigits(s: seq<int>): int
  {
    Fold(0, s)
  }

  lemma {:induction false} FoldSnoc(acc: int, s: seq<int>, d: int)
    ensures Fold(acc, s + [d]) == Step(Fold(acc, s), d)
    decreases |s|
  {
    if s != [] {
      assert (s + [d])[1..] == s[1..] + [d];
      FoldSnoc(Step(acc, s[0]), s[1..], d);
    }
  }

  /** The fold, read from the other end: appending a digit multiplies the
      value so far by ten and adds the digit. */
  lemma FromDigitsSnoc(s: seq<int>, d: int)
    ensures FromDigits(s + [d]) == FromDigits(s) * 10 + d
  {
    FoldSnoc(0, s, d);
  }

  /** Digits that are all non-negative give a non-negative number, digits
      that are all non-positive a non-positive one. */
  lemma {:induction false} FromDigitsSign(s: seq<int>)
    ensures AllIn(s, 0, 9) ==> FromDigits(s) >= 0
    ensures AllIn(s, -9, 0) ==> FromDigits(s) <= 0
    decreases |s|
  {
    if s != [] {
      var p, d := s[..|s| - 1], s[|s| - 1];
      assert s == p + [d];
      FromDigitsSnoc(p, d);
      FromDigitsSign(p);
    }
  }

  // ---------------------------------------------------------------------------
  // The round trip

  /** `from_digits(to_digits(n)) == n`, for every integer, negatives included. */
  lemma {:induction false} RoundTrip(n: int)
    ensures FromDigits(Digits(n)) == n
    decreases Abs(n)
  {
    if n != 0 {
      var q := Quot10(n);
      FromDigitsSnoc(Digits(q), Rem10(n));
      RoundTrip(q);
      DivisionIdentity(n);
    }
  }

  /** The other direction: a canonical digit sequence is exactly what
      `to_digits` returns for the number it folds to. */
  lemma {:induction false} CanonicalRoundTrip(s: seq<int>)
    requires Canonical(s)
    ensures Digits(FromDigits(s)) == s
    decreases |s|
  {
    if s != [] {
      var p, d := s[..|s| - 1], s[|s| - 1];
      assert s == p + [d];
      assert p == [] || p[0] == s[0];
      assert AllIn(s, 0, 9) ==> AllIn(p, 0, 9);
      assert AllIn(s, -9, 0) ==> AllIn(p, -9, 0);
      FromDigitsSnoc(p, d);
      FromDigitsSign(p);
      var x := FromDigits(p);
      if p != [] {
        CanonicalRoundTrip(p);
        assert x != 0;
      }
      QuotRemOfStep(x, d);
      assert x * 10 + d != 0;
    }
  }

  // ---------------------------------------------------------------------------
  // The isize accumulator

  /** The fold as the source runs it: every element converted with `as isize`,
      `sum *= ten` and `sum += d` computed in `isize`; `None` as soon as one of
      them overflows, where the result depends on the build profile. */
  function CheckedFold(acc: int, s: seq<int>): (r: Option<int>)
    requires Fits(Isize, acc)
    ensures r.Some? ==> Fits(Isize, r.value)
    decreases |s|
  {
    if s == [] then Some(acc)
    else
      var m := acc * 10;
      if !Fits(Isize, m) then None
      else
        var a := m + AsIsize(s[0]);
        if !Fits(Isize, a) then None else CheckedFold(a, s[1..])
  }

  function FromDigitsIsize(s: seq<int>): Option<int>
  {
    CheckedFold(0, s)
  }

  /** When the `isize` fold does not overflow and the elements are `isize`
      values, it computes the mathematical fold. */
  lemma {:induction false} CheckedFoldAgrees(acc: int, s: seq<int>)
    requires Fits(Isize, acc)
    requires forall i :: 0 <= i < |s| ==> Fits(Isize, s[i])
    requires CheckedFold(acc, s).Some?
    ensures CheckedFold(acc, s).value == Fold(acc, s)
    decreases |s|
  {
    if s != [] {
      CheckedFoldAgrees(acc * 10 + s[0], s[1..]);
    }
  }

  /** Folding the last `k` digits of `n` onto the number its other digits stand
      for never overflows when `n` is an `isize`, and ends at `n`. */
  lemma {:induction false} CheckedFoldOfDigits(n: int, k: nat)
    requires Fits(Isize, n)
    requires k <= |Digits(n)|
    ensures Fits(Isize, DropDigits(n, k))
    ensures CheckedFold(DropDigits(n, k), Digits(n)[|Digits(n)| - k..]) == Some(n)
    decreases k
  {
    var len := |Digits(n)|;
    var x := DropDigits(n, k);
    DropDigitsBound(n, k);
    if k > 0 {
      var y := DropDigits(n, k - 1);
      var d := Digits(n)[len - k];
      DropDigitsSucc(n, k - 1);
      DropDigitsBound(n, k - 1);
      DigitAt(n, len - k);
      DivisionIdentity(y);
      assert x * 10 + d == y;
      assert AsIsize(d) == d;
      assert Digits(n)[len - k..][1..] == Digits(n)[len - (k - 1)..];
      CheckedFoldOfDigits(n, k - 1);
    }
  }

  /** The round trip through the `isize` accumulator succeeds exactly when
      the number is an `isize`, and then gives the number back. */
  lemma IsizeRoundTrip(n: int)
    ensures FromDigitsIsize(Digits(n)) == if Fits(Isize, n) then Some(n) else None
  {
    var len := |Digits(n)|;
    DropDigitsPrefix(n, len);
    DigitsEmpty(DropDigits(n, len));
    if Fits(Isize, n) {
      CheckedFoldOfDigits(n, len);
      assert Digits(n)[0..] == Digits(n);
    } else if FromDigitsIsize(Digits(n)).Some? {
      DigitRange(n);
      CheckedFoldAgrees(0, Digits(n));
      RoundTrip(n);
      assert false;
    }
  }

  /** With digits of one sign, the partial folds only grow in magnitude. */
  lemma {:induction false} FoldGrows(acc: int, s: seq<int>)
    ensures acc >= 0 && AllIn(s, 0, 9) ==> Fold(acc, s) >= acc
    ensures acc <= 0 && AllIn(s, -9, 0) ==> Fold(acc, s) <= acc
    decreases |s|
  {
    if s != [] {
      assert AllIn(s, 0, 9) ==> AllIn(s[1..], 0, 9);
      assert AllIn(s, -9, 0) ==> AllIn(s[1..], -9, 0);
      FoldGrows(Step(acc, s[0]), s[1..]);
    }
  }

  /** For digits of one sign, folded onto an accumulator of that sign, the
      `isize` fold overflows exactly when the final value leaves `isize`. */
  lemma {:induction false} CheckedFoldSameSign(acc: int, s: seq<int>)
    requires Fits(Isize, acc)
    requires (acc >= 0 && AllIn(s, 0, 9)) || (acc <= 0 && AllIn(s, -9, 0))
    ensures CheckedFold(acc, s).Some? <==> Fits(Isize, Fold(acc, s))
    decreases |s|
  {
    if s != [] {
      var m := acc * 10;
      var a := m + s[0];
      assert AsIsize(s[0]) == s[0];
      assert AllIn(s, 0, 9) ==> AllIn(s[1..], 0, 9);
      assert AllIn(s, -9, 0) ==> AllIn(s[1..], -9, 0);
      FoldGrows(a, s[1..]);
      if Fits(Isize, m) && Fits(Isize, a) {
        CheckedFoldSameSign(a, s[1..]);
      }
    }
  }

  /** When `from_digits` overflows its `isize` accumulator, for digit
      sequences of one sign: exactly when the value it stands for is not an
      `isize`; otherwise it returns that value. */
  lemma IsizeOverflowCondition(s: seq<int>)
    requires AllIn(s, 0, 9) || AllIn(s, -9, 0)
    ensures FromDigitsIsize(s).Some? <==> Fits(Isize, FromDigits(s))
    ensures FromDigitsIsize(s).Some? ==> FromDigitsIsize(s).value == FromDigits(s)
  {
    CheckedFoldSameSign(0, s);
    if FromDigitsIsize(s).Some? {
      CheckedFoldAgrees(0, s);
    }
  }

  /** A `u64` element above `isize::MAX` is wrapped by `as isize` and does not
      overflow the accumulator: `vec![u64::MAX].from_digits()` is `-1`, not
      the value the unbounded fold gives. */
  lemma WrappedElementExample()
    ensures FromDigitsIsize([0xffff_ffff_ffff_ffff]) == Some(-1)
    ensures FromDigits([0xffff_ffff_ffff_ffff]) == 0xffff_ffff_ffff_ffff
  {
  }

  // ---------------------------------------------------------------------------
  // The cases the source's tests and documentation spell out

  lemma ZeroExamples()
    ensures Digits(0) == [] && FromDigits([]) == 0
    ensures FromDigits([0, 0, 0]) == 0
  {
  }

  /** The examples of the `ToDigits` documentation. */
  lemma DocExamples()
    ensures Digits(12) == [1, 2]
    ensures Digits(-12) == [-1, -2]
  {
    assert Digits(1) == [1];
    assert Digits(-1) == [-1];
  }

  lemma ToDigitsExamples()
    ensures Digits(123) == [1, 2, 3]
    ensures Digits(-56) == [-5, -6]
  {
    assert Digits(1) == [1];
    assert Digits(12) == [1, 2];
    assert Digits(-5) == [-5];
  }

  /** The examples of the `FromDigits` documentation. */
  lemma FromDigitsExamples()
    ensures FromDigits([1, 2, 3, 4, 5]) == 12345
    ensures FromDigits([-1, -2, -3, -4, -5]) == -12345
  {
  }

  lemma FromDigitsTestExamples()
    ensures FromDigits([1, 2, 3]) == 123
    ensures FromDigits([-5, -6]) == -56
  {
  }

  /** A value above `i32::MAX` that fits in a `u32`. */
  lemma WideExample()
    ensures Digits(2591222345) == [2, 5, 9, 1, 2, 2, 2, 3, 4, 5]
  {
    assert Digits(2) == [2];
    assert Digits(25) == [2, 5];
    assert Digits(259) == [2, 5, 9];
    assert Digits(2591) == [2, 5, 9, 1];
    assert Digits(25912) == [2, 5, 9, 1, 2];
    assert Digits(259122) == [2, 5, 9, 1, 2, 2];
    assert Digits(2591222) == [2, 5, 9, 1, 2, 2, 2];
    assert Digits(25912223) == [2, 5, 9, 1, 2, 2, 2, 3];
    assert Digits(259122234) == [2, 5, 9, 1, 2, 2, 2, 3, 4];
  }
}
