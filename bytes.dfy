/// The bytes of a PHP string, and the pieces of PHP's runtime that the codec
/// applies to them: `ctype_digit`, the `(int)` cast of a digit run, the
/// conversion of an integer to its decimal string, `strpos`, and the
/// byte-wise string comparison that `ksort(..., SORT_STRING)` sorts by.
module Bytes {

  /// One byte of a PHP string.
  newtype byte = x: int | 0 <= x < 256

  datatype Option<T> = None | Some(value: T)

  const MINUS: byte := 45    // '-'
  const ZERO: byte := 48     // '0'
  const NINE: byte := 57     // '9'
  const COLON: byte := 58    // ':'
  const LOWER_D: byte := 100 // 'd'
  const LOWER_E: byte := 101 // 'e'
  const LOWER_I: byte := 105 // 'i'
  const LOWER_L: byte := 108 // 'l'

  predicate IsDigit(b: byte) {
    ZERO <= b <= NINE
  }

  predicate AllDigits(s: seq<byte>) {
    forall i :: 0 <= i < |s| ==> IsDigit(s[i])
  }

  /// `ctype_digit` on a string: true exactly for a non-empty run of ASCII digits.
  predicate IsDigitRun(s: seq<byte>) {
    |s| > 0 && AllDigits(s)
  }

  /// The number a run of decimal digits denotes, read most significant first
  /// (what PHP's `(int)` cast gives for such a string; leading zeros are allowed).
  function DigitsValue(s: seq<byte>): nat
    requires AllDigits(s)
  {
    if s == [] then 0 else 10 * DigitsValue(s[..|s| - 1]) + (s[|s| - 1] - ZERO) as nat
  }

  /// The decimal digits of a natural number, without leading zeros.
  function NatDigits(n: nat): (r: seq<byte>)
    ensures IsDigitRun(r)
    ensures DigitsValue(r) == n
    ensures r[0] == ZERO <==> n == 0
    ensures n == 0 ==> r == [ZERO]
  {
    if n < 10 then [ZERO + n as byte]
    else
      var init := NatDigits(n / 10);
      var r := init + [ZERO + (n % 10) as byte];
      assert r[..|r| - 1] == init;
      r
  }

  /// PHP's conversion of an integer to a string (string concatenation and
  /// `strval`): an optional minus sign followed by the digits of the magnitude.
  function Decimal(n: int): (r: seq<byte>)
  {
    if n < 0 then [MINUS] + NatDigits(-n) else NatDigits(n)
  }

  /// A digit run without a redundant leading zero is the decimal form of its value.
  lemma {:induction false} NatDigitsOfValue(s: seq<byte>)
    requires IsDigitRun(s)
    requires s[0] == ZERO ==> |s| == 1
    ensures NatDigits(DigitsValue(s)) == s
  {
    if |s| > 1 {
      var init := s[..|s| - 1];
      assert init[0] == s[0];
      NatDigitsOfValue(init);
      LeadingDigitPositive(init);
      var n := DigitsValue(s);
      assert n / 10 == DigitsValue(init);
      assert n % 10 == (s[|s| - 1] - ZERO) as nat;
      assert s == init + [s[|s| - 1]];
    }
  }

  /// A digit run that starts with a non-zero digit denotes a positive number.
  lemma {:induction false} LeadingDigitPositive(s: seq<byte>)
    requires IsDigitRun(s) && s[0] != ZERO
    ensures DigitsValue(s) > 0
  {
    if |s| > 1 {
      LeadingDigitPositive(s[..|s| - 1]);
    }
  }

  /// `strpos(s, b, from)`: the first position at or after `from` that holds `b`,
  /// or nothing when there is none.
  function IndexOf(s: seq<byte>, b: byte, from: nat): (r: Option<nat>)
    decreases |s| - from
    ensures r.Some? ==> from <= r.value < |s| && s[r.value] == b
    ensures r.Some? ==> forall k :: from <= k < r.value ==> s[k] != b
    ensures r.None? ==> forall k :: from <= k < |s| ==> s[k] != b
  {
    if from >= |s| then None
    else if s[from] == b then Some(from)
    else IndexOf(s, b, from + 1)
  }

  /// The order of `SORT_STRING`: byte strings compared as unsigned bytes position
  /// by position, a proper prefix before any of its extensions.
  predicate StrLess(a: seq<byte>, b: seq<byte>) {
    if a == [] then b != []
    else if b == [] then false
    else if a[0] != b[0] then a[0] < b[0]
    else StrLess(a[1..], b[1..])
  }

  lemma {:induction false} StrLessIrreflexive(a: seq<byte>)
    ensures !StrLess(a, a)
  {
    if a != [] {
      StrLessIrreflexive(a[1..]);
    }
  }

  lemma {:induction false} StrLessAsymmetric(a: seq<byte>, b: seq<byte>)
    requires StrLess(a, b)
    ensures !StrLess(b, a)
  {
    if a != [] && b != [] && a[0] == b[0] {
      StrLessAsymmetric(a[1..], b[1..]);
    }
  }

  /// Any two different byte strings are ordered one way or the other.
  lemma {:induction false} StrLessTotal(a: seq<byte>, b: seq<byte>)
    requires a != b
    ensures StrLess(a, b) || StrLess(b, a)
  {
    if a != [] && b != [] && a[0] == b[0] {
      assert a == [a[0]] + a[1..] && b == [b[0]] + b[1..];
      StrLessTotal(a[1..], b[1..]);
    }
  }

  lemma {:induction false} StrLessTransitive(a: seq<byte>, b: seq<byte>, c: seq<byte>)
    requires StrLess(a, b) && StrLess(b, c)
    ensures StrLess(a, c)
  {
    if a != [] && a[0] == b[0] && b[0] == c[0] {
      StrLessTransitive(a[1..], b[1..], c[1..]);
    }
  }

  /// "not after" is transitive: the step insertion sort needs.
  lemma {:induction false} NotLessTransitive(a: seq<byte>, b: seq<byte>, c: seq<byte>)
    requires !StrLess(b, a) && !StrLess(c, b)
    ensures !StrLess(c, a)
  {
    if a != b && StrLess(c, a) {
      StrLessTotal(a, b);
      StrLessTransitive(c, a, b);
    }
  }
}
