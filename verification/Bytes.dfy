/** Bytes, and numbers written in them with the highest byte first. */
module Bytes {
  import X = Multiples

  type byte = x: int | 0 <= x < 256

  function Power(n: nat): (r: nat)
    ensures r >= 1
  {
    if n == 0 then 1 else 256 * Power(n - 1)
  }

  function Number(s: seq<byte>): nat {
    if s == [] then 0 else Number(s[..|s| - 1]) * 256 + s[|s| - 1]
  }

  /** The lowest `n` bytes of a number. */
  function Digits(value: nat, n: nat): (s: seq<byte>)
    ensures |s| == n
  {
    if n == 0 then [] else Digits(value / 256, n - 1) + [value % 256]
  }

  /** Writing a number that fits and reading it gives it back. */
  lemma {:induction false} NumberOfDigits(value: nat, n: nat)
    requires value < Power(n)
    ensures Number(Digits(value, n)) == value
    decreases n
  {
    if n > 0 {
      NumberOfDigits(value / 256, n - 1);
      var s := Digits(value, n);
      assert s[..|s| - 1] == Digits(value / 256, n - 1);
    }
  }

  lemma {:induction false} NumberFits(s: seq<byte>)
    ensures Number(s) < Power(|s|)
    decreases |s|
  {
    if s != [] {
      NumberFits(s[..|s| - 1]);
    }
  }

  lemma {:induction false} DigitsOfNumber(s: seq<byte>)
    ensures Digits(Number(s), |s|) == s
    decreases |s|
  {
    if s != [] {
      DigitsOfNumber(s[..|s| - 1]);
      assert s == s[..|s| - 1] + [s[|s| - 1]];
    }
  }

  /** Digit `i` as it is cut out of a number by shifting. */
  lemma {:induction false} DigitAt(value: nat, n: nat, i: nat)
    requires i < n
    ensures Digits(value, n)[i] == value / Power(n - i - 1) % 256
    decreases n
  {
    if i < n - 1 {
      DigitAt(value / 256, n - 1, i);
      DivideTwice(value, Power(n - i - 2));
    }
  }

  lemma DivideTwice(value: nat, p: nat)
    requires p > 0
    ensures value / 256 / p == value / (256 * p)
  {
    var q, k := value / 256 / p, value / (256 * p);
    var r := value / 256 % p;
    assert value / 256 == q * p + r;
    assert value == (q * p + r) * 256 + value % 256;
    assert value == q * (256 * p) + (r * 256 + value % 256);
    assert r * 256 + value % 256 < 256 * p;
    X.RestOfDivision(value, 256 * p, q, r * 256 + value % 256);
  }
}
