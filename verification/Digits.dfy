/**
 Positional notation: the bytes of a counter, the quintets of base32 and the six
 decimal digits of a code are all digits of a number in some base, most
 significant first.
 */
module Digits {
  import opened Base

  ghost predicate InBase(ds: seq<nat>, base: nat) {
    forall i | 0 <= i < |ds| :: ds[i] < base
  }

  function Power(base: nat, n: nat): (p: nat)
    ensures 1 <= base ==> 1 <= p
  {
    if n == 0 then 1 else
    var upper := Power(base, n - 1);
    assert 1 <= base && 1 <= upper ==> 1 <= upper * base;
    upper * base
  }

  /** The last n digits of v. */
  function ToDigits(v: nat, base: nat, n: nat): (ds: seq<nat>)
    requires 1 <= base
    ensures |ds| == n && InBase(ds, base)
  {
    if n == 0 then [] else ToDigits(v / base, base, n - 1) + [v % base]
  }

  function Number(ds: seq<nat>, base: nat): nat {
    if ds == [] then 0 else Number(ds[..|ds| - 1], base) * base + ds[|ds| - 1]
  }

  lemma DivMod(x: nat, base: nat, d: nat)
    requires d < base
    ensures (x * base + d) / base == x && (x * base + d) % base == d
  {
    ModOfBlock(x, base, d);
    Quotient(x * base + d, base, x, d);
  }

  lemma DivBelow(v: nat, base: nat, bound: nat)
    requires 1 <= base && v < bound * base
    ensures v / base < bound
  {
    assert v == v / base * base + v % base;
    if v / base >= bound {
      MulMonotone(bound, v / base, base);
    }
  }

  lemma DivIdentity(v: nat, base: nat)
    requires 1 <= base
    ensures v / base * base + v % base == v
  {
  }

  lemma MulMonotone(a: nat, b: nat, c: nat)
    requires a <= b
    ensures a * c <= b * c
  {
  }

  lemma NumberOfLonger(ds: seq<nat>, base: nat, d: nat)
    ensures Number(ds + [d], base) == Number(ds, base) * base + d
  {
    assert (ds + [d])[..|ds|] == ds;
  }

  lemma UpperDigitsBelow(v: nat, base: nat, n: nat)
    requires 1 <= base && 1 <= n && v < Power(base, n)
    ensures v / base < Power(base, n - 1)
  {
    DivBelow(v, base, Power(base, n - 1));
  }

  lemma LastDigit(v: nat, base: nat, n: nat)
    requires 1 <= base && 1 <= n
    requires Number(ToDigits(v / base, base, n - 1), base) == v / base
    ensures Number(ToDigits(v, base, n), base) == v
  {
    var upper, d := ToDigits(v / base, base, n - 1), v % base;
    assert ToDigits(v, base, n) == upper + [d];
    NumberOfLonger(upper, base, d);
    DivIdentity(v, base);
  }

  lemma {:induction false} NumberOfDigits(v: nat, base: nat, n: nat)
    requires 1 <= base && v < Power(base, n)
    ensures Number(ToDigits(v, base, n), base) == v
    decreases n
  {
    if n > 0 {
      UpperDigitsBelow(v, base, n);
      NumberOfDigits(v / base, base, n - 1);
      LastDigit(v, base, n);
    }
  }

  lemma Regroup(p: nat, size: nat, s: nat, base: nat, r: nat)
    requires s < size && r < base
    ensures (p * size + s) * base + r == p * (size * base) + (s * base + r)
    ensures s * base + r < size * base
  {
    assert (p * size + s) * base == p * size * base + s * base;
    MulAssoc(p, size, base);
    MulMonotone(s + 1, size, base);
  }

  lemma DivTwice(v: nat, base: nat, size: nat)
    requires 1 <= base && 1 <= size
    ensures 1 <= size * base && v / base / size == v / (size * base)
  {
    var q, r := v / base, v % base;
    var p, s := q / size, q % size;
    DivIdentity(v, base);
    DivIdentity(q, size);
    Regroup(p, size, s, base, r);
    Quotient(v, size * base, p, s * base + r);
  }

  lemma DivPower(v: nat, base: nat, m: nat)
    requires 1 <= base
    ensures v / Power(base, 0) == v && v / base / Power(base, m) == v / Power(base, m + 1)
  {
    DivTwice(v, base, Power(base, m));
    assert v / 1 == v;
  }

  lemma LastOfDigits(v: nat, base: nat, n: nat, k: nat)
    requires 1 <= base && k < n
    ensures ToDigits(v, base, n)[k] == if k == n - 1 then v % base else ToDigits(v / base, base, n - 1)[k]
  {
  }

  /** Digit k from the top is the number without its lower digits, modulo the base. */
  lemma {:induction false} DigitAt(v: nat, base: nat, n: nat, k: nat)
    requires 1 <= base && k < n
    ensures ToDigits(v, base, n)[k] == v / Power(base, n - 1 - k) % base
    decreases n
  {
    hide ToDigits, Power;
    LastOfDigits(v, base, n, k);
    if k == n - 1 {
      DivPower(v, base, 0);
    } else {
      DigitAt(v / base, base, n - 1, k);
      DivPower(v, base, n - 2 - k);
    }
  }

  lemma {:induction false} DigitsOfNumber(ds: seq<nat>, base: nat)
    requires 1 <= base && InBase(ds, base)
    ensures ToDigits(Number(ds, base), base, |ds|) == ds
    ensures Number(ds, base) < Power(base, |ds|)
  {
    if ds != [] {
      var n := |ds| - 1;
      DigitsOfNumber(ds[..n], base);
      DivMod(Number(ds[..n], base), base, ds[n]);
      MulMonotone(Number(ds[..n], base) + 1, Power(base, n), base);
    }
  }

  function Zeros(n: nat): (z: seq<nat>)
    ensures |z| == n && forall i | 0 <= i < n :: z[i] == 0
  {
    if n == 0 then [] else Zeros(n - 1) + [0]
  }

  /** Appending zeros multiplies, and a multiple of a power ends in zeros. */
  lemma {:induction false} NumberWithZeros(ds: seq<nat>, base: nat, m: nat)
    ensures Number(ds + Zeros(m), base) == Number(ds, base) * Power(base, m)
  {
    if m == 0 {
      assert ds + Zeros(0) == ds;
    } else {
      var longer := ds + Zeros(m);
      assert longer[..|longer| - 1] == ds + Zeros(m - 1);
      NumberWithZeros(ds, base, m - 1);
      MulAssoc(Number(ds, base), Power(base, m - 1), base);
    }
  }

  lemma MulAssoc(a: nat, b: nat, c: nat)
    ensures a * b * c == a * (b * c)
  {
  }

  lemma {:induction false} MultipleEndsInZeros(w: nat, base: nat, n: nat, m: nat)
    requires 1 <= base && m <= n
    ensures ToDigits(w * Power(base, m), base, n) == ToDigits(w, base, n - m) + Zeros(m)
  {
    if m == 0 {
      assert ToDigits(w, base, n) + Zeros(0) == ToDigits(w, base, n);
    } else {
      MulAssoc(w, Power(base, m - 1), base);
      DivMod(w * Power(base, m - 1), base, 0);
      MultipleEndsInZeros(w, base, n - 1, m - 1);
    }
  }
}
