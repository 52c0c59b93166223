/** Base-62 positional notation on digit sequences: the value a sequence of
    digits denotes and the canonical digits of a number. Digits are written
    most significant first, as in the encoded text. */
module Positional {
  import opened Alphabet

  function Pow(b: nat, e: nat): nat
  {
    if e == 0 then 1 else b * Pow(b, e - 1)
  }

  /** Every element is a base-62 digit. */
  predicate IsDigits(ds: seq<nat>)
  {
    forall i :: 0 <= i < |ds| ==> ds[i] < BASE
  }

  /** Digits with no leading zero digit; the empty sequence is the canonical
      form of zero. */
  predicate IsCanonical(ds: seq<nat>)
  {
    IsDigits(ds) && (|ds| == 0 || ds[0] != 0)
  }

  /** The number `ds` denotes, read left to right: each digit shifts the value
      read so far by one place and adds itself. The empty sequence is zero. */
  function Value(ds: seq<nat>): nat
  {
    if |ds| == 0 then 0 else Value(ds[..|ds| - 1]) * BASE + ds[|ds| - 1]
  }

  /** The canonical digits of `n`: repeated division by the base, remainders
      read back most significant first. Zero has no digits. */
  function Digits(n: nat): (ds: seq<nat>)
    ensures IsCanonical(ds)
    ensures |ds| == 0 <==> n == 0
    decreases n
  {
    if n == 0 then [] else Digits(n / BASE) + [n % BASE]
  }

  /** One more digit on the right: the value shifts up one place. */
  lemma ValueSnoc(ds: seq<nat>, d: nat)
    ensures Value(ds + [d]) == Value(ds) * BASE + d
  {
    assert (ds + [d])[..|ds|] == ds;
  }

  /** The canonical digits of `n` denote `n`. */
  lemma {:induction false} ValueOfDigits(n: nat)
    ensures Value(Digits(n)) == n
    decreases n
  {
    if n > 0 {
      ValueOfDigits(n / BASE);
      ValueSnoc(Digits(n / BASE), n % BASE);
    }
  }

  /** `k` base-62 digits denote less than 62^k; with a non-zero leading digit
      they denote at least 62^(k-1). */
  lemma {:induction false} ValueBounds(ds: seq<nat>)
    requires IsDigits(ds)
    ensures Value(ds) < Pow(BASE, |ds|)
    ensures |ds| > 0 && ds[0] != 0 ==> Pow(BASE, |ds| - 1) <= Value(ds)
    decreases |ds|
  {
    if |ds| > 0 {
      var init := ds[..|ds| - 1];
      assert IsDigits(init);
      ValueBounds(init);
      if |init| > 0 {
        assert init[0] == ds[0];
      }
    }
  }

  /** A canonical digit sequence is the canonical form of its own value, so
      canonical digits and numbers are in one-to-one correspondence. */
  lemma {:induction false} DigitsOfValue(ds: seq<nat>)
    requires IsCanonical(ds)
    ensures Digits(Value(ds)) == ds
    decreases |ds|
  {
    if |ds| > 0 {
      var init := ds[..|ds| - 1];
      var last := ds[|ds| - 1];
      ValueBounds(ds);
      assert Value(ds) > 0;
      assert Value(ds) / BASE == Value(init) && Value(ds) % BASE == last;
      if |init| > 0 {
        assert init[0] == ds[0];
      }
      DigitsOfValue(init);
      assert ds == init + [last];
    }
  }

  /** Powers of the base grow with the exponent. */
  lemma {:induction false} PowMonotone(a: nat, b: nat)
    requires a <= b
    ensures 1 <= Pow(BASE, a) <= Pow(BASE, b)
    decreases b
  {
    if b > 0 {
      if a < b {
        PowMonotone(a, b - 1);
      } else {
        PowMonotone(a - 1, b - 1);
      }
    }
  }

  /** A positive number has `k` canonical digits exactly when
      62^(k-1) <= n < 62^k: the digit count satisfies the bounds, and no
      other count does. */
  lemma DigitsLength(n: nat)
    requires n > 0
    ensures Pow(BASE, |Digits(n)| - 1) <= n < Pow(BASE, |Digits(n)|)
    ensures forall k: nat :: 0 < k && Pow(BASE, k - 1) <= n < Pow(BASE, k) ==> |Digits(n)| == k
  {
    var m := |Digits(n)|;
    ValueOfDigits(n);
    ValueBounds(Digits(n));
    forall k: nat | 0 < k && Pow(BASE, k - 1) <= n < Pow(BASE, k)
      ensures m == k
    {
      if k < m {
        PowMonotone(k, m - 1);
      } else if m < k {
        PowMonotone(m, k - 1);
      }
    }
  }

  /** A larger number never has fewer digits. */
  lemma {:induction false} DigitsLengthMonotone(a: nat, b: nat)
    requires a <= b
    ensures |Digits(a)| <= |Digits(b)|
    decreases b
  {
    if a > 0 {
      DigitsLengthMonotone(a / BASE, b / BASE);
    }
  }

  /** Reading fewer digits from the left never gives a larger value. */
  lemma {:induction false} ValuePrefix(ds: seq<nat>, k: nat)
    requires k <= |ds|
    ensures Value(ds[..k]) <= Value(ds)
    decreases |ds|
  {
    if k < |ds| {
      var init := ds[..|ds| - 1];
      assert init[..k] == ds[..k];
      ValuePrefix(init, k);
    } else {
      assert ds[..k] == ds;
    }
  }

  /** A leading zero digit does not change the value. */
  lemma {:induction false} ValueLeadingZero(ds: seq<nat>)
    ensures Value([0] + ds) == Value(ds)
    decreases |ds|
  {
    if |ds| > 0 {
      var init := ds[..|ds| - 1];
      assert ([0] + ds)[..|ds|] == [0] + init;
      ValueLeadingZero(init);
    }
  }
}
