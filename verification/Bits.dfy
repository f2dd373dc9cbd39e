// Shifts and fixed-width digit strings: how chunk symbols sit in a 16-bit word.
module Bits {
  import opened Wire

  // x >> n and x << n on unbounded naturals.
  function Shr(x: nat, n: nat): nat { if n == 0 then x else Shr(x, n - 1) / 2 }

  function Shl(x: nat, n: nat): nat { if n == 0 then x else 2 * Shl(x, n - 1) }

  lemma ShrNext(x: nat, n: nat)
    ensures Shr(x, n + 1) == Shr(x, n) / 2
  {
  }

  // The number whose digits, most significant first, are `ds`; a digit is `w` bits wide.
  function Digits(w: nat, ds: seq<nat>): nat
    requires 1 <= w <= 2
  {
    if ds == [] then 0 else Digits(w, ds[..|ds| - 1]) * (if w == 1 then 2 else 4) + ds[|ds| - 1]
  }

  ghost predicate AreDigits(w: nat, ds: seq<nat>)
    requires 1 <= w <= 2
  {
    forall d <- ds :: d < if w == 1 then 2 else 4
  }

  function Zeros(n: nat): (r: seq<nat>)
    ensures |r| == n
  {
    Repeat(0, n)
  }

  // Shifting right drops the low digits.
  lemma {:induction false} ShrDigits(w: nat, ds: seq<nat>, k: nat)
    requires 1 <= w <= 2 && AreDigits(w, ds) && k <= |ds|
    ensures Shr(Digits(w, ds), w * k) == Digits(w, ds[..|ds| - k])
  {
    if k == 0 {
      assert ds[..|ds|] == ds;
    } else {
      ShrDigits(w, ds, k - 1);
      var hi := ds[..|ds| - (k - 1)];
      assert hi[..|hi| - 1] == ds[..|ds| - k];
      assert hi[|hi| - 1] in ds;
      assert Shr(Digits(w, ds), w * k) == Shr(Digits(w, ds), w * (k - 1)) / (if w == 1 then 2 else 4);
    }
  }

  // Hence the digit at position j is read by a shift and a mask.
  lemma DigitAt(w: nat, ds: seq<nat>, j: nat)
    requires 1 <= w <= 2 && AreDigits(w, ds) && j < |ds|
    ensures Shr(Digits(w, ds), w * (|ds| - 1 - j)) % (if w == 1 then 2 else 4) == ds[j]
  {
    hide Shr;
    ShrDigits(w, ds, |ds| - 1 - j);
    var hi := ds[..j + 1];
    assert hi[..|hi| - 1] == ds[..j] && hi[|hi| - 1] == ds[j];
    assert ds[j] in ds;
  }

  lemma ZerosInit(m: nat)
    requires m > 0
    ensures Zeros(m)[..m - 1] == Zeros(m - 1)
  {
    RepeatAt<nat>(0, m);
    RepeatAt<nat>(0, m - 1);
  }

  // Or-ing a digit into a zero position adds its shifted value.
  lemma {:induction false} PlaceDigit(w: nat, hi: seq<nat>, d: nat, m: nat)
    requires 1 <= w <= 2
    ensures Digits(w, hi + [d] + Zeros(m)) == Digits(w, hi + Zeros(m + 1)) + Shl(d, w * m)
  {
    var a, b := hi + [d] + Zeros(m), hi + Zeros(m + 1);
    hide Repeat;
    ZerosInit(m + 1);
    RepeatAt<nat>(0, m + 1);
    if m == 0 {
      assert a[..|a| - 1] == hi == b[..|b| - 1];
    } else {
      PlaceDigit(w, hi, d, m - 1);
      ZerosInit(m);
      RepeatAt<nat>(0, m);
      assert a[..|a| - 1] == hi + [d] + Zeros(m - 1);
      assert b[..|b| - 1] == hi + Zeros(m);
      assert Shl(d, w * m) == Shl(d, w * (m - 1)) * (if w == 1 then 2 else 4);
    }
  }

  lemma {:induction false} DigitsBound(w: nat, ds: seq<nat>)
    requires 1 <= w <= 2 && AreDigits(w, ds)
    ensures Digits(w, ds) < Shl(1, w * |ds|)
  {
    if ds != [] {
      var n := |ds| - 1;
      assert forall d <- ds[..n] :: d in ds;
      DigitsBound(w, ds[..n]);
      assert ds[n] in ds;
      assert Shl(1, w * |ds|) == Shl(1, w * n) * (if w == 1 then 2 else 4);
    }
  }

  lemma {:induction false} ShrHalves(x: nat, n: nat)
    ensures Shr(x, n + 1) == Shr(x / 2, n)
  {
    if n > 0 {
      ShrHalves(x, n - 1);
    }
  }

  lemma {:induction false} ShrSmall(x: nat, n: nat)
    requires x < Shl(1, n)
    ensures Shr(x, n) == 0
  {
    if n > 0 {
      ShrHalves(x, n - 1);
      ShrSmall(x / 2, n - 1);
    }
  }

  // Zero digits at the end shift the number left.
  lemma {:induction false} ZerosShift(w: nat, hi: seq<nat>, m: nat)
    requires 1 <= w <= 2
    ensures Digits(w, hi + Zeros(m)) == Shl(Digits(w, hi), w * m)
  {
    if m == 0 {
      assert hi + Zeros(m) == hi;
    } else {
      ZerosShift(w, hi, m - 1);
      ZerosInit(m);
      RepeatAt<nat>(0, m);
      var a := hi + Zeros(m);
      assert a[..|a| - 1] == hi + Zeros(m - 1);
      assert Shl(Digits(w, hi), w * m) == Shl(Digits(w, hi), w * (m - 1)) * (if w == 1 then 2 else 4);
    }
  }

  lemma {:induction false} ShlSmall(x: nat, n: nat)
    ensures Shl(x, n) == x * Shl(1, n)
  {
    if n > 0 {
      ShlSmall(x, n - 1);
    }
  }

  lemma Shl16()
    ensures Shl(1, 13) == 0x2000 && Shl(1, 14) == 0x4000 && Shl(1, 16) == 0x1_0000
  {
    assert Shl(1, 4) == 16;
    assert Shl(1, 8) == 256;
    assert Shl(1, 12) == 4096;
  }
}
