/** Powers of two and the bit tricks the hash table relies on. */
module Bits {
  function Exp2(k: nat): (p: nat)
    ensures p > 0
  {
    if k == 0 then 1 else 2 * Exp2(k - 1)
  }

  predicate IsPow2(n: nat) {
    exists k :: 0 <= k <= n && Exp2(k) == n
  }

  lemma {:induction false} ExpAbove(k: nat)
    ensures k < Exp2(k)
  {
    if k > 0 { ExpAbove(k - 1); }
  }

  lemma {:induction false} ExpSum(a: nat, b: nat)
    ensures Exp2(a + b) == Exp2(a) * Exp2(b)
  {
    if a > 0 {
      ExpSum(a - 1, b);
      assert Exp2(a + b) == 2 * (Exp2(a - 1) * Exp2(b));
    }
  }

  lemma Pow2Double(n: nat)
    requires IsPow2(n)
    ensures IsPow2(2 * n)
  {
    var k :| 0 <= k <= n && Exp2(k) == n;
    ExpAbove(k + 1);
    assert Exp2(k + 1) == 2 * n;
  }

  lemma Pow2Half(n: nat)
    requires IsPow2(n) && n > 1
    ensures IsPow2(n / 2) && n == 2 * (n / 2)
  {
    var k :| 0 <= k <= n && Exp2(k) == n;
    ExpAbove(k - 1);
    assert Exp2(k - 1) == n / 2;
  }

  /** Bitwise and of two unsigned numbers. */
  function And(a: nat, b: nat): nat {
    if a == 0 || b == 0 then 0
    else 2 * And(a / 2, b / 2) + if a % 2 == 1 && b % 2 == 1 then 1 else 0
  }

  /** Bitwise or of two unsigned numbers. */
  function Or(a: nat, b: nat): nat {
    if a == 0 then b else if b == 0 then a
    else 2 * Or(a / 2, b / 2) + if a % 2 == 1 || b % 2 == 1 then 1 else 0
  }

  lemma MulLe(a: nat, b: nat, m: nat)
    requires a <= b
    ensures a * m <= b * m
  {
    assert b * m == a * m + (b - a) * m;
  }

  lemma ModUnique(h: nat, m: nat, q: nat, r: nat)
    requires m > 0 && h == q * m + r && r < m
    ensures h % m == r && h / m == q
  {
    var q0, r0 := h / m, h % m;
    assert h == q0 * m + r0;
    if q0 < q {
      MulLe(q0 + 1, q, m);
    } else if q < q0 {
      MulLe(q + 1, q0, m);
    }
  }

  lemma Halves(h: nat, m: nat)
    requires m > 0
    ensures h % (2 * m) == 2 * ((h / 2) % m) + h % 2 && h / (2 * m) == (h / 2) / m
  {
    var q, r := (h / 2) / m, (h / 2) % m;
    assert h / 2 == q * m + r;
    assert 2 * (q * m) == q * (2 * m);
    ModUnique(h, 2 * m, q, 2 * r + h % 2);
  }

  /** One binary digit at a time. */
  lemma AndStep(a: nat, b: nat)
    ensures And(a, b) == 2 * And(a / 2, b / 2) + if a % 2 == 1 && b % 2 == 1 then 1 else 0
  {
  }

  lemma OrStep(a: nat, b: nat)
    ensures Or(a, b) == 2 * Or(a / 2, b / 2) + if a % 2 == 1 || b % 2 == 1 then 1 else 0
  {
  }

  /** Masking with a power of two less one takes the remainder. */
  lemma {:induction false} MaskIsModulus(h: nat, k: nat)
    ensures And(h, Exp2(k) - 1) == h % Exp2(k)
  {
    hide And;
    if k > 0 {
      var m := Exp2(k - 1);
      MaskIsModulus(h / 2, k - 1);
      Halves(h, m);
      AndStep(h, 2 * m - 1);
      OddHalf(m);
    } else {
      AndZero(h);
    }
  }

  // ----- rounding up to a power of two -----

  function Shr(a: nat, k: nat): nat
    decreases k
  {
    if k == 0 then a else Shr(a / 2, k - 1)
  }

  lemma {:induction false} ShrIsDivision(a: nat, k: nat)
    ensures Shr(a, k) == a / Exp2(k)
  {
    if k > 0 {
      ShrIsDivision(a / 2, k - 1);
      Halves(a, Exp2(k - 1));
    }
  }

  lemma {:induction false} OrShift(a: nat, b: nat, k: nat)
    ensures Shr(Or(a, b), k) == Or(Shr(a, k), Shr(b, k))
    decreases k
  {
    if k > 0 {
      OrStep(a, b);
      assert Or(a, b) / 2 == Or(a / 2, b / 2);
      OrShift(a / 2, b / 2, k - 1);
    }
  }

  lemma {:induction false} ShrShr(a: nat, j: nat, k: nat)
    ensures Shr(Shr(a, j), k) == Shr(a, j + k)
    decreases j
  {
    if j > 0 { ShrShr(a / 2, j - 1, k); }
  }

  /** Or-ing in w ones fills the low w digits. */
  lemma {:induction false} OrLow(a: nat, w: nat)
    ensures Shr(a, w) >= 0 && Or(a, Exp2(w) - 1) == Shr(a, w) * Exp2(w) + Exp2(w) - 1
    decreases w
  {
    hide Or;
    if w > 0 {
      var m, h := Exp2(w - 1), Shr(a, w);
      OrLow(a / 2, w - 1);
      OrStep(a, 2 * m - 1);
      OddHalf(m);
      Twice(h, m);
    } else {
      OrZero(a);
    }
  }

  lemma AndZero(a: nat)
    ensures And(a, 0) == 0
  {
  }

  lemma OrZero(a: nat)
    ensures Or(a, 0) == a
  {
  }

  lemma OddHalf(m: nat)
    requires m > 0
    ensures (2 * m - 1) / 2 == m - 1 && (2 * m - 1) % 2 == 1
  {
  }

  lemma Twice(a: nat, b: nat)
    ensures 2 * (a * b) == a * (2 * b)
  {
  }

  /** The position of the highest one digit, plus one. */
  function Length(a: nat): nat {
    if a == 0 then 0 else 1 + Length(a / 2)
  }

  lemma {:induction false} LengthBounds(a: nat)
    ensures a < Exp2(Length(a)) && (a > 0 ==> Exp2(Length(a) - 1) <= a)
  {
    if a > 0 { LengthBounds(a / 2); }
  }

  lemma {:induction false} ShrLength(a: nat, k: nat)
    ensures Length(Shr(a, k)) == if k <= Length(a) then Length(a) - k else 0
    decreases k
  {
    if k > 0 { ShrLength(a / 2, k - 1); }
  }

  lemma {:induction false} LengthOr(a: nat, b: nat)
    requires Length(b) <= Length(a)
    ensures Length(Or(a, b)) == Length(a)
  {
    if a != 0 && b != 0 { LengthOr(a / 2, b / 2); }
  }

  lemma {:induction false} LengthMonotone(a: nat, b: nat)
    requires a <= b
    ensures Length(a) <= Length(b)
  {
    if a > 0 { LengthMonotone(a / 2, b / 2); }
  }

  /** The top `w` digits of `a` are ones. */
  predicate Filled(a: nat, w: nat) {
    if w <= Length(a) then Shr(a, Length(a) - w) == Exp2(w) - 1 else a == Exp2(Length(a)) - 1
  }

  function Fold(v: nat, w: nat): nat { Or(v, Shr(v, w)) }

  /** One folding step doubles the run of ones at the top. */
  lemma FoldDoubles(v: nat, w: nat)
    requires Filled(v, w) && w > 0
    ensures Filled(Fold(v, w), 2 * w) && Length(Fold(v, w)) == Length(v)
  {
    var len := Length(v);
    ShrLength(v, w);
    LengthOr(v, Shr(v, w));
    if 2 * w <= len {
      var k := len - 2 * w;
      OrShift(v, Shr(v, w), k);
      ShrShr(v, w, k);
      assert Shr(v, w + k) == Exp2(w) - 1;
      OrLow(Shr(v, k), w);
      ShrShr(v, k, w);
      OnesTimes(w, w);
    } else if w <= len {
      assert Shr(v, w) == Shr(v, w);
      FoldTail(v, w);
    } else {
      ShrZero(v, w);
    }
  }

  lemma ShrZero(v: nat, w: nat)
    requires Length(v) <= w
    ensures Shr(v, w) == 0
  {
    ShrLength(v, w);
  }

  /** When fewer than `w` digits are left below the run, all of them are filled. */
  lemma FoldTail(v: nat, w: nat)
    requires 0 < w <= Length(v) < 2 * w && Filled(v, w)
    ensures Fold(v, w) == Exp2(Length(v)) - 1
  {
    hide Or, Shr, Exp2, Length;
    var t := Length(v) - w;  // digits below the run
    ShrShr(v, t, w - t);
    assert Shr(v, w) == Shr(Exp2(w) - 1, w - t);
    ShrOnes(w, w - t);
    OrLow(v, t);
    OnesTimes(w, t);
  }

  lemma OnesTimes(w: nat, t: nat)
    ensures (Exp2(w) - 1) * Exp2(t) + Exp2(t) == Exp2(w + t)
  {
    var p, q := Exp2(w), Exp2(t);
    assert (p - 1) * q + q == p * q;
    ExpSum(w, t);
  }

  lemma {:induction false} ShrOnes(w: nat, k: nat)
    requires k <= w
    ensures Shr(Exp2(w) - 1, k) == Exp2(w - k) - 1
    decreases k
  {
    if k > 0 {
      assert (Exp2(w) - 1) / 2 == Exp2(w - 1) - 1;
      ShrOnes(w - 1, k - 1);
    }
  }

  /** The least power of two that is at least `v`, by folding the top digit downwards.  Only 32
      digits are folded. */
  method UpperPowerOfTwo(v0: nat) returns (v: nat)
    requires 1 <= v0 <= 0x1_0000_0000
    ensures IsPow2(v) && v0 <= v && forall p :: IsPow2(p) && v0 <= p ==> v <= p
  {
    v := v0 - 1;
    ghost var n := v;
    LengthBounds(n);
    ShrLength(n, Length(n) - if n == 0 then 0 else 1);
    v := Or(v, Shr(v, 1));
    v := Or(v, Shr(v, 2));
    v := Or(v, Shr(v, 4));
    v := Or(v, Shr(v, 8));
    v := Or(v, Shr(v, 16));
    FoldAll(n, v);
    v := v + 1;
    ExpAbove(Length(n));
    forall p | IsPow2(p) && v0 <= p ensures v <= p {
      var k :| 0 <= k <= p && Exp2(k) == p;
      ExpOrder(Length(n), k, n);
    }
  }

  lemma TopDigit(a: nat)
    ensures a > 0 ==> Filled(a, 1)
  {
    if a > 0 {
      ShrLength(a, Length(a) - 1);
      var t := Shr(a, Length(a) - 1);
      assert Length(t) == 1;
      LengthBounds(t);
    }
  }

  lemma FoldAll(n: nat, v: nat)
    requires n < 0x1_0000_0000
    requires v == Fold(Fold(Fold(Fold(Fold(n, 1), 2), 4), 8), 16)
    ensures v == Exp2(Length(n)) - 1
  {
    hide Or, Shr, Length, Fold, Exp2;
    if n > 0 {
      TopDigit(n);
      FoldDoubles(n, 1);
      var a := Fold(n, 1);
      FoldDoubles(a, 2);
      var b := Fold(a, 2);
      FoldDoubles(b, 4);
      var c := Fold(b, 4);
      FoldDoubles(c, 8);
      var d := Fold(c, 8);
      FoldDoubles(d, 16);
      LengthMonotone(n, 0xFFFF_FFFF);
      Length32();
      ShrNone(v);
    } else {
      FoldNone();
    }
  }

  lemma ShrNone(v: nat)
    ensures Shr(v, 0) == v
  {
  }

  lemma FoldNone()
    ensures Fold(Fold(Fold(Fold(Fold(0, 1), 2), 4), 8), 16) == 0 && Length(0) == 0 && Exp2(0) == 1
  {
    ShrZero(0, 1);
    ShrZero(0, 2);
    ShrZero(0, 4);
    ShrZero(0, 8);
    ShrZero(0, 16);
  }

  lemma Exp32()
    ensures Exp2(32) == 0x1_0000_0000
  {
    assert Exp2(8) == 256;
    ExpSum(8, 8);
    assert Exp2(16) == 65536;
    ExpSum(16, 16);
  }

  lemma Length32()
    ensures Length(0xFFFF_FFFF) == 32
  {
    hide Exp2, Length;
    Exp32();
    LengthOnes(32);
  }

  lemma {:induction false} LengthOnes(k: nat)
    ensures Length(Exp2(k) - 1) == k
  {
    if k > 0 { LengthOnes(k - 1); }
  }

  lemma ExpOrder(len: nat, k: nat, n: nat)
    requires Exp2(k) > n && len == Length(n)
    ensures Exp2(len) <= Exp2(k)
  {
    LengthBounds(n);
    if k < len { ExpGrows(k, len - 1); }
    else { ExpGrows(len, k); }
  }

  lemma {:induction false} ExpGrows(a: nat, b: nat)
    requires a <= b
    ensures Exp2(a) <= Exp2(b)
  {
    if a < b { ExpGrows(a, b - 1); }
  }

  /** A number without a digit in common with its predecessor is a power of two. */
  lemma {:induction false} NoCommonDigit(n: nat)
    requires n > 0 && And(n, n - 1) == 0
    ensures IsPow2(n)
  {
    if n == 1 {
      assert Exp2(0) == 1;
    } else {
      AndStep(n, n - 1);
      if n % 2 == 1 {
        assert (n - 1) / 2 == n / 2;
        AndOnes(n / 2);
      } else {
        assert (n - 1) / 2 == n / 2 - 1;
        NoCommonDigit(n / 2);
        Pow2Double(n / 2);
      }
    }
  }

  lemma {:induction false} AndOnes(a: nat)
    ensures And(a, a) == a
  {
    if a > 0 { AndOnes(a / 2); }
  }

  lemma BigPower()
    ensures IsPow2(0x4000_0000)
  {
    Exp32();
    assert Exp2(31) == 0x8000_0000 && Exp2(30) == 0x4000_0000;
  }
}
