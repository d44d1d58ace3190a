/** Natural numbers as strings of bits: the meaning of `|`, `&` and `>>` on unsigned integers. */
module Binary {
  import opened Arithmetic

  function Pow2(n: nat): (p: nat)
    ensures p > 0
  {
    if n == 0 then 1 else 2 * Pow2(n - 1)
  }

  predicate Bit(v: nat, i: nat)
    decreases i
  {
    if i == 0 then v % 2 == 1 else Bit(v / 2, i - 1)
  }

  function Or(a: nat, b: nat): nat
    decreases a + b
  {
    if a == 0 && b == 0 then 0
    else 2 * Or(a / 2, b / 2) + if a % 2 == 1 || b % 2 == 1 then 1 else 0
  }

  function And(a: nat, b: nat): nat
    decreases a + b
  {
    if a == 0 && b == 0 then 0
    else 2 * And(a / 2, b / 2) + if a % 2 == 1 && b % 2 == 1 then 1 else 0
  }

  /** `v >> k` */
  function Shr(v: nat, k: nat): nat
    decreases k
  {
    if k == 0 then v else Shr(v / 2, k - 1)
  }

  lemma {:induction false} OrBit(a: nat, b: nat, i: nat)
    ensures Bit(Or(a, b), i) <==> Bit(a, i) || Bit(b, i)
    decreases i
  {
    if a == 0 && b == 0 {
    } else {
      var half, low := Or(a / 2, b / 2), if a % 2 == 1 || b % 2 == 1 then 1 else 0;
      assert Or(a, b) == 2 * half + low;
      assert Or(a, b) / 2 == half && Or(a, b) % 2 == low;
      if i > 0 {
        OrBit(a / 2, b / 2, i - 1);
      }
    }
  }

  lemma {:induction false} ShrDivides(v: nat, k: nat)
    ensures Shr(v, k) == v / Pow2(k)
    decreases k
  {
    if k > 0 {
      ShrDivides(v / 2, k - 1);
      DivMod(v, 2, Pow2(k - 1));
    }
  }

  lemma {:induction false} ShrBit(v: nat, k: nat, i: nat)
    ensures Bit(Shr(v, k), i) <==> Bit(v, i + k)
    decreases k
  {
    if k > 0 {
      ShrBit(v / 2, k - 1, i);
    }
  }

  /** A number is determined by its bits. */
  lemma {:induction false} SameBits(a: nat, b: nat)
    requires forall i: nat :: Bit(a, i) <==> Bit(b, i)
    ensures a == b
  {
    if a + b > 0 {
      assert Bit(a, 0) <==> Bit(b, 0);
      forall i: nat
        ensures Bit(a / 2, i) <==> Bit(b / 2, i)
      {
        assert Bit(a, i + 1) <==> Bit(b, i + 1);
      }
      SameBits(a / 2, b / 2);
    }
  }

  /** 2^n - 1 is n ones. */
  lemma {:induction false} AllOnes(n: nat, i: nat)
    ensures Bit(Pow2(n) - 1, i) <==> i < n
    decreases n
  {
    if n > 0 {
      assert (Pow2(n) - 1) / 2 == Pow2(n - 1) - 1 && (Pow2(n) - 1) % 2 == 1;
      if i > 0 {
        AllOnes(n - 1, i - 1);
      }
    } else {
      NoBits(i);
    }
  }

  lemma {:induction false} NoBits(i: nat)
    ensures !Bit(0, i)
  {
    if i > 0 {
      NoBits(i - 1);
    }
  }

  /** The position of the highest one. */
  function Top(v: nat): (h: nat)
    requires v > 0
    ensures Pow2(h) <= v < Pow2(h + 1)
  {
    if v == 1 then 0 else 1 + Top(v / 2)
  }

  lemma {:induction false} TopBit(v: nat, i: nat)
    requires v > 0
    ensures Bit(v, Top(v)) && (i > Top(v) ==> !Bit(v, i))
  {
    if v == 1 {
      if i > 0 {
        NoBits(i - 1);
      }
    } else {
      TopBit(v / 2, if i > 0 then i - 1 else 0);
    }
  }

  lemma {:induction false} Pow2Monotone(a: nat, b: nat)
    requires a <= b
    ensures Pow2(a) <= Pow2(b)
  {
    if a < b {
      Pow2Monotone(a, b - 1);
    }
  }

  lemma TopBelow(v: nat, n: nat)
    requires 0 < v < Pow2(n)
    ensures Top(v) < n
  {
    if Top(v) >= n {
      Pow2Monotone(n, Top(v));
    }
  }

  lemma {:induction false} Pow2Add(a: nat, b: nat)
    ensures Pow2(a + b) == Pow2(a) * Pow2(b)
  {
    if a > 0 {
      Pow2Add(a - 1, b);
    }
  }

  // ---------- Counting ones ----------

  function Ones(v: nat): nat {
    if v == 0 then 0 else v % 2 + Ones(v / 2)
  }

  lemma HalfOfSum(n: nat, y: nat)
    ensures (2 * n + y) / 2 == n + y / 2 && (2 * n + y) % 2 == y % 2
  {
  }

  lemma OnesStep(v: nat, half: nat, low: nat)
    requires v / 2 == half && v % 2 == low
    ensures Ones(v) == low + Ones(half)
  {
  }

  /** `x << k` */
  function Shl(x: nat, k: nat): nat {
    if k == 0 then x else 2 * Shl(x, k - 1)
  }

  lemma {:induction false} ShlMultiplies(x: nat, k: nat)
    ensures Shl(x, k) == x * Pow2(k)
  {
    if k > 0 {
      ShlMultiplies(x, k - 1);
    }
  }

  lemma {:induction false} OnesAbove(x: nat, y: nat, k: nat)
    requires y < Pow2(k)
    ensures Ones(Shl(x, k) + y) == Ones(x) + Ones(y)
    decreases k
  {
    if k > 0 {
      var n := Shl(x, k - 1);
      HalfOfSum(n, y);
      OnesStep(2 * n + y, n + y / 2, y % 2);
      OnesStep(y, y / 2, y % 2);
      OnesAbove(x, y / 2, k - 1);
    }
  }

  lemma OnesSplit(x: nat, y: nat, k: nat)
    requires y < Pow2(k)
    ensures Ones(x * Pow2(k) + y) == Ones(x) + Ones(y)
  {
    ShlMultiplies(x, k);
    OnesAbove(x, y, k);
  }

  /** `v` with its highest one cleared. */
  function ClearTop(v: nat): nat {
    if v == 0 then 0 else v - Pow2(Top(v))
  }

  lemma ClearTopHalf(v: nat)
    requires v > 1
    ensures ClearTop(v) / 2 == ClearTop(v / 2) && ClearTop(v) % 2 == v % 2
  {
    assert Pow2(Top(v)) == 2 * Pow2(Top(v / 2));
  }

  lemma {:induction false} ClearTopOnes(v: nat)
    requires v > 0
    ensures Ones(ClearTop(v)) == Ones(v) - 1
  {
    if v > 1 {
      ClearTopOnes(v / 2);
      ClearTopHalf(v);
      OnesStep(v, v / 2, v % 2);
      OnesStep(ClearTop(v), ClearTop(v / 2), v % 2);
    }
  }
}
