/** The bit functions of my_bit.h.  A uint32 is a number below 2^32; the byte tables, which are not part of this
    model, are parameters with a statement of what their entries are. */
module BitTricks {
  import opened Arithmetic
  import opened Binary

  const UINT32 := 0x1_0000_0000

  type Uint32 = n: nat | n < UINT32

  lemma Powers()
    ensures Pow2(8) == 0x100 && Pow2(16) == 0x1_0000 && Pow2(24) == 0x100_0000 && Pow2(32) == UINT32
    ensures Pow2(31) == 0x8000_0000
  {
    assert Pow2(8) == 0x100;
    Pow2Add(8, 8);
    Pow2Add(16, 8);
    Pow2Add(16, 16);
  }

  // ---------- Smearing ones to the right ----------

  /** Bit `i` of `w` says whether `v` has a one among its bits i .. i+k-1. */
  ghost predicate Window(v: nat, w: nat, k: nat) {
    forall i: nat :: Bit(w, i) <==> OneWithin(v, i, k)
  }

  ghost predicate OneWithin(v: nat, i: nat, k: nat) {
    exists j :: i <= j < i + k && Bit(v, j)
  }

  /** One `w |= w >> k` doubles the window. */
  lemma SmearStep(v: nat, w: nat, k: nat)
    requires Window(v, w, k)
    ensures Window(v, Or(w, Shr(w, k)), 2 * k)
  {
    forall i: nat
      ensures Bit(Or(w, Shr(w, k)), i) <==> OneWithin(v, i, 2 * k)
    {
      OrBit(w, Shr(w, k), i);
      ShrBit(w, k, i);
      assert OneWithin(v, i, 2 * k) <==> OneWithin(v, i, k) || OneWithin(v, i + k, k);
    }
  }

  lemma SelfWindow(v: nat)
    ensures Window(v, v, 1)
  {
    forall i: nat
      ensures Bit(v, i) <==> OneWithin(v, i, 1)
    {
    }
  }

  /** A window of 32 fills everything below the highest one. */
  lemma FullSmear(v: nat, w: nat)
    requires v < Pow2(32) && Window(v, w, 32)
    ensures w == if v == 0 then 0 else Pow2(Top(v) + 1) - 1
  {
    var n := if v == 0 then 0 else Top(v) + 1;
    forall i: nat
      ensures Bit(w, i) <==> Bit(Pow2(n) - 1, i)
    {
      AllOnes(n, i);
      FullWindow(v, n, i);
    }
    SameBits(w, Pow2(n) - 1);
  }

  lemma FullWindow(v: nat, n: nat, i: nat)
    requires v < Pow2(32) && n == if v == 0 then 0 else Top(v) + 1
    ensures OneWithin(v, i, 32) <==> i < n
  {
    if v == 0 {
      forall j: nat
        ensures !Bit(v, j)
      {
        NoBits(j);
      }
    } else {
      TopBelow(v, 32);
      TopBit(v, 0);
      forall j: nat | j > Top(v)
        ensures !Bit(v, j)
      {
        TopBit(v, j);
      }
    }
  }

  /** The five shifts of my_bit.h, starting from `v`. */
  method Smear(v: Uint32) returns (w: nat)
    ensures w == if v == 0 then 0 else Pow2(Top(v) + 1) - 1
  {
    Powers();
    SelfWindow(v);
    SmearStep(v, v, 1);
    w := Or(v, Shr(v, 1));
    SmearStep(v, w, 2);
    w := Or(w, Shr(w, 2));
    SmearStep(v, w, 4);
    w := Or(w, Shr(w, 4));
    SmearStep(v, w, 8);
    w := Or(w, Shr(w, 8));
    SmearStep(v, w, 16);
    w := Or(w, Shr(w, 16));
    FullSmear(v, w);
  }

  // ---------- Logarithm and powers of two ----------

  /** The floor of the logarithm, and not, as the comment above the loop says, its ceiling. */
  method MyBitLog2(value: nat) returns (bit: nat)
    ensures value > 0 ==> Pow2(bit) <= value < Pow2(bit + 1)
    ensures bit == if value == 0 then 0 else Top(value)
  {
    var v := value;
    bit := 0;
    while v > 1
      invariant value > 0 ==> v > 0 && Top(value) == bit + Top(v)
      invariant value == 0 ==> v == 0 && bit == 0
    {
      v := v / 2;
      bit := bit + 1;
    }
  }

  ghost predicate IsLeastPowerNotBelow(r: nat, v: nat) {
    && (exists e :: r == Pow2(e))
    && r >= v
    && forall e :: Pow2(e) >= v ==> Pow2(e) >= r
  }

  /** The power of two that follows the highest one of `v - 1`. */
  lemma NextPowerIsLeast(v: nat)
    requires v > 1
    ensures IsLeastPowerNotBelow(Pow2(Top(v - 1) + 1), v)
  {
    forall e: nat | Pow2(e) >= v
      ensures Pow2(e) >= Pow2(Top(v - 1) + 1)
    {
      TopBelow(v - 1, e);
      Pow2Monotone(Top(v - 1) + 1, e);
    }
  }

  /** The smear of `v - 1`, plus one. */
  ghost function RoundedUp(v: nat): nat
    requires v > 0
  {
    if v == 1 then 1 else Pow2(Top(v - 1) + 1)
  }

  lemma RoundedUpIsLeast(v: nat)
    requires v > 0
    ensures IsLeastPowerNotBelow(RoundedUp(v), v)
  {
    if v == 1 {
      assert Pow2(0) == 1;
    } else {
      NextPowerIsLeast(v);
    }
  }

  /** The logarithm, rounded up. */
  function Exponent(v: nat): nat
    requires v > 0
  {
    Top(v) + if v == Pow2(Top(v)) then 0 else 1
  }

  lemma RoundedUpExponent(v: nat)
    requires v > 0
    ensures RoundedUp(v) == Pow2(Exponent(v))
  {
    if v == 1 {
      assert Pow2(0) == 1;
      assert Exponent(1) == 0;
    } else {
      RoundUpExponent(v);
      assert Top(v - 1) + 1 == Exponent(v);
    }
  }

  /** It still fits exactly up to 2^31. */
  lemma RoundedUpFits(v: Uint32)
    requires v > 0
    ensures if v <= 0x8000_0000 then RoundedUp(v) <= 0x8000_0000 else RoundedUp(v) == UINT32
  {
    Powers();
    if 1 < v <= 0x8000_0000 {
      TopBelow(v - 1, 31);
      Pow2Monotone(Top(v - 1) + 1, 31);
    } else if v > 0x8000_0000 {
      TopIs(v - 1, 31);
    }
  }

  lemma AllOnesTop()
    ensures Pow2(Top(UINT32 - 1) + 1) == UINT32
  {
    Powers();
    TopIs(UINT32 - 1, 31);
  }

  /** The least power of two that is at least `v`, or 0 when there is none below 2^32 or `v` is 0. */
  method MyRoundUpToNextPower(v: Uint32) returns (r: Uint32)
    ensures 0 < v <= 0x8000_0000 ==> IsLeastPowerNotBelow(r, v)
    ensures v == 0 || v > 0x8000_0000 ==> r == 0
    ensures 0 < v <= 0x8000_0000 ==> r == Pow2(Exponent(v))
  {
    var w: Uint32 := if v == 0 then UINT32 - 1 else v - 1;
    var s := Smear(w);
    if v == 0 {
      AllOnesTop();
      assert s + 1 == UINT32;
    } else {
      assert s + 1 == RoundedUp(v);
      RoundedUpIsLeast(v);
      RoundedUpExponent(v);
      RoundedUpFits(v);
    }
    r := if s + 1 == UINT32 then 0 else s + 1;
  }

  lemma TopIs(v: nat, h: nat)
    requires Pow2(h) <= v < Pow2(h + 1)
    ensures v > 0 && Top(v) == h
  {
    TopBelow(v, h + 1);
    if Top(v) < h {
      Pow2Monotone(Top(v) + 1, h);
    }
  }

  /** How the rounding and the logarithm fit together. */
  lemma RoundUpExponent(v: nat)
    requires v > 1
    ensures Top(v - 1) + 1 == Exponent(v)
  {
    if v == Pow2(Top(v)) {
      TopIs(v - 1, Top(v) - 1);
    } else {
      TopIs(v - 1, Top(v));
    }
  }

  // ---------- Clearing the highest bit ----------

  lemma AndZero(v: nat)
    ensures And(v, 0) == 0
  {
  }

  lemma AndHalf(a: nat, b: nat)
    requires b % 2 == 1
    ensures And(a, b) == 2 * And(a / 2, b / 2) + a % 2
  {
  }

  lemma AndMask(v: nat, h: nat)
    requires h > 0
    ensures And(v, Pow2(h) - 1) == 2 * And(v / 2, Pow2(h - 1) - 1) + v % 2
  {
    assert (Pow2(h) - 1) / 2 == Pow2(h - 1) - 1 && (Pow2(h) - 1) % 2 == 1;
    AndHalf(v, Pow2(h) - 1);
  }

  /** The number that the low `h` bits of `v` make up. */
  function Low(v: nat, h: nat): nat
    decreases h
  {
    if h == 0 then 0 else v % 2 + 2 * Low(v / 2, h - 1)
  }

  lemma {:induction false} LowIsModulus(v: nat, h: nat)
    ensures Low(v, h) == v % Pow2(h)
    decreases h
  {
    if h > 0 {
      LowIsModulus(v / 2, h - 1);
      DivMod(v, 2, Pow2(h - 1));
    }
  }

  /** A mask of `h` ones keeps the low bits. */
  lemma {:induction false} MaskKeepsLow(v: nat, h: nat)
    ensures And(v, Pow2(h) - 1) == Low(v, h)
    decreases h
  {
    if h == 0 {
      AndZero(v);
    } else {
      AndMask(v, h);
      MaskKeepsLow(v / 2, h - 1);
    }
  }

  lemma MaskBelowTop(v: nat)
    requires v > 0
    ensures And(v, Pow2(Top(v)) - 1) == v - Pow2(Top(v))
  {
    var p := Pow2(Top(v));
    MaskKeepsLow(v, Top(v));
    LowIsModulus(v, Top(v));
    ModUnique(v, p, 1, v - p);
  }

  method MyClearHighestBit(v: Uint32) returns (r: Uint32)
    ensures r == ClearTop(v)
  {
    var half: Uint32 := Shr(v, 1);
    var w := Smear(half);
    r := 0;
    AndZero(v);
    if v > 0 {
      MaskBelowTop(v);
      assert w == Pow2(Top(v)) - 1;
    }
    r := And(v, w);
  }

  /** The value after clearing the highest bit `k` times. */
  function ClearTimes(v: nat, k: nat): nat
    decreases k
  {
    if k == 0 then v else ClearTimes(ClearTop(v), k - 1)
  }

  /** Clearing the highest bit over and over reaches 0 after as many steps as there are ones, and not before. */
  lemma {:induction false} ClearsInCountSteps(v: nat, k: nat)
    requires k <= Ones(v)
    ensures ClearTimes(v, k) == 0 <==> k == Ones(v)
    decreases k
  {
    if k == 0 {
      if v > 0 {
        ClearTopOnes(v);
      }
    } else {
      assert v > 0;
      ClearTopOnes(v);
      ClearsInCountSteps(ClearTop(v), k - 1);
    }
  }

  // ---------- Counting ones by table ----------

  ghost predicate CountTable(t: seq<nat>) {
    |t| == 256 && forall b :: 0 <= b < 256 ==> t[b] == Ones(b)
  }

  /** The ones of a number below 2^32, byte by byte. */
  lemma OnesWord(v: Uint32)
    ensures Ones(v) == Ones(v % 0x100) + Ones(v / 0x100 % 0x100) + Ones(v / 0x1_0000 % 0x100) + Ones(v / 0x100_0000 % 0x100)
  {
    WordBytes(v);
    OnesTwoBytes(v / 0x1_0000);
    OnesTwoBytes(v % 0x1_0000);
    OnesTwoHalves(v);
  }

  lemma OnesTwoHalves(v: nat)
    ensures Ones(v) == Ones(v / 0x1_0000) + Ones(v % 0x1_0000)
  {
    Powers();
    OnesSplit(v / 0x1_0000, v % 0x1_0000, 16);
  }

  lemma WordBytes(v: Uint32)
    ensures v % 0x1_0000 % 0x100 == v % 0x100
    ensures v % 0x1_0000 / 0x100 == v / 0x100 % 0x100
    ensures v / 0x1_0000 / 0x100 == v / 0x100_0000 % 0x100
    ensures v / 0x1_0000 < 0x1_0000
  {
  }

  lemma OnesTwoBytes(v: nat)
    requires v < 0x1_0000
    ensures Ones(v) == Ones(v % 0x100) + Ones(v / 0x100)
  {
    Powers();
    OnesSplit(v / 0x100, v % 0x100, 8);
  }

  lemma OnesHalves(v: nat)
    ensures Ones(v) == Ones(v / UINT32) + Ones(v % UINT32)
  {
    Powers();
    OnesSplit(v / UINT32, v % UINT32, 32);
  }

  /** The four look-ups of one half. */
  function CountWord(nbits: seq<nat>, v: Uint32): (c: nat)
    requires CountTable(nbits)
    ensures c == Ones(v)
  {
    OnesWord(v);
    nbits[v % 0x100] + nbits[v / 0x100 % 0x100] + nbits[v / 0x1_0000 % 0x100] + nbits[v / 0x100_0000 % 0x100]
  }

  /** Eight table look-ups count the ones of a 64-bit number. */
  function MyCountBits(nbits: seq<nat>, v: nat): (c: nat)
    requires CountTable(nbits) && v < UINT32 * UINT32
    ensures c == Ones(v)
  {
    OnesHalves(v);
    CountWord(nbits, v % UINT32) + CountWord(nbits, v / UINT32)
  }

  // ---------- Reversing bits by table ----------

  /** The low `n` bits of `v` in opposite order. */
  function Rev(v: nat, n: nat): (r: nat)
    ensures r < Pow2(n)
    decreases n
  {
    if n == 0 then 0 else v % 2 * Pow2(n - 1) + Rev(v / 2, n - 1)
  }

  ghost predicate ReverseTable(t: seq<nat>) {
    |t| == 256 && forall b :: 0 <= b < 256 ==> t[b] == Rev(b, 8)
  }

  lemma Distribute(b: nat, p: nat, q: nat, r: nat)
    ensures b * (p * q) + r * q == (b * p + r) * q
  {
    assert (b * p + r) * q == b * p * q + r * q;
    assert b * p * q == b * (p * q);
  }

  lemma {:induction false} RevSplit(v: nat, m: nat, n: nat)
    ensures Rev(v, m + n) == Rev(v, m) * Pow2(n) + Rev(Shr(v, m), n)
    decreases m
  {
    if m > 0 {
      var b, p, q, r := v % 2, Pow2(m - 1), Pow2(n), Rev(v / 2, m - 1);
      calc {
        Rev(v, m + n);
        b * Pow2(m - 1 + n) + Rev(v / 2, m - 1 + n);
        { RevSplit(v / 2, m - 1, n); }
        b * Pow2(m - 1 + n) + (r * q + Rev(Shr(v / 2, m - 1), n));
        { Pow2Add(m - 1, n); }
        b * (p * q) + r * q + Rev(Shr(v, m), n);
        { Distribute(b, p, q, r); }
        (b * p + r) * q + Rev(Shr(v, m), n);
        Rev(v, m) * q + Rev(Shr(v, m), n);
      }
    }
  }

  lemma {:induction false} RevLow(v: nat, k: nat)
    ensures Rev(v % Pow2(k), k) == Rev(v, k)
    decreases k
  {
    if k > 0 {
      var low := v % Pow2(k);
      DivMod(v, 2, Pow2(k - 1));
      assert low / 2 == v / 2 % Pow2(k - 1) && low % 2 == v % 2;
      RevLow(v / 2, k - 1);
    }
  }

  /** Shifted left past `y`, the bits of `x` do not meet those of `y`. */
  lemma {:induction false} OrDisjoint(x: nat, y: nat, k: nat)
    requires y < Pow2(k)
    ensures Or(x * Pow2(k), y) == x * Pow2(k) + y
    decreases k
  {
    if k == 0 {
      OrZero(x);
    } else {
      var p := Pow2(k - 1);
      assert x * Pow2(k) == 2 * (x * p);
      OrDisjoint(x, y / 2, k - 1);
    }
  }

  lemma {:induction false} OrZero(x: nat)
    ensures Or(x, 0) == x
  {
    if x > 0 {
      OrZero(x / 2);
    }
  }

  /** Four bytes, high to low. */
  function Join(a: nat, b: nat, c: nat, d: nat): nat {
    a * 0x100_0000 + b * 0x1_0000 + c * 0x100 + d
  }

  lemma OrJoins(a: nat, b: nat, c: nat, d: nat)
    requires a < 0x100 && b < 0x100 && c < 0x100 && d < 0x100
    ensures Or(Or(Or(a * 0x100_0000, b * 0x1_0000), c * 0x100), d) == Join(a, b, c, d)
  {
    Powers();
    OrDisjoint(a, b * 0x1_0000, 24);
    OrDisjoint(a * 0x100 + b, c * 0x100, 16);
    OrDisjoint(a * 0x1_0000 + b * 0x100 + c, d, 8);
  }

  method MyReverseBits(table: seq<nat>, key: Uint32) returns (r: nat)
    requires ReverseTable(table)
    ensures r == Rev(key, 32)
  {
    RevBytes(key);
    KeyBytes(key);
    Powers();
    r := Or(Or(Or(table[key % 256] * 0x100_0000, table[Shr(key, 8) % 256] * 0x1_0000),
               table[Shr(key, 16) % 256] * 0x100),
            table[Shr(key, 24)]);
    OrJoins(Rev(key % 256, 8), Rev(Shr(key, 8) % 256, 8), Rev(Shr(key, 16) % 256, 8), Rev(Shr(key, 24), 8));
  }

  lemma KeyBytes(key: Uint32)
    ensures Shr(key, 24) < 256
  {
    Powers();
    ShrDivides(key, 24);
  }

  lemma RevBytes(key: nat)
    ensures Rev(key, 32) == Join(Rev(key % 256, 8), Rev(Shr(key, 8) % 256, 8), Rev(Shr(key, 16) % 256, 8), Rev(Shr(key, 24), 8))
  {
    Powers();
    RevSplit(key, 8, 24);
    RevSplit(Shr(key, 8), 8, 16);
    RevSplit(Shr(key, 16), 8, 8);
    ShrShr(key, 8, 8);
    ShrShr(key, 16, 8);
    RevLow(key, 8);
    RevLow(Shr(key, 8), 8);
    RevLow(Shr(key, 16), 8);
  }

  lemma {:induction false} ShrShr(v: nat, a: nat, b: nat)
    ensures Shr(Shr(v, a), b) == Shr(v, a + b)
    decreases a
  {
    if a > 0 {
      ShrShr(v / 2, a - 1, b);
    }
  }

  lemma {:induction false} RevBit(v: nat, n: nat, i: nat)
    ensures Bit(Rev(v, n), i) <==> i < n && Bit(v, n - 1 - i)
    decreases n
  {
    if n == 0 {
      NoBits(i);
    } else {
      var b, low := v % 2, Rev(v / 2, n - 1);
      HighBit(b, low, n - 1, i);
      RevBit(v / 2, n - 1, i);
    }
  }

  lemma {:induction false} HighBit(b: nat, low: nat, k: nat, i: nat)
    requires b < 2 && low < Pow2(k)
    ensures Bit(b * Pow2(k) + low, i) <==> if i < k then Bit(low, i) else i == k && b == 1
    decreases k
  {
    if k == 0 {
      if i > 0 {
        NoBits(i - 1);
      }
    } else {
      var v := b * Pow2(k) + low;
      assert v % 2 == low % 2 && v / 2 == b * Pow2(k - 1) + low / 2;
      if i > 0 {
        HighBit(b, low / 2, k - 1, i - 1);
      }
    }
  }

  lemma RevRevBit(v: nat, n: nat, i: nat)
    requires v < Pow2(n)
    ensures Bit(Rev(Rev(v, n), n), i) <==> Bit(v, i)
  {
    RevBit(Rev(v, n), n, i);
    if i < n {
      RevBit(v, n, n - 1 - i);
    } else if v > 0 {
      TopBelow(v, n);
      TopBit(v, i);
    } else {
      NoBits(i);
    }
  }

  /** Reversing twice gives the number back. */
  lemma ReverseIsInvolution(v: nat, n: nat)
    requires v < Pow2(n)
    ensures Rev(Rev(v, n), n) == v
  {
    forall i: nat
      ensures Bit(Rev(Rev(v, n), n), i) <==> Bit(v, i)
    {
      RevRevBit(v, n, i);
    }
    SameBits(Rev(Rev(v, n), n), v);
  }

  /** Reversing keeps the number of ones. */
  lemma {:induction false} ReverseKeepsOnes(v: nat, n: nat)
    requires v < Pow2(n)
    ensures Ones(Rev(v, n)) == Ones(v)
    decreases n
  {
    if n > 0 {
      ReverseKeepsOnes(v / 2, n - 1);
      OnesSplit(v % 2, Rev(v / 2, n - 1), n - 1);
      assert Ones(v % 2) == v % 2;
    }
  }

  /** Clearing the highest one takes the lowest one off the reversed number. */
  lemma {:induction false} ReverseDecreases(v: nat, n: nat)
    requires 0 < v < Pow2(n)
    ensures Top(v) < n && Rev(v, n) == Rev(ClearTop(v), n) + Pow2(n - 1 - Top(v))
    decreases n
  {
    TopBelow(v, n);
    if v == 1 {
      assert v / 2 == 0 && v % 2 == 1 && ClearTop(v) == 0;
      assert Rev(1, n) == Pow2(n - 1) + Rev(0, n - 1);
      assert Rev(0, n) == Rev(0, n - 1);
    } else {
      ReverseDecreases(v / 2, n - 1);
      var c := ClearTop(v);
      ClearTopHalf(v);
    }
  }
}
