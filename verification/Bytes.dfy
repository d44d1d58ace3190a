/** Bytes, and the base-256 numbers they spell. */
module Bytes {
  import opened Arithmetic

  type Byte = b: int | 0 <= b < 256

  function Pow256(n: nat): (p: nat)
    ensures p > 0
  {
    if n == 0 then 1 else 256 * Pow256(n - 1)
  }

  /** The `n` low bytes of `v`, least significant first; a negative `v` is taken in two's complement. */
  function ToLittle(v: int, n: nat): (s: seq<Byte>)
    ensures |s| == n
    decreases n
  {
    if n == 0 then [] else [v % 256] + ToLittle(v / 256, n - 1)
  }

  function FromLittle(s: seq<Byte>): nat {
    if s == [] then 0 else s[0] + 256 * FromLittle(s[1..])
  }

  lemma {:induction false} FromLittleBound(s: seq<Byte>)
    ensures FromLittle(s) < Pow256(|s|)
  {
    if s != [] {
      FromLittleBound(s[1..]);
    }
  }

  /** Writing `n` bytes and reading them back keeps the number modulo 256^n, whatever its sign. */
  lemma {:induction false} WriteRead(v: int, n: nat)
    ensures FromLittle(ToLittle(v, n)) == v % Pow256(n)
    decreases n
  {
    if n > 0 {
      WriteRead(v / 256, n - 1);
      DivMod(v, 256, Pow256(n - 1));
      assert ToLittle(v, n)[1..] == ToLittle(v / 256, n - 1);
    }
  }

  /** Reading bytes and writing the number gives the bytes back. */
  lemma {:induction false} ReadWrite(s: seq<Byte>)
    ensures ToLittle(FromLittle(s), |s|) == s
  {
    if s != [] {
      ReadWrite(s[1..]);
      assert FromLittle(s) % 256 == s[0] && FromLittle(s) / 256 == FromLittle(s[1..]);
    }
  }

  lemma SameNumberSameBytes(s: seq<Byte>, t: seq<Byte>)
    requires |s| == |t| && FromLittle(s) == FromLittle(t)
    ensures s == t
  {
    ReadWrite(s);
    ReadWrite(t);
  }

  lemma {:induction false} FromLittleAppend(s: seq<Byte>, t: seq<Byte>)
    ensures FromLittle(s + t) == FromLittle(s) + Pow256(|s|) * FromLittle(t)
  {
    if s == [] {
      assert s + t == t;
    } else {
      FromLittleAppend(s[1..], t);
      assert (s + t)[1..] == s[1..] + t;
      assert 256 * (Pow256(|s| - 1) * FromLittle(t)) == Pow256(|s|) * FromLittle(t);
    }
  }

  lemma {:induction false} ToLittleAppend(v: int, m: nat, n: nat)
    ensures ToLittle(v, m + n) == ToLittle(v, m) + ToLittle(v / Pow256(m), n)
    decreases m
  {
    if m > 0 {
      ToLittleAppend(v / 256, m - 1, n);
      DivMod(v, 256, Pow256(m - 1));
    }
  }

  // ---------- Most significant byte first ----------

  function Reverse(s: seq<Byte>): (r: seq<Byte>)
    ensures |r| == |s|
  {
    if s == [] then [] else Reverse(s[1..]) + [s[0]]
  }

  lemma {:induction false} ReverseAt(s: seq<Byte>, i: nat)
    requires i < |s|
    ensures Reverse(s)[i] == s[|s| - 1 - i]
  {
    if i < |s| - 1 {
      ReverseAt(s[1..], i);
    }
  }

  lemma ReverseTwice(s: seq<Byte>)
    ensures Reverse(Reverse(s)) == s
  {
    forall i | 0 <= i < |s|
      ensures Reverse(Reverse(s))[i] == s[i]
    {
      ReverseAt(Reverse(s), i);
      ReverseAt(s, |s| - 1 - i);
    }
  }

  function ToBig(v: int, n: nat): (s: seq<Byte>) {
    Reverse(ToLittle(v, n))
  }

  function FromBig(s: seq<Byte>): nat {
    FromLittle(Reverse(s))
  }

  lemma Digit(b: Byte)
    ensures FromLittle([b]) == b
  {
    assert [b][1..] == [];
  }

  lemma TopDigit(low: seq<Byte>, b: Byte)
    ensures FromLittle(low + [b]) == FromLittle(low) + Pow256(|low|) * b
  {
    FromLittleAppend(low, [b]);
    Digit(b);
  }

  lemma FromBigHead(s: seq<Byte>)
    requires s != []
    ensures FromBig(s) == Pow256(|s| - 1) * s[0] + FromBig(s[1..])
  {
    TopDigit(Reverse(s[1..]), s[0]);
  }

  predicate LexLess(s: seq<Byte>, t: seq<Byte>)
    requires |s| == |t|
  {
    s != [] && (s[0] < t[0] || (s[0] == t[0] && LexLess(s[1..], t[1..])))
  }

  /** With the high byte first, byte strings of one length compare as the numbers they spell. */
  lemma {:induction false} LexIsNumeric(s: seq<Byte>, t: seq<Byte>)
    requires |s| == |t|
    ensures LexLess(s, t) <==> FromBig(s) < FromBig(t)
  {
    if s != [] {
      LexIsNumeric(s[1..], t[1..]);
      FromBigHead(s);
      FromBigHead(t);
      FromLittleBound(Reverse(s[1..]));
      FromLittleBound(Reverse(t[1..]));
      HighDigitDecides(s[0], FromBig(s[1..]), t[0], FromBig(t[1..]), Pow256(|s| - 1));
    }
  }

  lemma HighDigitDecides(a: int, x: nat, b: int, y: nat, p: nat)
    requires x < p && y < p
    ensures p * a + x < p * b + y <==> a < b || (a == b && x < y)
  {
    if a < b {
      AtLeastOnce(p, b - a);
      assert p * (b - a) == p * b - p * a;
    } else if a > b {
      AtLeastOnce(p, a - b);
      assert p * (a - b) == p * a - p * b;
    }
  }

  // ---------- Two's complement ----------

  /** The signed number that `n` bytes hold when read as two's complement. */
  function Signed(u: int, n: nat): int {
    var w := u % Pow256(n);
    if 2 * w >= Pow256(n) then w - Pow256(n) else w
  }

  lemma SignedRoundTrip(v: int, n: nat)
    requires 0 - Pow256(n) <= 2 * v < Pow256(n)
    ensures Signed(FromLittle(ToLittle(v, n)), n) == v
  {
    WriteRead(v, n);
    var m := Pow256(n);
    if v >= 0 {
      ModUnique(v, m, 0, v);
    } else {
      ModUnique(v, m, -1, v + m);
    }
    ModUnique(v % m, m, 0, v % m);
  }
}
