/** The byte codecs of my_global.h (low byte first, the portable forms) and myisampack.h (high byte first).

    Every macro is proved to be an instance of the base-256 codec of module Bytes, whose laws then apply.
    `<< 8` on an unsigned byte is written as a product; sums and shifts stay below 2^32 resp. 2^64,
    and `|` of shifted bytes, which do not meet, as a sum. */
module Codec {
  import opened Arithmetic
  import opened Bytes

  lemma Powers()
    ensures Pow256(0) == 1 && Pow256(1) == 0x100 && Pow256(2) == 0x1_0000 && Pow256(3) == 0x100_0000
    ensures Pow256(4) == 0x1_0000_0000 && Pow256(5) == 0x100_0000_0000 && Pow256(6) == 0x1_0000_0000_0000
    ensures Pow256(7) == 0x100_0000_0000_0000 && Pow256(8) == 0x1_0000_0000_0000_0000
  {
    assert Pow256(2) == 0x1_0000;
    assert Pow256(4) == 0x1_0000_0000;
    assert Pow256(6) == 0x1_0000_0000_0000;
  }

  // `x << 8` and so on, for values that cannot overflow
  function Shl8(x: int): int { x * 0x100 }
  function Shl16(x: int): int { x * 0x1_0000 }
  function Shl24(x: int): int { x * 0x100_0000 }
  function Shl32(x: int): int { x * 0x1_0000_0000 }
  function Shl40(x: int): int { x * 0x100_0000_0000 }

  // ---------- Reading, low byte first ----------

  function Uint2Korr(a: seq<Byte>): nat
    requires |a| >= 2
  {
    a[0] + Shl8(a[1])
  }

  function Uint3Korr(a: seq<Byte>): nat
    requires |a| >= 3
  {
    a[0] + Shl8(a[1]) + Shl16(a[2])
  }

  function Uint4Korr(a: seq<Byte>): nat
    requires |a| >= 4
  {
    a[0] + Shl8(a[1]) + Shl16(a[2]) + Shl24(a[3])
  }

  function Uint5Korr(a: seq<Byte>): nat
    requires |a| >= 5
  {
    Uint4Korr(a) + Shl32(a[4])
  }

  function Uint6Korr(a: seq<Byte>): nat
    requires |a| >= 6
  {
    Uint4Korr(a) + Shl32(a[4]) + Shl40(a[5])
  }

  function Uint8Korr(a: seq<Byte>): nat
    requires |a| >= 8
  {
    Uint4Korr(a) + Shl32(Uint4Korr(a[4..]))
  }

  /** The conversion of an integer to a signed type of `n` bytes. */
  function Cast(v: int, n: nat): int {
    Signed(v, n)
  }

  function Sint2Korr(a: seq<Byte>): int
    requires |a| >= 2
  {
    Cast(a[0] + Shl8(a[1]), 2)
  }

  /** Sign extension by a fourth byte of ones. */
  function Sint3Korr(a: seq<Byte>): int
    requires |a| >= 3
  {
    var low := Shl16(a[2]) + Shl8(a[1]) + a[0];
    Cast(if a[2] >= 128 then 255 * 0x100_0000 + low else low, 4)
  }

  /** The top byte enters as a signed 16-bit value; the sum is a signed 32-bit one. */
  function Sint4Korr(a: seq<Byte>): int
    requires |a| >= 4
  {
    Cast(a[0] + Shl8(a[1]) + Shl16(a[2]) + Shl24(Cast(a[3], 2)), 4)
  }

  function Sint8Korr(a: seq<Byte>): int
    requires |a| >= 8
  {
    Cast(Uint8Korr(a), 8)
  }

  // ---------- Reading, high byte first ----------

  function MiUint2Korr(a: seq<Byte>): nat
    requires |a| >= 2
  {
    a[1] + Shl8(a[0])
  }

  function MiUint3Korr(a: seq<Byte>): nat
    requires |a| >= 3
  {
    a[2] + Shl8(a[1]) + Shl16(a[0])
  }

  function MiUint4Korr(a: seq<Byte>): nat
    requires |a| >= 4
  {
    a[3] + Shl8(a[2]) + Shl16(a[1]) + Shl24(a[0])
  }

  function MiUint5Korr(a: seq<Byte>): nat
    requires |a| >= 5
  {
    a[4] + Shl8(a[3]) + Shl16(a[2]) + Shl24(a[1]) + Shl32(a[0])
  }

  function MiUint6Korr(a: seq<Byte>): nat
    requires |a| >= 6
  {
    a[5] + Shl8(a[4]) + Shl16(a[3]) + Shl24(a[2]) + Shl32(a[1] + Shl8(a[0]))
  }

  function MiUint7Korr(a: seq<Byte>): nat
    requires |a| >= 7
  {
    a[6] + Shl8(a[5]) + Shl16(a[4]) + Shl24(a[3])
    + Shl32(a[2] + Shl8(a[1]) + Shl16(a[0]))
  }

  function MiUint8Korr(a: seq<Byte>): nat
    requires |a| >= 8
  {
    a[7] + Shl8(a[6]) + Shl16(a[5]) + Shl24(a[4])
    + Shl32(a[3] + Shl8(a[2]) + Shl16(a[1]) + Shl24(a[0]))
  }

  function MiSint2Korr(a: seq<Byte>): int
    requires |a| >= 2
  {
    Cast(a[1] + Shl8(Cast(a[0], 1)), 2)
  }

  function MiSint3Korr(a: seq<Byte>): int
    requires |a| >= 3
  {
    var low := Shl16(a[0]) + Shl8(a[1]) + a[2];
    Cast(if a[0] >= 128 then 255 * 0x100_0000 + low else low, 4)
  }

  function MiSint4Korr(a: seq<Byte>): int
    requires |a| >= 4
  {
    Cast(a[3] + Shl8(a[2]) + Shl16(a[1]) + Shl24(Cast(a[0], 1)), 4)
  }

  function MiSint8Korr(a: seq<Byte>): int
    requires |a| >= 8
  {
    Cast(MiUint8Korr(a), 8)
  }

  // ---------- Reading is the generic codec ----------

  /** The number spelled by bytes given one by one, low byte first. */
  lemma {:induction false} Unfold(s: seq<Byte>, k: nat)
    requires k < |s|
    ensures FromLittle(s[k..]) == s[k] + 256 * FromLittle(s[k + 1..])
  {
    assert s[k..][1..] == s[k + 1..];
  }

  lemma Spelled4(s: seq<Byte>)
    requires |s| == 4
    ensures FromLittle(s) == s[0] + Shl8(s[1]) + Shl16(s[2]) + Shl24(s[3])
  {
    assert s[0..] == s && s[4..] == [];
    Unfold(s, 0);
    Unfold(s, 1);
    Unfold(s, 2);
    Unfold(s, 3);
  }

  lemma Spelled3(s: seq<Byte>)
    requires |s| == 3
    ensures FromLittle(s) == s[0] + Shl8(s[1]) + Shl16(s[2])
  {
    assert s[0..] == s && s[3..] == [];
    Unfold(s, 0);
    Unfold(s, 1);
    Unfold(s, 2);
  }

  lemma Spelled2(s: seq<Byte>)
    requires |s| == 2
    ensures FromLittle(s) == s[0] + Shl8(s[1])
  {
    assert s[0..] == s && s[2..] == [];
    Unfold(s, 0);
    Unfold(s, 1);
  }

  /** A number of five to eight bytes from its low four bytes and the rest. */
  lemma Spelled4Plus(s: seq<Byte>)
    requires |s| >= 4
    ensures FromLittle(s) == FromLittle(s[..4]) + 0x1_0000_0000 * FromLittle(s[4..])
  {
    Powers();
    FromLittleAppend(s[..4], s[4..]);
    assert s == s[..4] + s[4..];
  }

  /** Each read depends on as many bytes as its name says, whatever follows them. */
  lemma UnsignedReadsAreGeneric(a: seq<Byte>)
    ensures |a| >= 2 ==> Uint2Korr(a) == FromLittle(a[..2])
    ensures |a| >= 3 ==> Uint3Korr(a) == FromLittle(a[..3])
    ensures |a| >= 4 ==> Uint4Korr(a) == FromLittle(a[..4])
    ensures |a| >= 5 ==> Uint5Korr(a) == FromLittle(a[..5])
    ensures |a| >= 6 ==> Uint6Korr(a) == FromLittle(a[..6])
    ensures |a| >= 8 ==> Uint8Korr(a) == FromLittle(a[..8])
  {
    if |a| >= 2 { Spelled2(a[..2]); }
    if |a| >= 3 { Spelled3(a[..3]); }
    if |a| >= 4 { Spelled4(a[..4]); }
    if |a| >= 5 { LongerReads(a[..5], a); }
    if |a| >= 6 { LongerReads(a[..6], a); }
    if |a| >= 8 { LongerReads(a[..8], a); }
  }

  lemma LongerReads(s: seq<Byte>, a: seq<Byte>)
    requires 4 <= |s| && s <= a
    ensures |s| == 5 ==> Uint5Korr(a) == FromLittle(s)
    ensures |s| == 6 ==> Uint6Korr(a) == FromLittle(s)
    ensures |s| == 8 ==> Uint8Korr(a) == FromLittle(s)
  {
    Spelled4(s[..4]);
    Spelled4Plus(s);
    if |s| == 5 { Digit(s[4]); assert s[4..] == [s[4]]; }
    if |s| == 6 { Spelled2(s[4..]); }
    if |s| == 8 { Spelled4(s[4..]); }
  }

  lemma MiUnsignedReadsAreGeneric(a: seq<Byte>)
    ensures |a| >= 2 ==> MiUint2Korr(a) == FromBig(a[..2])
    ensures |a| >= 3 ==> MiUint3Korr(a) == FromBig(a[..3])
    ensures |a| >= 4 ==> MiUint4Korr(a) == FromBig(a[..4])
    ensures |a| >= 5 ==> MiUint5Korr(a) == FromBig(a[..5])
    ensures |a| >= 6 ==> MiUint6Korr(a) == FromBig(a[..6])
    ensures |a| >= 7 ==> MiUint7Korr(a) == FromBig(a[..7])
    ensures |a| >= 8 ==> MiUint8Korr(a) == FromBig(a[..8])
  {
    if |a| >= 2 { MiReads(a[..2], a); }
    if |a| >= 3 { MiReads(a[..3], a); }
    if |a| >= 4 { MiReads(a[..4], a); }
    if |a| >= 5 { MiReads(a[..5], a); }
    if |a| >= 6 { MiReads(a[..6], a); }
    if |a| >= 7 { MiReads(a[..7], a); }
    if |a| >= 8 { MiReads(a[..8], a); }
  }

  lemma MiReads(s: seq<Byte>, a: seq<Byte>)
    requires s <= a
    ensures |s| == 2 ==> MiUint2Korr(a) == FromBig(s)
    ensures |s| == 3 ==> MiUint3Korr(a) == FromBig(s)
    ensures |s| == 4 ==> MiUint4Korr(a) == FromBig(s)
    ensures |s| == 5 ==> MiUint5Korr(a) == FromBig(s)
    ensures |s| == 6 ==> MiUint6Korr(a) == FromBig(s)
    ensures |s| == 7 ==> MiUint7Korr(a) == FromBig(s)
    ensures |s| == 8 ==> MiUint8Korr(a) == FromBig(s)
  {
    var r := Reverse(s);
    forall i | 0 <= i < |s|
      ensures r[i] == s[|s| - 1 - i]
    {
      ReverseAt(s, i);
    }
    if |s| == 2 { Spelled2(r); }
    if |s| == 3 { Spelled3(r); }
    if |s| >= 4 {
      Spelled4(r[..4]);
      Spelled4Plus(r);
      if |s| == 4 { assert r[..4] == r; }
      if |s| == 5 { Digit(r[4]); assert r[4..] == [r[4]]; }
      if |s| == 6 { Spelled2(r[4..]); }
      if |s| == 7 { Spelled3(r[4..]); }
      if |s| == 8 { Spelled4(r[4..]); }
    }
  }

  lemma CastOf(v: int, n: nat, m: nat, q: int, w: nat)
    requires Pow256(n) == m && v == m * q + w && w < m
    ensures Signed(v, n) == if 2 * w >= m then w - m else w
  {
    ModUnique(v, m, q, w);
  }

  lemma SignedByte(b: Byte)
    ensures Cast(b, 1) == if b >= 128 then b - 256 else b
    ensures Cast(b, 2) == b
  {
    Powers();
  }

  /** A sign-extended three-byte number. */
  lemma Extended3(u: nat)
    requires u < 0x100_0000
    ensures Cast(if u >= 0x80_0000 then 255 * 0x100_0000 + u else u, 4) == Signed(u, 3)
  {
    Powers();
    CastOf(u, 3, 0x100_0000, 0, u);
    var v := if u >= 0x80_0000 then 255 * 0x100_0000 + u else u;
    CastOf(v, 4, 0x1_0000_0000, 0, v);
  }

  /** A top digit taken as signed: the cast of the sum removes the difference. */
  lemma SignedTop(u: nat, m: nat, n: nat)
    requires Pow256(n) == m && u < m
    ensures Cast(u - m, n) == Signed(u, n)
  {
    CastOf(u - m, n, m, -1, u);
    CastOf(u, n, m, 0, u);
  }

  /** The signed reads are two's complement. */
  lemma SignedReadsAreGeneric(a: seq<Byte>)
    ensures |a| >= 2 ==> Sint2Korr(a) == Signed(FromLittle(a[..2]), 2)
    ensures |a| >= 3 ==> Sint3Korr(a) == Signed(FromLittle(a[..3]), 3)
    ensures |a| >= 4 ==> Sint4Korr(a) == Signed(FromLittle(a[..4]), 4)
    ensures |a| >= 8 ==> Sint8Korr(a) == Signed(FromLittle(a[..8]), 8)
  {
    UnsignedReadsAreGeneric(a);
    if |a| >= 3 {
      Extended3(Uint3Korr(a));
    }
    if |a| >= 4 {
      SignedByte(a[3]);
    }
  }

  lemma MiSignedReadsAreGeneric(a: seq<Byte>)
    ensures |a| >= 2 ==> MiSint2Korr(a) == Signed(FromBig(a[..2]), 2)
    ensures |a| >= 3 ==> MiSint3Korr(a) == Signed(FromBig(a[..3]), 3)
    ensures |a| >= 4 ==> MiSint4Korr(a) == Signed(FromBig(a[..4]), 4)
    ensures |a| >= 8 ==> MiSint8Korr(a) == Signed(FromBig(a[..8]), 8)
  {
    MiUnsignedReadsAreGeneric(a);
    if |a| >= 2 {
      SignedByte(a[0]);
      Powers();
      SignedTop(MiUint2Korr(a), 0x1_0000, 2);
    }
    if |a| >= 3 {
      Extended3(MiUint3Korr(a));
    }
    if |a| >= 4 {
      SignedTop(MiUint4Korr(a), 0x1_0000_0000, 4);
    }
  }

  /** A signed network-order read. */
  function Int4Net(a: seq<Byte>): int
    requires |a| >= 4
  {
    Cast(a[3] + Shl8(a[2]) + Shl16(a[1]) + Shl24(a[0]), 4)
  }

  lemma Int4NetIsGeneric(a: seq<Byte>)
    requires |a| >= 4
    ensures Int4Net(a) == Signed(FromBig(a[..4]), 4) == MiSint4Korr(a)
  {
    MiUnsignedReadsAreGeneric(a);
    MiSignedReadsAreGeneric(a);
  }

  // ---------- Writing ----------

  /** `s` with `bytes` written over it from position `at`. */
  function Patched(s: seq<Byte>, at: nat, bytes: seq<Byte>): (r: seq<Byte>)
    requires at + |bytes| <= |s|
    ensures |r| == |s|
  {
    s[..at] + bytes + s[at + |bytes|..]
  }

  lemma {:induction false} LittleAt(v: int, n: nat, i: nat)
    requires i < n
    ensures ToLittle(v, n)[i] == v / Pow256(i) % 256
    decreases n
  {
    if i > 0 {
      LittleAt(v / 256, n - 1, i - 1);
      DivMod(v, 256, Pow256(i - 1));
    }
  }

  lemma LittleBytes(v: int, n: nat)
    requires n <= 8
    ensures forall i :: 0 <= i < n ==>
              ToLittle(v, n)[i] == v / [1, 0x100, 0x1_0000, 0x100_0000, 0x1_0000_0000, 0x100_0000_0000,
                                        0x1_0000_0000_0000, 0x100_0000_0000_0000][i] % 256
  {
    Powers();
    forall i | 0 <= i < n
      ensures ToLittle(v, n)[i] == v / Pow256(i) % 256
    {
      LittleAt(v, n, i);
    }
  }

  lemma BigBytes(v: int, n: nat)
    ensures forall i :: 0 <= i < n ==> ToBig(v, n)[i] == ToLittle(v, n)[n - 1 - i]
  {
    forall i | 0 <= i < n
      ensures ToBig(v, n)[i] == ToLittle(v, n)[n - 1 - i]
    {
      ReverseAt(ToLittle(v, n), i);
    }
  }

  method Int2Store(t: array<Byte>, at: nat, a: int)
    requires at + 2 <= t.Length
    modifies t
    ensures t[..] == Patched(old(t[..]), at, ToLittle(a, 2))
  {
    LittleBytes(a, 2);
    t[at] := a % 256;
    t[at + 1] := a / 0x100 % 256;
  }

  method Int3Store(t: array<Byte>, at: nat, a: int)
    requires at + 3 <= t.Length
    modifies t
    ensures t[..] == Patched(old(t[..]), at, ToLittle(a, 3))
  {
    LittleBytes(a, 3);
    t[at] := a % 256;
    t[at + 1] := a / 0x100 % 256;
    t[at + 2] := a / 0x1_0000 % 256;
  }

  method Int4Store(t: array<Byte>, at: nat, a: int)
    requires at + 4 <= t.Length
    modifies t
    ensures t[..] == Patched(old(t[..]), at, ToLittle(a, 4))
  {
    LittleBytes(a, 4);
    t[at] := a % 256;
    t[at + 1] := a / 0x100 % 256;
    t[at + 2] := a / 0x1_0000 % 256;
    t[at + 3] := a / 0x100_0000 % 256;
  }

  method Int5Store(t: array<Byte>, at: nat, a: int)
    requires at + 5 <= t.Length
    modifies t
    ensures t[..] == Patched(old(t[..]), at, ToLittle(a, 5))
  {
    LittleBytes(a, 5);
    t[at] := a % 256;
    t[at + 1] := a / 0x100 % 256;
    t[at + 2] := a / 0x1_0000 % 256;
    t[at + 3] := a / 0x100_0000 % 256;
    t[at + 4] := a / 0x1_0000_0000 % 256;
  }

  method Int6Store(t: array<Byte>, at: nat, a: int)
    requires at + 6 <= t.Length
    modifies t
    ensures t[..] == Patched(old(t[..]), at, ToLittle(a, 6))
  {
    LittleBytes(a, 6);
    t[at] := a % 256;
    t[at + 1] := a / 0x100 % 256;
    t[at + 2] := a / 0x1_0000 % 256;
    t[at + 3] := a / 0x100_0000 % 256;
    t[at + 4] := a / 0x1_0000_0000 % 256;
    t[at + 5] := a / 0x100_0000_0000 % 256;
  }

  lemma {:induction false} LowBytesOnly(v: int, m: nat, n: nat)
    requires n <= m
    ensures ToLittle(v % Pow256(m), n) == ToLittle(v, n)
    decreases n
  {
    if n > 0 {
      DivMod(v, 256, Pow256(m - 1));
      var r := (v / 256) % Pow256(m - 1);
      assert v % Pow256(m) == v % 256 + 256 * r;
      assert (v % Pow256(m)) % 256 == v % 256 && (v % Pow256(m)) / 256 == r;
      LowBytesOnly(v / 256, m - 1, n - 1);
    }
  }

  lemma Halves(a: int)
    ensures var low, high := a % 0x1_0000_0000, a / 0x1_0000_0000 % 0x1_0000_0000;
            ToLittle(a, 8) == ToLittle(low, 4) + ToLittle(high, 4)
  {
    Powers();
    LowBytesOnly(a, 4, 4);
    LowBytesOnly(a / Pow256(4), 4, 4);
    ToLittleAppend(a, 4, 4);
  }

  lemma PatchedTwice(s: seq<Byte>, at: nat, x: seq<Byte>, y: seq<Byte>)
    requires at + |x| + |y| <= |s|
    ensures Patched(Patched(s, at, x), at + |x|, y) == Patched(s, at, x + y)
  {
  }

  /** Two stores of the 32-bit halves. */
  method Int8Store(t: array<Byte>, at: nat, a: int)
    requires at + 8 <= t.Length
    modifies t
    ensures t[..] == Patched(old(t[..]), at, ToLittle(a, 8))
  {
    var low, high := a % 0x1_0000_0000, a / 0x1_0000_0000 % 0x1_0000_0000;
    Halves(a);
    PatchedTwice(t[..], at, ToLittle(low, 4), ToLittle(high, 4));
    Int4Store(t, at, low);
    Int4Store(t, at + 4, high);
  }

  method MiInt2Store(t: array<Byte>, at: nat, a: int)
    requires at + 2 <= t.Length
    modifies t
    ensures t[..] == Patched(old(t[..]), at, ToBig(a, 2))
  {
    LittleBytes(a, 2);
    BigBytes(a, 2);
    t[at + 1] := a % 256;
    t[at] := a / 0x100 % 256;
  }

  method MiInt3Store(t: array<Byte>, at: nat, a: int)
    requires at + 3 <= t.Length
    modifies t
    ensures t[..] == Patched(old(t[..]), at, ToBig(a, 3))
  {
    LittleBytes(a, 3);
    BigBytes(a, 3);
    t[at + 2] := a % 256;
    t[at + 1] := a / 0x100 % 256;
    t[at] := a / 0x1_0000 % 256;
  }

  method MiInt4Store(t: array<Byte>, at: nat, a: int)
    requires at + 4 <= t.Length
    modifies t
    ensures t[..] == Patched(old(t[..]), at, ToBig(a, 4))
  {
    LittleBytes(a, 4);
    BigBytes(a, 4);
    t[at + 3] := a % 256;
    t[at + 2] := a / 0x100 % 256;
    t[at + 1] := a / 0x1_0000 % 256;
    t[at] := a / 0x100_0000 % 256;
  }

  method MiInt5Store(t: array<Byte>, at: nat, a: int)
    requires at + 5 <= t.Length
    modifies t
    ensures t[..] == Patched(old(t[..]), at, ToBig(a, 5))
  {
    LittleBytes(a, 5);
    BigBytes(a, 5);
    t[at + 4] := a % 256;
    t[at + 3] := a / 0x100 % 256;
    t[at + 2] := a / 0x1_0000 % 256;
    t[at + 1] := a / 0x100_0000 % 256;
    t[at] := a / 0x1_0000_0000 % 256;
  }

  method MiInt6Store(t: array<Byte>, at: nat, a: int)
    requires at + 6 <= t.Length
    modifies t
    ensures t[..] == Patched(old(t[..]), at, ToBig(a, 6))
  {
    LittleBytes(a, 6);
    BigBytes(a, 6);
    t[at + 5] := a % 256;
    t[at + 4] := a / 0x100 % 256;
    t[at + 3] := a / 0x1_0000 % 256;
    t[at + 2] := a / 0x100_0000 % 256;
    t[at + 1] := a / 0x1_0000_0000 % 256;
    t[at] := a / 0x100_0000_0000 % 256;
  }

  method MiInt7Store(t: array<Byte>, at: nat, a: int)
    requires at + 7 <= t.Length
    modifies t
    ensures t[..] == Patched(old(t[..]), at, ToBig(a, 7))
  {
    LittleBytes(a, 7);
    BigBytes(a, 7);
    t[at + 6] := a % 256;
    t[at + 5] := a / 0x100 % 256;
    t[at + 4] := a / 0x1_0000 % 256;
    t[at + 3] := a / 0x100_0000 % 256;
    t[at + 2] := a / 0x1_0000_0000 % 256;
    t[at + 1] := a / 0x100_0000_0000 % 256;
    t[at] := a / 0x1_0000_0000_0000 % 256;
  }

  /** The high half goes first. */
  method MiInt8Store(t: array<Byte>, at: nat, a: int)
    requires at + 8 <= t.Length
    modifies t
    ensures t[..] == Patched(old(t[..]), at, ToBig(a, 8))
  {
    var low, high := a % 0x1_0000_0000, a / 0x1_0000_0000 % 0x1_0000_0000;
    Halves(a);
    ReverseAppend(ToLittle(low, 4), ToLittle(high, 4));
    PatchedTwice(t[..], at, ToBig(high, 4), ToBig(low, 4));
    MiInt4Store(t, at, high);
    MiInt4Store(t, at + 4, low);
  }

  lemma {:induction false} ReverseAppend(s: seq<Byte>, t: seq<Byte>)
    ensures Reverse(s + t) == Reverse(t) + Reverse(s)
  {
    if s == [] {
      assert s + t == t;
    } else {
      ReverseAppend(s[1..], t);
      assert (s + t)[1..] == s[1..] + t;
    }
  }

  // ---------- Round trips ----------

  /** What was stored low byte first is read back, unsigned and signed, for every value in range. */
  lemma LittleRoundTrip(v: int, n: nat)
    ensures 0 <= v < Pow256(n) ==> FromLittle(ToLittle(v, n)) == v
    ensures 0 - Pow256(n) <= 2 * v < Pow256(n) ==> Signed(FromLittle(ToLittle(v, n)), n) == v
  {
    WriteRead(v, n);
    if 0 <= v < Pow256(n) {
      ModUnique(v, Pow256(n), 0, v);
    }
    if 0 - Pow256(n) <= 2 * v < Pow256(n) {
      SignedRoundTrip(v, n);
    }
  }

  lemma BigRoundTrip(v: int, n: nat)
    ensures 0 <= v < Pow256(n) ==> FromBig(ToBig(v, n)) == v
    ensures 0 - Pow256(n) <= 2 * v < Pow256(n) ==> Signed(FromBig(ToBig(v, n)), n) == v
  {
    ReverseTwice(ToLittle(v, n));
    LittleRoundTrip(v, n);
  }

  /** The buffer from the place of the store on, which is what a read is given after a store has left `s` with `bytes`
      written over it. */
  function ReadBack(s: seq<Byte>, at: nat, bytes: seq<Byte>): (r: seq<Byte>)
    requires at + |bytes| <= |s|
    ensures |r| == |s| - at && r[..|bytes|] == bytes
  {
    Patched(s, at, bytes)[at..]
  }

  /** After each store of my_global.h, at any place of any buffer, the reads of its width give the value stored. */
  lemma LittleMacrosRoundTrip(s: seq<Byte>, at: nat, v: int, n: nat)
    requires at + n <= |s|
    ensures n == 2 && 0 <= v < Pow256(2) ==> Uint2Korr(ReadBack(s, at, ToLittle(v, 2))) == v
    ensures n == 3 && 0 <= v < Pow256(3) ==> Uint3Korr(ReadBack(s, at, ToLittle(v, 3))) == v
    ensures n == 4 && 0 <= v < Pow256(4) ==> Uint4Korr(ReadBack(s, at, ToLittle(v, 4))) == v
    ensures n == 5 && 0 <= v < Pow256(5) ==> Uint5Korr(ReadBack(s, at, ToLittle(v, 5))) == v
    ensures n == 6 && 0 <= v < Pow256(6) ==> Uint6Korr(ReadBack(s, at, ToLittle(v, 6))) == v
    ensures n == 8 && 0 <= v < Pow256(8) ==> Uint8Korr(ReadBack(s, at, ToLittle(v, 8))) == v
    ensures n == 2 && 0 - Pow256(2) <= 2 * v < Pow256(2) ==> Sint2Korr(ReadBack(s, at, ToLittle(v, 2))) == v
    ensures n == 3 && 0 - Pow256(3) <= 2 * v < Pow256(3) ==> Sint3Korr(ReadBack(s, at, ToLittle(v, 3))) == v
    ensures n == 4 && 0 - Pow256(4) <= 2 * v < Pow256(4) ==> Sint4Korr(ReadBack(s, at, ToLittle(v, 4))) == v
    ensures n == 8 && 0 - Pow256(8) <= 2 * v < Pow256(8) ==> Sint8Korr(ReadBack(s, at, ToLittle(v, 8))) == v
  {
    var a := ReadBack(s, at, ToLittle(v, n));
    LittleRoundTrip(v, n);
    UnsignedReadsAreGeneric(a);
    SignedReadsAreGeneric(a);
  }

  /** After each store of myisampack.h, at any place of any buffer, the reads of its width give the value stored. */
  lemma BigMacrosRoundTrip(s: seq<Byte>, at: nat, v: int, n: nat)
    requires at + n <= |s|
    ensures n == 2 && 0 <= v < Pow256(2) ==> MiUint2Korr(ReadBack(s, at, ToBig(v, 2))) == v
    ensures n == 3 && 0 <= v < Pow256(3) ==> MiUint3Korr(ReadBack(s, at, ToBig(v, 3))) == v
    ensures n == 4 && 0 <= v < Pow256(4) ==> MiUint4Korr(ReadBack(s, at, ToBig(v, 4))) == v
    ensures n == 5 && 0 <= v < Pow256(5) ==> MiUint5Korr(ReadBack(s, at, ToBig(v, 5))) == v
    ensures n == 6 && 0 <= v < Pow256(6) ==> MiUint6Korr(ReadBack(s, at, ToBig(v, 6))) == v
    ensures n == 7 && 0 <= v < Pow256(7) ==> MiUint7Korr(ReadBack(s, at, ToBig(v, 7))) == v
    ensures n == 8 && 0 <= v < Pow256(8) ==> MiUint8Korr(ReadBack(s, at, ToBig(v, 8))) == v
    ensures n == 2 && 0 - Pow256(2) <= 2 * v < Pow256(2) ==> MiSint2Korr(ReadBack(s, at, ToBig(v, 2))) == v
    ensures n == 3 && 0 - Pow256(3) <= 2 * v < Pow256(3) ==> MiSint3Korr(ReadBack(s, at, ToBig(v, 3))) == v
    ensures n == 4 && 0 - Pow256(4) <= 2 * v < Pow256(4) ==> MiSint4Korr(ReadBack(s, at, ToBig(v, 4))) == v
    ensures n == 8 && 0 - Pow256(8) <= 2 * v < Pow256(8) ==> MiSint8Korr(ReadBack(s, at, ToBig(v, 8))) == v
  {
    var a := ReadBack(s, at, ToBig(v, n));
    BigRoundTrip(v, n);
    MiUnsignedReadsAreGeneric(a);
    MiSignedReadsAreGeneric(a);
  }

  /** Keys stored high byte first sort as the numbers they encode. */
  lemma BigEncodingsSort(v: nat, w: nat, n: nat)
    requires v < Pow256(n) && w < Pow256(n)
    ensures |ToBig(v, n)| == |ToBig(w, n)| && (LexLess(ToBig(v, n), ToBig(w, n)) <==> v < w)
  {
    LexIsNumeric(ToBig(v, n), ToBig(w, n));
    BigRoundTrip(v, n);
    BigRoundTrip(w, n);
  }

  // ---------- File sizes, in the 32-bit form ----------

  const OFFSET_ERROR := 0xFFFF_FFFF

  /** The error mark is stored as eight bytes of ones, every other size as itself. */
  method MiSizeStore(t: array<Byte>, at: nat, a: nat)
    requires at + 8 <= t.Length && a <= OFFSET_ERROR
    modifies t
    ensures t[..] == Patched(old(t[..]), at, ToBig(SizeOrMark(a), 8))
  {
    if a == OFFSET_ERROR {
      MinusOne();
      ghost var was := t[..];
      forall k | at <= k < at + 8 {
        t[k] := 255;
      }
      assert t[..] == Patched(was, at, ToBig(-1, 8));
    } else {
      SmallSize(a);
      PatchedTwice(t[..], at, ToBig(0, 4), ToBig(a, 4));
      MiInt4Store(t, at, 0);
      MiInt4Store(t, at + 4, a);
    }
  }

  function SizeOrMark(a: nat): int {
    if a == OFFSET_ERROR then -1 else a
  }

  lemma MinusOne()
    ensures ToBig(-1, 8) == [255, 255, 255, 255, 255, 255, 255, 255]
  {
    LittleBytes(-1, 8);
    BigBytes(-1, 8);
  }

  /** A size below 2^32 has four leading zero bytes. */
  lemma SmallSize(a: nat)
    requires a <= OFFSET_ERROR
    ensures ToBig(a, 8) == ToBig(0, 4) + ToBig(a, 4)
  {
    var low, high := ToLittle(a, 4), ToLittle(0, 4);
    assert ToLittle(a, 8) == low + high by {
      assert a % 0x1_0000_0000 == a && a / 0x1_0000_0000 % 0x1_0000_0000 == 0;
      Halves(a);
    }
    ReverseAppend(low, high);
  }

  function MiSizeKorr(t: seq<Byte>): nat
    requires |t| >= 8
  {
    MiUint4Korr(t[4..])
  }

  /** Both are read back, the mark as the largest 32-bit number, at any place of any buffer. */
  lemma SizeRoundTrip(s: seq<Byte>, at: nat, a: nat)
    requires a <= OFFSET_ERROR && at + 8 <= |s|
    ensures MiSizeKorr(ReadBack(s, at, ToBig(SizeOrMark(a), 8))) == a
  {
    var t := ReadBack(s, at, ToBig(SizeOrMark(a), 8));
    MiUnsignedReadsAreGeneric(t[4..]);
    assert t[4..][..4] == t[..8][4..];
    Powers();
    BigRoundTrip(a, 4);
    if a == OFFSET_ERROR {
      MinusOne();
      MarkReads(t);
    } else {
      SmallSize(a);
      assert ToBig(a, 8)[4..] == ToBig(a, 4);
    }
  }

  lemma MarkReads(t: seq<Byte>)
    requires |t| >= 8 && t[..8] == [255, 255, 255, 255, 255, 255, 255, 255]
    ensures MiSizeKorr(t) == OFFSET_ERROR
  {
    assert forall i :: 0 <= i < 8 ==> t[i] == t[..8][i];
  }
}
