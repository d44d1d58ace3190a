/** The packed bitmap of my_bitmap.h as a finite set of bit numbers.

    The buffer is kept as bytes, the way the single-bit macros access it; a word is four consecutive bytes, and
    or-ing two words or-s their bytes.  `create_last_word_mask` is not part of this model: what it stores is
    the predicate `PaddingMask`. */
module Bitmap {
  import opened Arithmetic
  import opened Ranges

  // ---------- One byte ----------

  /** `1 << k` */
  function Mask(k: nat): bv8
    requires k < 8
  {
    match k
    case 0 => 1
    case 1 => 2
    case 2 => 4
    case 3 => 8
    case 4 => 16
    case 5 => 32
    case 6 => 64
    case _ => 128
  }

  /** `~(1 << k)` */
  function NotMask(k: nat): (m: bv8)
    requires k < 8
    ensures m == !Mask(k)
  {
    match k
    case 0 => 254
    case 1 => 253
    case 2 => 251
    case 3 => 247
    case 4 => 239
    case 5 => 223
    case 6 => 191
    case _ => 127
  }

  /** The masks are the shifts of the macros. */
  lemma MasksAreShifts(k: nat)
    requires k < 8
    ensures Mask(k) == (1 as bv8) << k && NotMask(k) == !((1 as bv8) << k)
  {
  }

  predicate BitOf(b: bv8, k: nat)
    requires k < 8
  {
    b & Mask(k) != 0
  }

  lemma ByteSet(b: bv8, k: nat, j: nat)
    requires k < 8 && j < 8
    ensures BitOf(b | Mask(k), j) <==> j == k || BitOf(b, j)
  {
  }

  lemma ByteClear(b: bv8, k: nat, j: nat)
    requires k < 8 && j < 8
    ensures BitOf(b & NotMask(k), j) <==> j != k && BitOf(b, j)
  {
  }

  lemma ByteFlip(b: bv8, k: nat, j: nat)
    requires k < 8 && j < 8
    ensures BitOf(b ^ Mask(k), j) <==> (if j == k then !BitOf(b, j) else BitOf(b, j))
  {
  }

  lemma ByteOr(a: bv8, b: bv8, j: nat)
    requires j < 8
    ensures BitOf(a | b, j) <==> BitOf(a, j) || BitOf(b, j)
  {
  }

  lemma SameBitsSameByte(a: bv8, b: bv8)
    requires forall j :: 0 <= j < 8 ==> (BitOf(a, j) <==> BitOf(b, j))
    ensures a == b
  {
    assert BitOf(a, 0) == BitOf(b, 0) && BitOf(a, 1) == BitOf(b, 1);
    assert BitOf(a, 2) == BitOf(b, 2) && BitOf(a, 3) == BitOf(b, 3);
    assert BitOf(a, 4) == BitOf(b, 4) && BitOf(a, 5) == BitOf(b, 5);
    assert BitOf(a, 6) == BitOf(b, 6) && BitOf(a, 7) == BitOf(b, 7);
  }

  // ---------- A buffer of bytes ----------

  predicate Bit(s: seq<bv8>, i: nat)
    requires i < 8 * |s|
  {
    BitOf(s[i / 8], i % 8)
  }

  function Digit(b: bv8, k: nat): nat
    requires k < 8
  {
    if BitOf(b, k) then 1 else 0
  }

  lemma ByteIsItsDigits(b: bv8)
    ensures b as int == Digit(b, 0) + 2 * Digit(b, 1) + 4 * Digit(b, 2) + 8 * Digit(b, 3)
                        + 16 * Digit(b, 4) + 32 * Digit(b, 5) + 64 * Digit(b, 6) + 128 * Digit(b, 7)
  {
  }

  /** Bit `i` of a buffer is the binary digit with the weight 2^(i % 8) of the number in byte i / 8. */
  lemma BitIsDigit(s: seq<bv8>, i: nat)
    requires i < 8 * |s|
    ensures Bit(s, i) <==> s[i / 8] as int / [1, 2, 4, 8, 16, 32, 64, 128][i % 8] % 2 == 1
  {
    ByteDigit(s[i / 8], i % 8);
  }

  lemma ByteDigit(b: bv8, k: nat)
    requires k < 8
    ensures b as int / [1, 2, 4, 8, 16, 32, 64, 128][k] % 2 == Digit(b, k)
  {
    ByteIsItsDigits(b);
    DigitOf(k, b as int, Digit(b, 0), Digit(b, 1), Digit(b, 2), Digit(b, 3),
            Digit(b, 4), Digit(b, 5), Digit(b, 6), Digit(b, 7));
  }

  lemma DigitOf(k: nat, n: nat, b0: nat, b1: nat, b2: nat, b3: nat, b4: nat, b5: nat, b6: nat, b7: nat)
    requires k < 8 && b0 < 2 && b1 < 2 && b2 < 2 && b3 < 2 && b4 < 2 && b5 < 2 && b6 < 2 && b7 < 2
    requires n == b0 + 2 * b1 + 4 * b2 + 8 * b3 + 16 * b4 + 32 * b5 + 64 * b6 + 128 * b7
    ensures n / [1, 2, 4, 8, 16, 32, 64, 128][k] % 2 == [b0, b1, b2, b3, b4, b5, b6, b7][k]
  {
    match k {
      case 0 => Middle(n, 1, 0, b0, b1 + 2 * b2 + 4 * b3 + 8 * b4 + 16 * b5 + 32 * b6 + 64 * b7);
      case 1 => Middle(n, 2, b0, b1, b2 + 2 * b3 + 4 * b4 + 8 * b5 + 16 * b6 + 32 * b7);
      case 2 => Middle(n, 4, b0 + 2 * b1, b2, b3 + 2 * b4 + 4 * b5 + 8 * b6 + 16 * b7);
      case 3 => Middle(n, 8, b0 + 2 * b1 + 4 * b2, b3, b4 + 2 * b5 + 4 * b6 + 8 * b7);
      case 4 => Middle(n, 16, b0 + 2 * b1 + 4 * b2 + 8 * b3, b4, b5 + 2 * b6 + 4 * b7);
      case 5 => Middle(n, 32, b0 + 2 * b1 + 4 * b2 + 8 * b3 + 16 * b4, b5, b6 + 2 * b7);
      case 6 => Middle(n, 64, b0 + 2 * b1 + 4 * b2 + 8 * b3 + 16 * b4 + 32 * b5, b6, b7);
      case _ => Middle(n, 128, b0 + 2 * b1 + 4 * b2 + 8 * b3 + 16 * b4 + 32 * b5 + 64 * b6, b7, 0);
    }
  }

  lemma Middle(n: nat, p: nat, low: nat, digit: nat, high: nat)
    requires low < p && digit < 2 && n == p * (digit + 2 * high) + low
    ensures n / p % 2 == digit
  {
    ModUnique(n, p, digit + 2 * high, low);
  }

  /** The set that the first `n` bits of a buffer stand for. */
  ghost function View(s: seq<bv8>, n: nat): (bits: set<nat>)
    requires n <= 8 * |s|
  {
    set i | 0 <= i < n && Bit(s, i)
  }

  function SetBit(s: seq<bv8>, i: nat): seq<bv8>
    requires i < 8 * |s|
  {
    s[i / 8 := s[i / 8] | Mask(i % 8)]
  }

  function ClearBit(s: seq<bv8>, i: nat): seq<bv8>
    requires i < 8 * |s|
  {
    s[i / 8 := s[i / 8] & NotMask(i % 8)]
  }

  function FlipBit(s: seq<bv8>, i: nat): seq<bv8>
    requires i < 8 * |s|
  {
    s[i / 8 := s[i / 8] ^ Mask(i % 8)]
  }

  lemma SameIndex(i: nat, j: nat)
    ensures j == i <==> j / 8 == i / 8 && j % 8 == i % 8
  {
  }

  /** Each single-bit operation changes the addressed bit and no other, in the padding or elsewhere. */
  lemma SetBitAt(s: seq<bv8>, i: nat, j: nat)
    requires i < 8 * |s| && j < 8 * |s|
    ensures Bit(SetBit(s, i), j) <==> j == i || Bit(s, j)
  {
    SameIndex(i, j);
    if j / 8 == i / 8 {
      ByteSet(s[i / 8], i % 8, j % 8);
    }
  }

  lemma ClearBitAt(s: seq<bv8>, i: nat, j: nat)
    requires i < 8 * |s| && j < 8 * |s|
    ensures Bit(ClearBit(s, i), j) <==> j != i && Bit(s, j)
  {
    SameIndex(i, j);
    if j / 8 == i / 8 {
      ByteClear(s[i / 8], i % 8, j % 8);
    }
  }

  lemma FlipBitAt(s: seq<bv8>, i: nat, j: nat)
    requires i < 8 * |s| && j < 8 * |s|
    ensures Bit(FlipBit(s, i), j) <==> (if j == i then !Bit(s, j) else Bit(s, j))
  {
    SameIndex(i, j);
    if j / 8 == i / 8 {
      ByteFlip(s[i / 8], i % 8, j % 8);
    }
  }

  lemma SingleBitView(s: seq<bv8>, n: nat, i: nat)
    requires n <= 8 * |s| && i < n
    ensures View(SetBit(s, i), n) == View(s, n) + {i}
    ensures View(ClearBit(s, i), n) == View(s, n) - {i}
    ensures View(FlipBit(s, i), n) == if i in View(s, n) then View(s, n) - {i} else View(s, n) + {i}
  {
    forall j | 0 <= j < n
      ensures Bit(SetBit(s, i), j) <==> j == i || Bit(s, j)
      ensures Bit(ClearBit(s, i), j) <==> j != i && Bit(s, j)
      ensures Bit(FlipBit(s, i), j) <==> (if j == i then !Bit(s, j) else Bit(s, j))
    {
      SetBitAt(s, i, j);
      ClearBitAt(s, i, j);
      FlipBitAt(s, i, j);
    }
  }

  // ---------- Sizes ----------

  const UINT := 0x1_0000_0000

  /** The size macros compute in 32-bit unsigned arithmetic. */
  function NoWords(n: nat): nat {
    (n + 31) % UINT / 32
  }

  function NoBytes(n: nat): nat {
    (n + 7) % UINT / 8
  }

  function BufferSize(n: nat): nat {
    NoWords(n) * 4
  }

  /** The buffer has room for `n` bits, with less than a word to spare, exactly when `n + 31` does not wrap. */
  lemma BufferFitsIff(n: nat)
    requires n < 0x1_0000_0000
    ensures 8 * BufferSize(n) >= n <==> n <= 0xFFFF_FFE0
    ensures n <= 0xFFFF_FFE0 ==> 8 * BufferSize(n) < n + 32
    ensures n <= 0xFFFF_FFE0 ==> NoBytes(n) <= BufferSize(n) < NoBytes(n) + 4
  {
    if n <= UINT - 32 {
      assert NoWords(n) == (n + 31) / 32 && NoBytes(n) == (n + 7) / 8;
    } else {
      assert (n + 31) % UINT == n + 31 - UINT;
    }
  }

  // ---------- Padding ----------

  /** The four mask bytes have exactly the bits of the last word that are not used. */
  ghost predicate PaddingMask(mask: seq<bv8>, last: nat, n: nat) {
    |mask| == 4 && forall i :: 0 <= i < 32 ==> (Bit(mask, i) <==> 8 * last + i >= n)
  }

  /** The word at byte position `last` or-ed with the mask. */
  function OrWord(s: seq<bv8>, last: nat, mask: seq<bv8>): (r: seq<bv8>)
    requires |mask| == 4 && last + 4 <= |s|
    ensures |r| == |s|
  {
    s[last := s[last] | mask[0]][last + 1 := s[last + 1] | mask[1]]
     [last + 2 := s[last + 2] | mask[2]][last + 3 := s[last + 3] | mask[3]]
  }

  ghost predicate Padded(s: seq<bv8>, n: nat) {
    forall i :: n <= i < 8 * |s| ==> Bit(s, i)
  }

  lemma OrWordBit(s: seq<bv8>, last: nat, mask: seq<bv8>, i: nat)
    requires |mask| == 4 && last + 4 <= |s| && i < 8 * |s|
    ensures Bit(OrWord(s, last, mask), i) <==>
            Bit(s, i) || (8 * last <= i < 8 * last + 32 && Bit(mask, i - 8 * last))
  {
    var r, q := OrWord(s, last, mask), i / 8 - last;
    if 8 * last <= i < 8 * last + 32 {
      assert (i - 8 * last) / 8 == q && (i - 8 * last) % 8 == i % 8 && 0 <= q < 4;
      OrWordByte(s, last, mask, q);
      ByteOr(s[last + q], mask[q], i % 8);
    } else {
      assert q < 0 || q >= 4;
      assert r[i / 8] == s[i / 8];
    }
  }

  lemma OrWordByte(s: seq<bv8>, last: nat, mask: seq<bv8>, q: nat)
    requires |mask| == 4 && last + 4 <= |s| && q < 4
    ensures OrWord(s, last, mask)[last + q] == s[last + q] | mask[q]
  {
    var v := seq(4, i requires 0 <= i < 4 => s[last + i] | mask[i]);
    assert OrWord(s, last, mask) == s[last := v[0]][last + 1 := v[1]][last + 2 := v[2]][last + 3 := v[3]];
    FourUpdates(s, last, v, q);
  }

  lemma FourUpdates<T>(s: seq<T>, at: nat, v: seq<T>, q: nat)
    requires at + 4 <= |s| && |v| == 4 && q < 4
    ensures s[at := v[0]][at + 1 := v[1]][at + 2 := v[2]][at + 3 := v[3]][at + q] == v[q]
  {
  }

  /** Normalising sets the padding and leaves the set unchanged. */
  lemma Normalise(s: seq<bv8>, last: nat, mask: seq<bv8>, n: nat)
    requires |s| == last + 4 && 8 * last < n <= 8 * |s| && PaddingMask(mask, last, n)
    ensures View(OrWord(s, last, mask), n) == View(s, n) && Padded(OrWord(s, last, mask), n)
  {
    forall i | 0 <= i < 8 * |s|
      ensures Bit(OrWord(s, last, mask), i) <==> Bit(s, i) || i >= n
    {
      OrWordBit(s, last, mask, i);
    }
  }

  /** With the padding set, buffers are equal byte by byte exactly when their sets are equal. */
  lemma PaddedEqualIff(s: seq<bv8>, t: seq<bv8>, n: nat)
    requires |s| == |t| && n <= 8 * |s| && Padded(s, n) && Padded(t, n)
    ensures s == t <==> View(s, n) == View(t, n)
  {
    if View(s, n) == View(t, n) {
      forall q | 0 <= q < |s|
        ensures s[q] == t[q]
      {
        forall j | 0 <= j < 8
          ensures BitOf(s[q], j) <==> BitOf(t[q], j)
        {
          var i := 8 * q + j;
          assert i / 8 == q && i % 8 == j;
          assert Bit(s, i) <==> Bit(t, i) by {
            if i < n {
              assert Bit(s, i) <==> i in View(s, n);
              assert Bit(t, i) <==> i in View(t, n);
            }
          }
        }
        SameBitsSameByte(s[q], t[q]);
      }
    }
  }

  // ---------- The operations ----------

  class MyBitmap {
    const bitmap: array<bv8>
    const nBits: nat
    const lastWordMask: seq<bv8>
    const lastWordPtr: nat        // byte position of the last word in `bitmap`

    ghost predicate Valid() {
      && 0 < nBits <= UINT - 32
      && bitmap.Length == BufferSize(nBits)
      && lastWordPtr == bitmap.Length - 4
      && PaddingMask(lastWordMask, lastWordPtr, nBits)
    }

    lemma Sizes()
      requires Valid()
      ensures bitmap.Length == lastWordPtr + 4 && 8 * lastWordPtr < nBits <= 8 * bitmap.Length
      ensures 4 * NoWords(nBits) == bitmap.Length
    {
      BufferFitsIff(nBits);
    }

    ghost function Bits(): set<nat>
      requires Valid()
      reads bitmap
    {
      Sizes();
      View(bitmap[..], nBits)
    }

    constructor (bitmap: array<bv8>, nBits: nat, lastWordMask: seq<bv8>)
      requires 0 < nBits <= UINT - 32 && bitmap.Length == BufferSize(nBits)
      requires PaddingMask(lastWordMask, bitmap.Length - 4, nBits)
      ensures Valid() && this.bitmap == bitmap && this.nBits == nBits
    {
      this.bitmap, this.nBits, this.lastWordMask := bitmap, nBits, lastWordMask;
      lastWordPtr := bitmap.Length - 4;
    }

    method BitmapSetBit(bit: nat)
      requires Valid() && bit < nBits
      modifies bitmap
      ensures Bits() == old(Bits()) + {bit} && bitmap[..] == SetBit(old(bitmap[..]), bit)
    {
      Sizes();
      SingleBitView(bitmap[..], nBits, bit);
      bitmap[bit / 8] := bitmap[bit / 8] | Mask(bit % 8);
    }

    method BitmapFlipBit(bit: nat)
      requires Valid() && bit < nBits
      modifies bitmap
      ensures Bits() == if bit in old(Bits()) then old(Bits()) - {bit} else old(Bits()) + {bit}
      ensures bitmap[..] == FlipBit(old(bitmap[..]), bit)
    {
      Sizes();
      SingleBitView(bitmap[..], nBits, bit);
      bitmap[bit / 8] := bitmap[bit / 8] ^ Mask(bit % 8);
    }

    method BitmapClearBit(bit: nat)
      requires Valid() && bit < nBits
      modifies bitmap
      ensures Bits() == old(Bits()) - {bit} && bitmap[..] == ClearBit(old(bitmap[..]), bit)
    {
      Sizes();
      SingleBitView(bitmap[..], nBits, bit);
      bitmap[bit / 8] := bitmap[bit / 8] & NotMask(bit % 8);
    }

    /** Non-zero, not necessarily one, for a set bit. */
    method BitmapIsSet(bit: nat) returns (r: bv8)
      requires Valid() && bit < nBits
      ensures r != 0 <==> bit in Bits()
    {
      Sizes();
      r := bitmap[bit / 8] & Mask(bit % 8);
      assert Bit(bitmap[..], bit) <==> r != 0;
    }

    method BitmapClearAll()
      requires Valid()
      modifies bitmap
      ensures Bits() == {} && bitmap[..] == seq(bitmap.Length, _ => 0)
    {
      Sizes();
      forall k | 0 <= k < 4 * NoWords(nBits) {
        bitmap[k] := 0;
      }
      assert bitmap[..] == seq(bitmap.Length, _ => 0);
      AllClear(bitmap.Length, nBits);
    }

    method BitmapSetAll()
      requires Valid()
      modifies bitmap
      ensures Bits() == Below(nBits) && bitmap[..] == seq(bitmap.Length, _ => 0xFF)
    {
      Sizes();
      forall k | 0 <= k < 4 * NoWords(nBits) {
        bitmap[k] := 0xFF;
      }
      assert bitmap[..] == seq(bitmap.Length, _ => 0xFF);
      AllSet(bitmap.Length, nBits);
    }
  }

  lemma AllClear(len: nat, n: nat)
    requires n <= 8 * len
    ensures View(seq(len, _ => 0), n) == {}
  {
    var s: seq<bv8> := seq(len, _ => 0);
    forall i | 0 <= i < n
      ensures !Bit(s, i)
    {
      assert s[i / 8] == 0;
    }
  }

  lemma AllSet(len: nat, n: nat)
    requires n <= 8 * len
    ensures View(seq(len, _ => 0xFF), n) == Below(n)
  {
    var s: seq<bv8> := seq(len, _ => 0xFF);
    forall i | 0 <= i < n
      ensures Bit(s, i)
    {
      assert s[i / 8] == 0xFF;
    }
  }

  /** Compares two maps of one size, writing their padding on the way.  The answer is set equality whatever the
      padding held before, and neither set changes, also when the maps share their buffer. */
  method BitmapCmp(map1: MyBitmap, map2: MyBitmap) returns (equal: bool)
    requires map1.Valid() && map2.Valid() && map1.nBits == map2.nBits
    modifies map1.bitmap, map2.bitmap
    ensures equal <==> old(map1.Bits()) == old(map2.Bits())
    ensures map1.Bits() == old(map1.Bits()) && map2.Bits() == old(map2.Bits())
    ensures Padded(map1.bitmap[..], map1.nBits) && Padded(map2.bitmap[..], map2.nBits)
  {
    map1.Sizes();
    map2.Sizes();
    Normalise(map1.bitmap[..], map1.lastWordPtr, map1.lastWordMask, map1.nBits);
    OrLastWord(map1);
    assert map2.Bits() == old(map2.Bits());
    Normalise(map2.bitmap[..], map2.lastWordPtr, map2.lastWordMask, map2.nBits);
    ghost var first := map1.bitmap[..];
    OrLastWord(map2);
    assert map1.bitmap != map2.bitmap ==> map1.bitmap[..] == first;
    PaddedEqualIff(map1.bitmap[..], map2.bitmap[..], map1.nBits);
    var bytes := 4 * NoWords(map1.nBits);
    assert map1.bitmap[..bytes] == map1.bitmap[..] && map2.bitmap[..bytes] == map2.bitmap[..];
    return map1.bitmap[..bytes] == map2.bitmap[..bytes];
  }

  /** `*map->last_word_ptr |= map->last_word_mask` */
  method OrLastWord(bm: MyBitmap)
    requires bm.Valid()
    modifies bm.bitmap
    ensures bm.bitmap[..] == OrWord(old(bm.bitmap[..]), bm.lastWordPtr, bm.lastWordMask)
  {
    var b, p, m := bm.bitmap, bm.lastWordPtr, bm.lastWordMask;
    b[p], b[p + 1], b[p + 2], b[p + 3] := b[p] | m[0], b[p + 1] | m[1], b[p + 2] | m[2], b[p + 3] | m[3];
  }

  // ---------- Runs ----------

  datatype MapOp = Set(i: nat) | Clear(i: nat) | Flip(i: nat) | SetAll | ClearAll | Compare

  predicate InRange(op: MapOp, n: nat) {
    op.Set? || op.Clear? || op.Flip? ==> op.i < n
  }

  function ApplyBytes(s: seq<bv8>, n: nat, last: nat, mask: seq<bv8>, op: MapOp): (r: seq<bv8>)
    requires |s| == last + 4 && n <= 8 * |s| && |mask| == 4 && InRange(op, n)
    ensures |r| == |s|
  {
    match op
    case Set(i) => SetBit(s, i)
    case Clear(i) => ClearBit(s, i)
    case Flip(i) => FlipBit(s, i)
    case SetAll => seq(|s|, _ => 0xFF)
    case ClearAll => seq(|s|, _ => 0)
    case Compare => OrWord(s, last, mask)
  }

  function ApplySet(bits: set<nat>, n: nat, op: MapOp): set<nat> {
    match op
    case Set(i) => bits + {i}
    case Clear(i) => bits - {i}
    case Flip(i) => if i in bits then bits - {i} else bits + {i}
    case SetAll => Below(n)
    case ClearAll => {}
    case Compare => bits
  }

  function RunBytes(s: seq<bv8>, n: nat, last: nat, mask: seq<bv8>, ops: seq<MapOp>): (r: seq<bv8>)
    requires |s| == last + 4 && n <= 8 * |s| && |mask| == 4
    requires forall k :: 0 <= k < |ops| ==> InRange(ops[k], n)
    ensures |r| == |s|
    decreases ops
  {
    if ops == [] then s else RunBytes(ApplyBytes(s, n, last, mask, ops[0]), n, last, mask, ops[1..])
  }

  function RunSet(bits: set<nat>, n: nat, ops: seq<MapOp>): set<nat>
    decreases ops
  {
    if ops == [] then bits else RunSet(ApplySet(bits, n, ops[0]), n, ops[1..])
  }

  /** Every run on the packed bytes, comparisons included, is the run on the set. */
  lemma {:induction false} RunRefinesSet(s: seq<bv8>, n: nat, last: nat, mask: seq<bv8>, ops: seq<MapOp>)
    requires |s| == last + 4 && 8 * last < n <= 8 * |s| && PaddingMask(mask, last, n)
    requires forall k :: 0 <= k < |ops| ==> InRange(ops[k], n)
    ensures View(RunBytes(s, n, last, mask, ops), n) == RunSet(View(s, n), n, ops)
    decreases ops
  {
    if ops != [] {
      var op := ops[0];
      match op {
        case Set(i) => SingleBitView(s, n, i);
        case Clear(i) => SingleBitView(s, n, i);
        case Flip(i) => SingleBitView(s, n, i);
        case SetAll => AllSet(|s|, n);
        case ClearAll => AllClear(|s|, n);
        case Compare => Normalise(s, last, mask, n);
      }
      RunRefinesSet(ApplyBytes(s, n, last, mask, op), n, last, mask, ops[1..]);
    }
  }
}
