/** `skip_trailing_space` of m_string.h: a backward scan that reads the middle of the buffer a word at a time.

    A buffer is a sequence of bytes placed at an address `ptr`; positions are offsets from it.  `size` is
    SIZEOF_INT, for which the header knows 4 and 8. */
module SkipSpace {
  import opened Arithmetic
  import opened Bytes

  const SPACE: Byte := 0x20

  // ---------- The plain scan ----------

  /** The end of `s` without its trailing spaces. */
  function NaiveEnd(s: seq<Byte>): (end: nat)
    ensures end <= |s|
  {
    if s != [] && s[|s| - 1] == SPACE then NaiveEnd(s[..|s| - 1]) else |s|
  }

  ghost predicate AllSpaces(s: seq<Byte>) {
    forall i :: 0 <= i < |s| ==> s[i] == SPACE
  }

  /** It is the one position behind which all is space and before which there is none. */
  lemma {:induction false} NaiveEndIff(s: seq<Byte>, end: nat)
    requires end <= |s|
    ensures end == NaiveEnd(s) <==> AllSpaces(s[end..]) && (end > 0 ==> s[end - 1] != SPACE)
  {
    var k := |s| - 1;
    if s != [] && s[k] == SPACE {
      if end <= k {
        NaiveEndIff(s[..k], end);
        assert AllSpaces(s[end..]) <==> AllSpaces(s[..k][end..]) by {
          assert s[end..] == s[..k][end..] + [SPACE];
        }
      }
    } else if end < |s| {
      assert s[end..][|s| - 1 - end] == s[k];
    }
  }

  // ---------- Words ----------

  predicate WordSize(size: nat) {
    size == 4 || size == 8
  }

  /** The constant SPACE_INT for either word size. */
  function SpaceInt(size: nat): nat
    requires WordSize(size)
  {
    if size == 4 then 0x20202020 else 0x2020202020202020
  }

  function Spaces(size: nat): (s: seq<Byte>)
    ensures |s| == size && AllSpaces(s)
  {
    seq(size, _ => SPACE)
  }

  lemma SpaceIntIsSpaces(size: nat)
    requires WordSize(size)
    ensures FromLittle(Spaces(size)) == SpaceInt(size)
  {
    var four := Spaces(4);
    assert four == [SPACE, SPACE, SPACE, SPACE];
    assert four[1..] == [SPACE, SPACE, SPACE] && four[1..][1..] == [SPACE, SPACE];
    assert four[1..][1..][1..] == [SPACE];
    Digit(SPACE);
    assert FromLittle(four) == 0x20202020;
    if size == 8 {
      assert Spaces(8) == four + four;
      FromLittleAppend(four, four);
      assert Pow256(4) == 0x1_0000_0000 by {
        assert Pow256(2) == 0x1_0000 && Pow256(3) == 0x100_0000;
      }
    }
  }

  predicate Aligned(address: int, size: nat)
    requires WordSize(size)
  {
    if size == 4 then address % 4 == 0 else address % 8 == 0
  }

  /** The aligned address at or just below `address`: `address / size * size`. */
  function RoundDown(address: nat, size: nat): (down: nat)
    requires WordSize(size)
    ensures Aligned(down, size) && address - size < down <= address
  {
    if size == 4 then
      RoundDownBy(address, 4);
      address / 4 * 4
    else
      RoundDownBy(address, 8);
      address / 8 * 8
  }

  lemma RoundDownBy(address: nat, size: nat)
    requires size > 0
    ensures address / size * size % size == 0 && address - size < address / size * size <= address
  {
    var q, r := address / size, address % size;
    assert address == size * q + r;
    ModUnique(size * q, size, q, 0);
  }

  /** Aligned addresses are whole words apart. */
  lemma WordsApart(low: int, high: int, size: nat)
    requires WordSize(size) && Aligned(low, size) && Aligned(high, size) && low < high
    ensures low <= high - size && Aligned(high - size, size)
  {
    if size == 4 {
      FourApart(low, high);
    } else {
      EightApart(low, high);
    }
  }

  lemma FourApart(low: int, high: int)
    requires low % 4 == 0 && high % 4 == 0 && low < high
    ensures low <= high - 4 && (high - 4) % 4 == 0
  {
  }

  lemma EightApart(low: int, high: int)
    requires low % 8 == 0 && high % 8 == 0 && low < high
    ensures low <= high - 8 && (high - 8) % 8 == 0
  {
  }

  /** One word read.  The preconditions are what the hardware asks: in bounds and aligned. */
  function ReadWord(buf: seq<Byte>, ptr: nat, at: nat, size: nat): nat
    requires WordSize(size) && at + size <= |buf| && Aligned(ptr + at, size)
  {
    FromLittle(buf[at..at + size])
  }

  /** The word just below the aligned position `end`, which lies above the aligned position `start`. */
  function ReadWordAbove(buf: seq<Byte>, ptr: nat, start: nat, end: nat, size: nat): nat
    requires WordSize(size) && start < end <= |buf| && Aligned(ptr + start, size) && Aligned(ptr + end, size)
  {
    WordsApart(ptr + start, ptr + end, size);
    ReadWord(buf, ptr, end - size, size)
  }

  lemma WordOfSpaces(buf: seq<Byte>, ptr: nat, at: nat, size: nat)
    requires WordSize(size) && at + size <= |buf| && Aligned(ptr + at, size)
    ensures ReadWord(buf, ptr, at, size) == SpaceInt(size) <==> AllSpaces(buf[at..at + size])
  {
    SpaceIntIsSpaces(size);
    var w := buf[at..at + size];
    if FromLittle(w) == SpaceInt(size) {
      SameNumberSameBytes(w, Spaces(size));
    }
    if AllSpaces(w) {
      assert w == Spaces(size);
    }
  }

  lemma AppendSpaces(buf: seq<Byte>, low: nat, mid: nat)
    requires low <= mid <= |buf|
    requires AllSpaces(buf[low..mid]) && AllSpaces(buf[mid..])
    ensures AllSpaces(buf[low..])
  {
    assert buf[low..] == buf[low..mid] + buf[mid..];
  }

  /** A word of spaces is skipped whole, and the position below it is aligned and in bounds again. */
  lemma WordStep(buf: seq<Byte>, ptr: nat, start: nat, end: nat, size: nat)
    requires WordSize(size) && start < end <= |buf| && Aligned(ptr + start, size) && Aligned(ptr + end, size)
    requires AllSpaces(buf[end..]) && ReadWordAbove(buf, ptr, start, end, size) == SpaceInt(size)
    ensures start <= end - size && Aligned(ptr + (end - size), size) && AllSpaces(buf[end - size..])
  {
    WordsApart(ptr + start, ptr + end, size);
    WordOfSpaces(buf, ptr, end - size, size);
    AppendSpaces(buf, end - size, end);
  }

  // ---------- The scan of m_string.h ----------

  /** For every buffer, length and alignment the answer is that of the plain scan: one past the last character
      that is not a space, and not, as the comment above the function says, that character. */
  method SkipTrailingSpace(buf: seq<Byte>, ptr: nat, size: nat) returns (end: nat)
    requires WordSize(size)
    ensures end == NaiveEnd(buf) && end <= |buf|
    ensures (forall i :: end <= i < |buf| ==> buf[i] == 0x20) && (end > 0 ==> buf[end - 1] != 0x20)
  {
    var len := |buf|;
    end := len;
    if len > 20 {
      var endWords := RoundDown(ptr + end, size) - ptr;
      var startWords := RoundDown(ptr + size - 1, size) - ptr;
      if endWords > 0 {
        while end > endWords && buf[end - 1] == SPACE
          invariant endWords <= end <= len && AllSpaces(buf[end..])
        {
          end := end - 1;
          AppendSpaces(buf, end, end + 1);
        }
        if buf[end - 1] == SPACE && startWords < endWords {
          while end > startWords && ReadWordAbove(buf, ptr, startWords, end, size) == SpaceInt(size)
            invariant startWords <= end <= len && AllSpaces(buf[end..]) && Aligned(ptr + end, size)
          {
            WordStep(buf, ptr, startWords, end, size);
            end := end - size;
          }
        }
      }
    }
    while end > 0 && buf[end - 1] == SPACE
      invariant 0 <= end <= len && AllSpaces(buf[end..])
    {
      end := end - 1;
      AppendSpaces(buf, end, end + 1);
    }
    NaiveEndIff(buf, end);
    SpacesBehind(buf, end);
  }

  lemma SpacesBehind(s: seq<Byte>, end: nat)
    requires end <= |s| && AllSpaces(s[end..])
    ensures forall i :: end <= i < |s| ==> s[i] == SPACE
  {
    assert forall i :: end <= i < |s| ==> s[i] == s[end..][i - end];
  }
}
