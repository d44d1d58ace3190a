/** The judge's output comparison (Judger/Excuter.cpp): three verdicts from one walk over the expected and the actual
    text, and what each of them says about the two texts. */
module Matcher {

  const MATCHER_ACCEPT := 0
  const MATCHER_NOT_EXIST_SRC := 2
  const MATCHER_NOT_EXIST_DEST := 3
  const MATCHER_WRONG_ANSWER := 4
  const MATCHER_PRESENT_ERROR := 5

  predicate IsWhiteSpace(c: char) {
    c == '\0' || c in " \t\r\n"
  }

  // ---------- What the verdicts mean ----------

  /** The text without its white space. */
  function Visible(s: string): string {
    if s == [] then []
    else if IsWhiteSpace(s[0]) then Visible(s[1..])
    else [s[0]] + Visible(s[1..])
  }

  /** Any number of carriage returns and then a line feed. */
  predicate StartsLineEnd(s: string) {
    s != [] && (s[0] == '\n' || (s[0] == '\r' && StartsLineEnd(s[1..])))
  }

  /** The text without the carriage returns of its line ends; any other carriage return stays. */
  function UnixLines(s: string): (r: string) {
    if s == [] then []
    else if s[0] == '\r' && StartsLineEnd(s[1..]) then UnixLines(s[1..])
    else [s[0]] + UnixLines(s[1..])
  }

  function Verdict(expected: string, actual: string): int {
    if Visible(expected) != Visible(actual) then MATCHER_WRONG_ANSWER
    else if UnixLines(expected) == UnixLines(actual) then MATCHER_ACCEPT
    else MATCHER_PRESENT_ERROR
  }

  /** The first character that is kept. */
  lemma {:induction false} FirstKept(s: string)
    ensures UnixLines(s) == [] <==> s == []
    ensures s != [] ==> UnixLines(s)[0] == if StartsLineEnd(s) then '\n' else s[0]
  {
    if s != [] {
      FirstKept(s[1..]);
    }
  }

  /** Equal heads may be dropped. */
  lemma DropBoth(s: string, t: string)
    requires s != [] && t != [] && s[0] == t[0]
    ensures Visible(s) == Visible(t) <==> Visible(s[1..]) == Visible(t[1..])
    ensures UnixLines(s) == UnixLines(t) <==> UnixLines(s[1..]) == UnixLines(t[1..])
  {
    FirstKept(s);
    FirstKept(t);
    FirstKept(s[1..]);
    FirstKept(t[1..]);
    if !IsWhiteSpace(s[0]) {
      SameHead(s[0], Visible(s[1..]), Visible(t[1..]));
    }
    SameHead(s[0], UnixLines(s[1..]), UnixLines(t[1..]));
  }

  lemma SameHead(c: char, x: string, y: string)
    ensures [c] + x == [c] + y <==> x == y
  {
    assert ([c] + x)[1..] == x && ([c] + y)[1..] == y;
  }

  /** A carriage return against a line feed may be dropped. */
  lemma DropReturn(s: string, t: string)
    requires s != [] && t != [] && s[0] == '\r' && t[0] == '\n'
    ensures UnixLines(s) == UnixLines(t) <==> UnixLines(s[1..]) == UnixLines(t)
  {
    FirstKept(s);
    FirstKept(t);
    FirstKept(s[1..]);
  }

  /** Any other difference of heads is one of the texts. */
  lemma HeadsDiffer(s: string, t: string)
    requires s != [] && t != [] && s[0] != t[0]
    requires !(s[0] == '\r' && t[0] == '\n') && !(t[0] == '\r' && s[0] == '\n')
    ensures UnixLines(s) != UnixLines(t)
  {
    FirstKept(s);
    FirstKept(t);
  }

  /** Having walked from `src` and `dst` to the remainders `s` and `t`, these decide what is not decided yet. */
  ghost predicate Walked(src: string, dst: string, s: string, t: string, result: int) {
    && (result == MATCHER_ACCEPT || result == MATCHER_PRESENT_ERROR)
    && (Visible(src) == Visible(dst) <==> Visible(s) == Visible(t))
    && (result == MATCHER_ACCEPT ==> (UnixLines(src) == UnixLines(dst) <==> UnixLines(s) == UnixLines(t)))
    && (result == MATCHER_PRESENT_ERROR ==> UnixLines(src) != UnixLines(dst))
  }

  lemma WalkBoth(src: string, dst: string, s: string, t: string, result: int)
    requires Walked(src, dst, s, t, result) && s != [] && t != [] && s[0] == t[0]
    ensures Walked(src, dst, s[1..], t[1..], result)
  {
    DropBoth(s, t);
  }

  lemma WalkReturn(src: string, dst: string, s: string, t: string, result: int)
    requires s != [] && t != [] && s[0] == '\r' && t[0] == '\n'
    ensures Walked(src, dst, s, t, result) ==> Walked(src, dst, s[1..], t, result)
    ensures Walked(src, dst, t, s, result) ==> Walked(src, dst, t, s[1..], result)
  {
    DropReturn(s, t);
  }

  /** White space against something else, or against the end. */
  lemma WalkWhite(src: string, dst: string, s: string, t: string, result: int)
    requires s != [] && IsWhiteSpace(s[0])
    requires t != [] ==> s[0] != t[0] && !(s[0] == '\r' && t[0] == '\n') && !(t[0] == '\r' && s[0] == '\n')
    ensures Walked(src, dst, s, t, result) ==> Walked(src, dst, s[1..], t, MATCHER_PRESENT_ERROR)
    ensures Walked(src, dst, t, s, result) ==> Walked(src, dst, t, s[1..], MATCHER_PRESENT_ERROR)
  {
    FirstKept(s);
    if t != [] {
      HeadsDiffer(s, t);
    }
  }

  /** Something visible against something else visible, or against the end. */
  lemma WalkEnds(src: string, dst: string, s: string, t: string, result: int)
    requires s != [] && !IsWhiteSpace(s[0]) && (t != [] ==> !IsWhiteSpace(t[0]) && s[0] != t[0])
    requires Walked(src, dst, s, t, result) || Walked(src, dst, t, s, result)
    ensures Verdict(src, dst) == MATCHER_WRONG_ANSWER
  {
    assert Visible(s)[0] == s[0];
  }

  /** The walk of Matcher::compare(). */
  method Compare(src: string, dst: string) returns (result: int)
    ensures result == Verdict(src, dst)
  {
    result := MATCHER_ACCEPT;
    var i, k := 0, 0;
    assert src[0..] == src && dst[0..] == dst;
    while i < |src| && k < |dst|
      invariant i <= |src| && k <= |dst|
      invariant Walked(src, dst, src[i..], dst[k..], result)
      decreases |src| - i + |dst| - k
    {
      var srcChr, dstChr := src[i], dst[k];
      ghost var s, t := src[i..], dst[k..];
      assert src[i + 1..] == s[1..] && dst[k + 1..] == t[1..];
      if srcChr == dstChr {
        WalkBoth(src, dst, s, t, result);
        i := i + 1;
        k := k + 1;
      } else if srcChr == '\r' && dstChr == '\n' {
        WalkReturn(src, dst, s, t, result);
        i := i + 1;
      } else if dstChr == '\r' && srcChr == '\n' {
        WalkReturn(src, dst, t, s, result);
        k := k + 1;
      } else if IsWhiteSpace(srcChr) {
        WalkWhite(src, dst, s, t, result);
        result := MATCHER_PRESENT_ERROR;
        i := i + 1;
      } else if IsWhiteSpace(dstChr) {
        WalkWhite(src, dst, t, s, result);
        result := MATCHER_PRESENT_ERROR;
        k := k + 1;
      } else {
        WalkEnds(src, dst, s, t, result);
        return MATCHER_WRONG_ANSWER;
      }
    }
    while i < |src|
      invariant i <= |src| && k <= |dst| && (i < |src| ==> k == |dst|)
      invariant Walked(src, dst, src[i..], dst[k..], result)
    {
      assert src[i..][1..] == src[i + 1..];
      if !IsWhiteSpace(src[i]) {
        WalkEnds(src, dst, src[i..], dst[k..], result);
        return MATCHER_WRONG_ANSWER;
      }
      WalkWhite(src, dst, src[i..], dst[k..], result);
      result := MATCHER_PRESENT_ERROR;
      i := i + 1;
    }
    while k < |dst|
      invariant i == |src| && k <= |dst|
      invariant Walked(src, dst, src[i..], dst[k..], result)
    {
      assert dst[k..][1..] == dst[k + 1..];
      if !IsWhiteSpace(dst[k]) {
        WalkEnds(src, dst, dst[k..], src[i..], result);
        return MATCHER_WRONG_ANSWER;
      }
      WalkWhite(src, dst, dst[k..], src[i..], result);
      result := MATCHER_PRESENT_ERROR;
      k := k + 1;
    }
  }

  // ---------- The verdicts as a relation ----------

  lemma {:induction false} LinesKeepTheVisible(s: string)
    ensures Visible(UnixLines(s)) == Visible(s)
  {
    if s != [] {
      LinesKeepTheVisible(s[1..]);
      if !(s[0] == '\r' && StartsLineEnd(s[1..])) {
        assert UnixLines(s)[1..] == UnixLines(s[1..]);
      }
    }
  }

  /** The order of the two tests does not matter: texts that agree up to their line ends are accepted. */
  lemma AcceptIff(s: string, t: string)
    ensures Verdict(s, t) == MATCHER_ACCEPT <==> UnixLines(s) == UnixLines(t)
  {
    LinesKeepTheVisible(s);
    LinesKeepTheVisible(t);
  }

  lemma AcceptIsAnEquivalence(s: string, t: string, u: string)
    ensures Verdict(s, s) == MATCHER_ACCEPT
    ensures Verdict(s, t) == Verdict(t, s)
    ensures Verdict(s, t) == MATCHER_ACCEPT ==> Verdict(s, u) == Verdict(t, u)
  {
    AcceptIff(s, t);
  }

  /** Line feeds turned into carriage return and line feed. */
  function DosLines(s: string): string {
    if s == [] then [] else (if s[0] == '\n' then "\r\n" else [s[0]]) + DosLines(s[1..])
  }

  lemma {:induction false} DosLinesAreTheSame(s: string)
    ensures UnixLines(DosLines(s)) == UnixLines(s)
    ensures StartsLineEnd(DosLines(s)) == StartsLineEnd(s)
  {
    if s != [] {
      DosLinesAreTheSame(s[1..]);
      var d := DosLines(s);
      if s[0] == '\n' {
        assert d[0] == '\r' && d[1..][0] == '\n' && d[1..][1..] == DosLines(s[1..]);
      } else {
        assert d[0] == s[0] && d[1..] == DosLines(s[1..]);
      }
    }
  }

  /** An answer written with the line ends of the other system is accepted. */
  lemma LineEndsDoNotMatter(expected: string, actual: string)
    ensures Verdict(expected, DosLines(actual)) == Verdict(expected, actual)
    ensures Verdict(DosLines(expected), actual) == Verdict(expected, actual)
  {
    DosLinesAreTheSame(expected);
    DosLinesAreTheSame(actual);
    LinesKeepTheVisible(expected);
    LinesKeepTheVisible(actual);
    LinesKeepTheVisible(DosLines(expected));
    LinesKeepTheVisible(DosLines(actual));
  }

  // ---------- One character more ----------

  lemma {:induction false} VisibleAppend(x: string, y: string)
    ensures Visible(x + y) == Visible(x) + Visible(y)
  {
    if x == [] {
      assert x + y == y;
    } else {
      assert (x + y)[1..] == x[1..] + y;
      VisibleAppend(x[1..], y);
    }
  }

  function WithoutReturns(s: string): string {
    if s == [] then [] else (if s[0] == '\r' then [] else [s[0]]) + WithoutReturns(s[1..])
  }

  lemma {:induction false} OnlyReturnsGo(s: string)
    ensures WithoutReturns(UnixLines(s)) == WithoutReturns(s)
  {
    if s != [] {
      OnlyReturnsGo(s[1..]);
      if !(s[0] == '\r' && StartsLineEnd(s[1..])) {
        assert UnixLines(s)[1..] == UnixLines(s[1..]);
      }
    }
  }

  lemma {:induction false} OneLonger(x: string, c: char, y: string)
    requires c != '\r'
    ensures |WithoutReturns(x + [c] + y)| == |WithoutReturns(x + y)| + 1
  {
    if x == [] {
      assert x + [c] + y == [c] + y && x + y == y;
    } else {
      assert (x + [c] + y)[1..] == x[1..] + [c] + y && (x + y)[1..] == x[1..] + y;
      OneLonger(x[1..], c, y);
    }
  }

  /** Nothing but carriage returns up to a line feed. */
  ghost predicate BeforeLineFeed(y: string) {
    exists k :: 0 <= k < |y| && y[k] == '\n' && forall j :: 0 <= j < k ==> y[j] == '\r'
  }

  lemma {:induction false} LineEndIff(y: string)
    ensures StartsLineEnd(y) <==> BeforeLineFeed(y)
  {
    if y != [] {
      LineEndIff(y[1..]);
      if y[0] == '\r' && BeforeLineFeed(y[1..]) {
        var k :| 0 <= k < |y[1..]| && y[1..][k] == '\n' && forall j :: 0 <= j < k ==> y[1..][j] == '\r';
        assert forall j :: 1 <= j < k + 1 ==> y[j] == y[1..][j - 1];
        assert y[k + 1] == '\n';
      }
      if y[0] == '\r' && BeforeLineFeed(y) {
        var k :| 0 <= k < |y| && y[k] == '\n' && forall j :: 0 <= j < k ==> y[j] == '\r';
        assert y[1..][k - 1] == '\n';
      }
    }
  }

  /** A carriage return more is dropped or kept as what follows it says, and changes nothing else. */
  lemma {:induction false} OneReturnMore(x: string, y: string)
    ensures StartsLineEnd(x + ['\r'] + y) == StartsLineEnd(x + y)
    ensures if StartsLineEnd(y) then UnixLines(x + ['\r'] + y) == UnixLines(x + y)
            else |UnixLines(x + ['\r'] + y)| == |UnixLines(x + y)| + 1
  {
    if x == [] {
      assert x + ['\r'] + y == ['\r'] + y && x + y == y && (['\r'] + y)[1..] == y;
    } else {
      assert (x + ['\r'] + y)[1..] == x[1..] + ['\r'] + y && (x + y)[1..] == x[1..] + y;
      OneReturnMore(x[1..], y);
    }
  }

  /** What one character more in the answer does to an answer that is right, whatever and wherever it is. */
  lemma OneCharacterMore(x: string, c: char, y: string)
    ensures Verdict(x + y, x + [c] + y)
         == if c !in "\0 \t\r\n" then MATCHER_WRONG_ANSWER
            else if c == '\r' && BeforeLineFeed(y) then MATCHER_ACCEPT
            else MATCHER_PRESENT_ERROR
  {
    VisibleOneMore(x, c, y);
    if c == '\r' {
      OneReturnMore(x, y);
      LineEndIff(y);
    } else {
      OnlyReturnsGo(x + y);
      OnlyReturnsGo(x + [c] + y);
      OneLonger(x, c, y);
    }
  }

  lemma VisibleOneMore(x: string, c: char, y: string)
    ensures Visible(x + y) == Visible(x + [c] + y) <==> c in "\0 \t\r\n"
  {
    VisibleAppend(x, y);
    VisibleAppend(x + [c], y);
    VisibleAppend(x, [c]);
    assert [c][1..] == [];
  }
}
