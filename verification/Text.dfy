/** Searching and trimming strings, as LZData/LZData.cpp and the stream of LZData/xmlParser.h do. */
module Text {

  predicate IsWhiteSpace(c: char) {
    c == ' ' || c == '\t' || c == '\n' || c == '\r'
  }

  ghost predicate AllWhite(s: string) {
    forall c :: c in s ==> c in " \t\n\r"
  }

  /** The first position of `c`, or -1. */
  function Find(s: string, c: char): (r: int)
    ensures -1 <= r < |s| && (r >= 0 ==> s[r] == c)
  {
    if s == [] then -1
    else if s[0] == c then 0
    else
      var k := Find(s[1..], c);
      if k < 0 then -1 else k + 1
  }

  lemma {:induction false} FindIsFirst(s: string, c: char)
    ensures var r := Find(s, c); if r < 0 then c !in s else s[r] == c && c !in s[..r]
  {
    if s != [] && s[0] != c {
      FindIsFirst(s[1..], c);
      var r := Find(s, c);
      if r >= 0 {
        assert s[..r] == [s[0]] + s[1..][..r - 1];
      }
    }
  }

  /** `c` is first met behind `w`. */
  lemma {:induction false} FindBehind(w: string, c: char, s: string)
    requires c !in w
    ensures Find(w + [c] + s, c) == |w|
  {
    if w != [] {
      assert (w + [c] + s)[1..] == w[1..] + [c] + s;
      FindBehind(w[1..], c, s);
    }
  }

  // ---------- Trimming ----------

  function LTrim(s: string): string {
    if s != [] && IsWhiteSpace(s[0]) then LTrim(s[1..]) else s
  }

  function RTrim(s: string): string {
    if s != [] && IsWhiteSpace(s[|s| - 1]) then RTrim(s[..|s| - 1]) else s
  }

  function Trim(s: string): string {
    RTrim(LTrim(s))
  }

  predicate Trimmed(s: string) {
    s != [] ==> s[0] !in " \t\n\r" && s[|s| - 1] !in " \t\n\r"
  }

  lemma {:induction false} LTrimIsSuffix(s: string)
    ensures |LTrim(s)| <= |s| && LTrim(s) == s[|s| - |LTrim(s)|..]
    ensures LTrim(s) != [] ==> !IsWhiteSpace(LTrim(s)[0])
  {
    if s != [] && IsWhiteSpace(s[0]) {
      LTrimIsSuffix(s[1..]);
    }
  }

  lemma {:induction false} LTrimCutsWhite(s: string)
    ensures |LTrim(s)| <= |s| && AllWhite(s[..|s| - |LTrim(s)|])
  {
    if s != [] && IsWhiteSpace(s[0]) {
      LTrimCutsWhite(s[1..]);
      var k := |s| - |LTrim(s)|;
      assert s[..k] == [s[0]] + s[1..][..k - 1];
    }
  }

  lemma {:induction false} RTrimIsPrefix(s: string)
    ensures |RTrim(s)| <= |s| && RTrim(s) == s[..|RTrim(s)|]
    ensures RTrim(s) != [] ==> !IsWhiteSpace(RTrim(s)[|RTrim(s)| - 1])
  {
    if s != [] && IsWhiteSpace(s[|s| - 1]) {
      RTrimIsPrefix(s[..|s| - 1]);
    }
  }

  lemma {:induction false} RTrimCutsWhite(s: string)
    ensures |RTrim(s)| <= |s| && AllWhite(s[|RTrim(s)|..])
  {
    if s != [] && IsWhiteSpace(s[|s| - 1]) {
      RTrimCutsWhite(s[..|s| - 1]);
      var k := |RTrim(s)|;
      assert s[k..] == s[..|s| - 1][k..] + [s[|s| - 1]];
    }
  }

  /** Trimming cuts white space at both ends until there is none, and leaves the rest. */
  lemma TrimCuts(s: string) returns (a: string, b: string)
    ensures Trimmed(Trim(s)) && |Trim(s)| <= |s|
    ensures s == a + Trim(s) + b && AllWhite(a) && AllWhite(b)
  {
    var l := LTrim(s);
    LTrimIsSuffix(s);
    LTrimCutsWhite(s);
    RTrimIsPrefix(l);
    RTrimCutsWhite(l);
    a, b := s[..|s| - |l|], l[|Trim(s)|..];
  }

  lemma TrimOfTrimmed(s: string)
    ensures Trim(s) == s <==> Trimmed(s)
  {
    var a, b := TrimCuts(s);
  }

  /** Trimming is decided by the longest trimmed stretch that has white space on both sides. */
  lemma TrimIs(a: string, s: string, b: string)
    requires AllWhite(a) && AllWhite(b) && Trimmed(s)
    ensures Trim(a + s + b) == s
  {
    LTrimDrops(a, s + b);
    assert a + s + b == a + (s + b);
    if s == [] {
      assert s + b == b + [];
      LTrimDrops(b, []);
    } else {
      assert LTrim(s + b) == s + b;
      RTrimDrops(s, b);
    }
  }

  lemma {:induction false} LTrimDrops(a: string, s: string)
    requires AllWhite(a)
    ensures LTrim(a + s) == LTrim(s)
  {
    if a != [] {
      assert IsWhiteSpace(a[0]) by { assert a[0] in a; }
      assert (a + s)[1..] == a[1..] + s;
      LTrimDrops(a[1..], s);
    } else {
      assert a + s == s;
    }
  }

  lemma {:induction false} RTrimDrops(s: string, b: string)
    requires AllWhite(b)
    ensures RTrim(s + b) == RTrim(s)
  {
    if b != [] {
      assert IsWhiteSpace(b[|b| - 1]) by { assert b[|b| - 1] in b; }
      assert (s + b)[..|s + b| - 1] == s + b[..|b| - 1];
      RTrimDrops(s, b[..|b| - 1]);
    } else {
      assert s + b == s;
    }
  }

  /** White space around makes no difference. */
  lemma TrimAround(a: string, s: string, b: string)
    requires AllWhite(a) && AllWhite(b)
    ensures Trim(a + s + b) == Trim(s)
  {
    var a', b' := TrimCuts(s);
    assert a + s + b == (a + a') + Trim(s) + (b' + b);
    TrimIs(a + a', Trim(s), b' + b);
  }

  method LTrimString(str: string) returns (r: string)
    ensures r == LTrim(str)
  {
    for i := 0 to |str|
      invariant LTrim(str) == LTrim(str[i..])
    {
      if !IsWhiteSpace(str[i]) {
        return str[i..];
      }
      assert str[i..][1..] == str[i + 1..];
    }
    r := "";
  }

  method RTrimString(str: string) returns (r: string)
    ensures r == RTrim(str)
  {
    var end := |str| - 1;
    var i := end;
    assert str[..end + 1] == str;
    while i >= 0
      invariant -1 <= i <= end
      invariant RTrim(str) == RTrim(str[..i + 1])
    {
      if !IsWhiteSpace(str[i]) {
        return if i != end then str[..i + 1] else str;
      }
      assert str[..i + 1][..i] == str[..i];
      i := i - 1;
    }
    r := "";
  }

  method TrimString(str: string) returns (r: string)
    ensures r == Trim(str)
  {
    r := LTrimString(str);
    r := RTrimString(r);
  }
}
