/** The mathematics behind the Aho-Corasick matcher of my_trie.h.

    A trie is seen here only as its set of paths: a prefix-closed set of byte strings.  The automaton's
    intended state after a text is the longest suffix of the text that is a path.  */
module SuffixAutomaton {

  import opened Bytes

  ghost predicate IsSuffix(s: seq<Byte>, t: seq<Byte>) {
    |s| <= |t| && t[|t| - |s|..] == s
  }

  function Front(s: seq<Byte>): seq<Byte>
    requires s != []
  {
    s[..|s| - 1]
  }

  /** The shape of every set of trie paths: the root is a path, and so is every prefix of a path. */
  ghost predicate PrefixClosed(paths: set<seq<Byte>>) {
    && [] in paths
    && forall p {:trigger Front(p)} :: p in paths && p != [] ==> Front(p) in paths
  }

  /** The reference definition: try the suffixes of the text, longest first. */
  ghost function Longest(paths: set<seq<Byte>>, text: seq<Byte>): (s: seq<Byte>)
    requires [] in paths
    ensures s in paths && IsSuffix(s, text)
  {
    if text in paths then text else Longest(paths, text[1..])
  }

  lemma {:induction false} LongestIsLongest(paths: set<seq<Byte>>, text: seq<Byte>, s: seq<Byte>)
    requires [] in paths
    requires s in paths && IsSuffix(s, text)
    ensures IsSuffix(s, Longest(paths, text))
  {
    if text !in paths {
      assert text != s;
      assert text[1..][|text[1..]| - |s|..] == s;
      LongestIsLongest(paths, text[1..], s);
    }
  }

  /** The automaton may forget everything but its state: extending the state by a byte and extending
      the whole text by that byte have the same longest path suffix. */
  lemma {:induction false} LongestExtend(paths: set<seq<Byte>>, text: seq<Byte>, c: Byte)
    requires PrefixClosed(paths)
    ensures Longest(paths, text + [c]) == Longest(paths, Longest(paths, text) + [c])
  {
    if text !in paths {
      assert Front(text + [c]) == text;
      assert (text + [c])[1..] == text[1..] + [c];
      LongestExtend(paths, text[1..], c);
    }
  }

  /** Why a failure link may be followed: when `s` cannot be extended by `c`, its longest proper suffix
      that is a path stands for it. */
  lemma FailureStep(paths: set<seq<Byte>>, s: seq<Byte>, c: Byte)
    requires PrefixClosed(paths)
    requires s != [] && s + [c] !in paths
    ensures Longest(paths, s + [c]) == Longest(paths, Longest(paths, s[1..]) + [c])
  {
    assert (s + [c])[1..] == s[1..] + [c];
    LongestExtend(paths, s[1..], c);
  }

  lemma TakeNext(key: seq<Byte>, k: nat)
    requires k < |key|
    ensures key[..k + 1] == key[..k] + [key[k]]
  {
  }

  // ---------- Whole runs ----------

  /** The state reached from `state` by feeding the bytes of `text` one at a time. */
  ghost function Run(paths: set<seq<Byte>>, state: seq<Byte>, text: seq<Byte>): (s: seq<Byte>)
    requires [] in paths
  {
    if text == [] then state
    else Longest(paths, Run(paths, state, text[..|text| - 1]) + [text[|text| - 1]])
  }

  lemma {:induction false} RunFromRoot(paths: set<seq<Byte>>, text: seq<Byte>)
    requires PrefixClosed(paths)
    ensures Run(paths, [], text) == Longest(paths, text)
  {
    if text == [] {
    } else {
      var front, last := text[..|text| - 1], text[|text| - 1];
      assert text == front + [last];
      calc {
        Run(paths, [], text);
        Longest(paths, Run(paths, [], front) + [last]);
        { RunFromRoot(paths, front); }
        Longest(paths, Longest(paths, front) + [last]);
        { LongestExtend(paths, front, last); }
        Longest(paths, front + [last]);
      }
    }
  }

  // ---------- What the matcher reports ----------

  /** A set of keys stored in a trie: every key is a path, and the empty string is not a key. */
  ghost predicate KeysOf(keys: set<seq<Byte>>, paths: set<seq<Byte>>) {
    keys <= paths && [] !in keys
  }

  /** What a node's `leaf` field holds: its depth if the node spells a key, 0 otherwise. */
  ghost function Leaf(keys: set<seq<Byte>>, s: seq<Byte>): (k: nat) {
    if s in keys then |s| else 0
  }

  /** The number `ac_trie_next` is to return after the last byte of `text`. */
  ghost function Report(paths: set<seq<Byte>>, keys: set<seq<Byte>>, text: seq<Byte>): (k: nat)
    requires [] in paths
  {
    Leaf(keys, Longest(paths, text))
  }

  ghost predicate KeyEndsHere(keys: set<seq<Byte>>, text: seq<Byte>) {
    exists k :: k in keys && IsSuffix(k, text)
  }

  /** A non-zero report is sound, and it is the longest key that ends at this position. */
  lemma ReportIsLongestKey(paths: set<seq<Byte>>, keys: set<seq<Byte>>, text: seq<Byte>)
    requires [] in paths && KeysOf(keys, paths)
    requires Report(paths, keys, text) != 0
    ensures var k := Report(paths, keys, text);
            k <= |text| && text[|text| - k..] in keys
            && forall key :: key in keys && IsSuffix(key, text) ==> |key| <= k
  {
    forall key | key in keys && IsSuffix(key, text)
      ensures |key| <= Report(paths, keys, text)
    {
      LongestIsLongest(paths, text, key);
    }
  }

  /** Every path that ends in a key is itself a key: what the key set must satisfy for the matcher,
      which looks at the current node only, to see every occurrence. */
  ghost predicate SuffixComplete(paths: set<seq<Byte>>, keys: set<seq<Byte>>) {
    forall p :: p in paths && KeyEndsHere(keys, p) ==> p in keys
  }

  /** The matcher misses no position where a key ends exactly when the keys are suffix-complete. */
  lemma ReportsEveryOccurrenceIff(paths: set<seq<Byte>>, keys: set<seq<Byte>>)
    requires [] in paths && KeysOf(keys, paths)
    ensures SuffixComplete(paths, keys) <==>
            forall text :: Report(paths, keys, text) != 0 <==> KeyEndsHere(keys, text)
  {
    if SuffixComplete(paths, keys) {
      forall text
        ensures Report(paths, keys, text) != 0 <==> KeyEndsHere(keys, text)
      {
        var s := Longest(paths, text);
        if KeyEndsHere(keys, text) {
          var k :| k in keys && IsSuffix(k, text);
          LongestIsLongest(paths, text, k);
          assert KeyEndsHere(keys, s);
        }
      }
    }
    if forall text :: Report(paths, keys, text) != 0 <==> KeyEndsHere(keys, text) {
      forall p | p in paths && KeyEndsHere(keys, p)
        ensures p in keys
      {
        assert Longest(paths, p) == p;
        assert Report(paths, keys, p) != 0;
      }
    }
  }

  /** In particular no occurrence is missed when no key is a proper suffix of a path. */
  lemma NoInnerKeyIsEnough(paths: set<seq<Byte>>, keys: set<seq<Byte>>)
    requires [] in paths && KeysOf(keys, paths)
    requires forall p, k :: p in paths && k in keys && IsSuffix(k, p) ==> k == p
    ensures forall text :: Report(paths, keys, text) != 0 <==> KeyEndsHere(keys, text)
  {
    ReportsEveryOccurrenceIff(paths, keys);
  }

  /** A missed occurrence: with the keys "abc" and "b", the text "ab" ends in "b" and 0 is reported. */
  lemma MissedOccurrence()
    ensures var keys: set<seq<Byte>> := {[97, 98, 99], [98]};
            var paths: set<seq<Byte>> := {[], [97], [97, 98], [97, 98, 99], [98]};
            var text: seq<Byte> := [97, 98];
            PrefixClosed(paths) && KeysOf(keys, paths)
            && KeyEndsHere(keys, text) && Report(paths, keys, text) == 0
  {
    var keys: set<seq<Byte>> := {[97, 98, 99], [98]};
    var paths: set<seq<Byte>> := {[], [97], [97, 98], [97, 98, 99], [98]};
    var text: seq<Byte> := [97, 98];
    var b: seq<Byte> := [98];
    assert b in keys && IsSuffix(b, text);
    var abc: seq<Byte> := [97, 98, 99];
    assert Front(abc) == text && Front(text) == [97] && Front(b) == [];
    var a: seq<Byte> := [97];
    assert Front(a) == [];
    assert |text| == 2 && |b| == 1 && |abc| == 3;
  }

  /** Looking a word up and running the matcher over it from the root agree. */
  lemma SearchAgreesWithRun(paths: set<seq<Byte>>, keys: set<seq<Byte>>, key: seq<Byte>)
    requires PrefixClosed(paths) && KeysOf(keys, paths) && key != []
    ensures key in keys <==> Leaf(keys, Run(paths, [], key)) == |key|
  {
    RunFromRoot(paths, key);
  }
}
