/** Reading and writing a tree by paths "a/b/c" (LZData/LZData.cpp). */
module LzData {
  import opened Wrappers
  import opened Text
  import opened XmlTree

  /** The first child called `tag` from `from` on, or -1. */
  function FirstCalled(children: seq<Node>, from: nat, tag: string): (r: int)
    ensures r == -1 || from <= r < |children|
    ensures r >= 0 ==> children[r].tag == tag
    ensures forall i :: from <= i < (if r < 0 then |children| else r) ==> children[i].tag != tag
    decreases |children| - from
  {
    if from >= |children| then -1
    else if children[from].tag == tag then from
    else FirstCalled(children, from + 1, tag)
  }

  method FindNextChild(children: seq<Node>, index: int, tag: string) returns (r: int)
    ensures r == if index < -1 then -1 else FirstCalled(children, index + 1, tag)
  {
    var first := index + 1;
    if first < 0 || first >= |children| {
      return -1;
    }
    for i := first to |children|
      invariant FirstCalled(children, first, tag) == FirstCalled(children, i, tag)
    {
      if children[i].tag == tag {
        return i;
      }
    }
    r := -1;
  }

  function FindChild(node: Node, tag: string): int {
    FirstCalled(node.children, 0, tag)
  }

  /** The part of a path before its first "/", and the part behind it, if there is one. */
  function Head(path: string): string {
    if Find(path, '/') < 0 then path else path[..Find(path, '/')]
  }

  predicate IsName(path: string) {
    Find(path, '/') < 0
  }

  function Rest(path: string): (r: string)
    requires !IsName(path)
    ensures |r| < |path|
  {
    path[Find(path, '/') + 1..]
  }

  function Read(node: Node, path: string): Option<Node>
    decreases |path|
  {
    var i := FindChild(node, Head(path));
    if i < 0 then None
    else if IsName(path) then Some(node.children[i])
    else Read(node.children[i], Rest(path))
  }

  /** The tree after write().  A child found at place 0 by the last name is not taken to have been found. */
  function Write(node: Node, path: string, value: string): (r: Node)
    ensures r.tag == node.tag
    decreases |path|
  {
    var i := FindChild(node, Head(path));
    if IsName(path) then
      if i > 0 then node.(children := node.children[i := node.children[i].(value := value)])
      else node.(children := node.children + [Node(path, value, [])])
    else if i < 0 then
      node.(children := node.children + [Write(Node(Head(path), "", []), Rest(path), value)])
    else
      node.(children := node.children[i := Write(node.children[i], Rest(path), value)])
  }

  /** The node that the path leads to is the first child of its parent. */
  predicate IsFirstChild(node: Node, path: string)
    decreases |path|
  {
    var i := FindChild(node, Head(path));
    if IsName(path) then i == 0 else i >= 0 && IsFirstChild(node.children[i], Rest(path))
  }

  // ---------- Reading after writing ----------

  lemma {:induction false} FirstCalledIs(children: seq<Node>, from: nat, tag: string, r: nat)
    requires from <= r < |children| && children[r].tag == tag && forall i :: from <= i < r ==> children[i].tag != tag
    ensures FirstCalled(children, from, tag) == r
    decreases r - from
  {
    if from < r {
      FirstCalledIs(children, from + 1, tag, r);
    }
  }

  /** Replacing a child by one of the same name, or adding one at the end, moves no other child. */
  lemma FindAfterChange(a: seq<Node>, b: seq<Node>, tag: string)
    requires |a| <= |b| && forall i :: 0 <= i < |a| ==> a[i].tag == b[i].tag
    ensures FirstCalled(a, 0, tag) >= 0 ==> FirstCalled(b, 0, tag) == FirstCalled(a, 0, tag)
    ensures FirstCalled(a, 0, tag) < 0 && |b| == |a| + 1 && b[|a|].tag == tag ==> FirstCalled(b, 0, tag) == |a|
    ensures FirstCalled(a, 0, tag) < 0 && (|b| == |a| || (|b| == |a| + 1 && b[|a|].tag != tag)) ==> FirstCalled(b, 0, tag) < 0
  {
    var i := FirstCalled(a, 0, tag);
    if i >= 0 {
      FirstCalledIs(b, 0, tag, i);
    } else if |b| == |a| + 1 && b[|a|].tag == tag {
      FirstCalledIs(b, 0, tag, |a|);
    }
  }

  /** What is read at a path just written to: what was there, if it is the first child of its parent; otherwise a
      node with the new value. */
  lemma {:induction false} ReadAfterWrite(node: Node, path: string, value: string)
    ensures var before, after := Read(node, path), Read(Write(node, path, value), path);
      if IsFirstChild(node, path) then after == before
      else after == Some(if before.Some? then before.value.(value := value) else Node(LastName(path), value, []))
    decreases |path|
  {
    var i, w := FindChild(node, Head(path)), Write(node, path, value);
    FindAfterChange(node.children, w.children, Head(path));
    if !IsName(path) {
      if i < 0 {
        NothingBelow(Head(path), Rest(path));
      }
      ReadAfterWrite(if i < 0 then Node(Head(path), "", []) else node.children[i], Rest(path), value);
    }
  }

  function LastName(path: string): string
    decreases |path|
  {
    if IsName(path) then path else LastName(Rest(path))
  }

  lemma NothingBelow(tag: string, path: string)
    ensures Read(Node(tag, "", []), path) == None && !IsFirstChild(Node(tag, "", []), path)
  {
  }

  /** The value read is the value written exactly when the path does not lead to the first child of its parent, or
      leads to one with that value already. */
  lemma ValueIsReadBackIff(node: Node, path: string, value: string)
    ensures var before, after := Read(node, path), Read(Write(node, path, value), path);
      && after.Some?
      && (after.value.value == value <==> !IsFirstChild(node, path) || (before.Some? && before.value.value == value))
  {
    ReadAfterWrite(node, path, value);
    FirstChildIsRead(node, path);
  }

  lemma {:induction false} FirstChildIsRead(node: Node, path: string)
    ensures IsFirstChild(node, path) ==> Read(node, path).Some?
    decreases |path|
  {
    if !IsName(path) && FindChild(node, Head(path)) >= 0 {
      FirstChildIsRead(node.children[FindChild(node, Head(path))], Rest(path));
    }
  }

  /** In a node without children the first write to a path stays: a second one to it is not seen. */
  lemma {:induction false} SecondWriteIsNotSeen(tag: string, path: string, v: string, w: string)
    ensures Read(Write(Write(Node(tag, "", []), path, v), path, w), path) == Some(Node(LastName(path), v, []))
  {
    var empty := Node(tag, "", []);
    NothingBelow(tag, path);
    ReadAfterWrite(empty, path, v);
    WrittenIsFirst(tag, path, v);
    ReadAfterWrite(Write(empty, path, v), path, w);
  }

  lemma {:induction false} WrittenIsFirst(tag: string, path: string, v: string)
    ensures IsFirstChild(Write(Node(tag, "", []), path, v), path)
    decreases |path|
  {
    var w := Write(Node(tag, "", []), path, v);
    FirstCalledIs(w.children, 0, Head(path), 0);
    if !IsName(path) {
      WrittenIsFirst(Head(path), Rest(path), v);
    }
  }

  // ---------- Other paths ----------

  /** Two paths part at a name that both have. */
  predicate Part(p: string, q: string)
    decreases |p|
  {
    Head(p) != Head(q) || (!IsName(p) && !IsName(q) && Part(Rest(p), Rest(q)))
  }

  /** A write leaves alone what is read at any path that parts from it. */
  lemma {:induction false} OtherPathsKeep(node: Node, p: string, q: string, value: string)
    requires Part(p, q)
    ensures Read(Write(node, p, value), q) == Read(node, q)
    decreases |p|
  {
    if Head(p) != Head(q) {
      OtherNamesKeep(node, p, q, value);
    } else {
      var i, w := FindChild(node, Head(p)), Write(node, p, value);
      FindAfterChange(node.children, w.children, Head(p));
      OtherPathsKeep(if i < 0 then Node(Head(p), "", []) else node.children[i], Rest(p), Rest(q), value);
      if i < 0 {
        NothingBelow(Head(p), Rest(q));
      }
    }
  }

  lemma OtherNamesKeep(node: Node, p: string, q: string, value: string)
    requires Head(p) != Head(q)
    ensures Read(Write(node, p, value), q) == Read(node, q)
  {
    FindAfterChange(node.children, Write(node, p, value).children, Head(q));
  }

  // ---------- The way to the written path ----------

  /** `q` leads to a node on the way to `p`. */
  predicate OnTheWay(q: string, p: string)
    decreases |q|
  {
    Head(q) == Head(p) && !IsName(p) && (IsName(q) || OnTheWay(Rest(q), Rest(p)))
  }

  /** The node written to keeps its own tag and value, and every child but the one called by the path's first name. */
  lemma WriteKeepsTheRest(node: Node, path: string, value: string)
    ensures var w, i := Write(node, path, value), FindChild(node, Head(path));
      && w.tag == node.tag && w.value == node.value
      && |node.children| <= |w.children| <= |node.children| + 1
      && (forall j :: 0 <= j < |node.children| && j != i ==> w.children[j] == node.children[j])
      && (|w.children| > |node.children| ==> w.children[|node.children|].tag == Head(path))
  {
  }

  /** A node on the way keeps its tag and its value; one that was missing is new, with its name and without a value. */
  lemma {:induction false} TheWayKeeps(node: Node, q: string, p: string, value: string)
    requires OnTheWay(q, p)
    ensures var before, after := Read(node, q), Read(Write(node, p, value), q);
      && after.Some?
      && after.value.tag == (if before.Some? then before.value.tag else LastName(q))
      && after.value.value == (if before.Some? then before.value.value else "")
    decreases |q|
  {
    var i, w := FindChild(node, Head(p)), Write(node, p, value);
    FindAfterChange(node.children, w.children, Head(p));
    var child := if i < 0 then Node(Head(p), "", []) else node.children[i];
    WriteKeepsTheRest(child, Rest(p), value);
    if !IsName(q) {
      TheWayKeeps(child, Rest(q), Rest(p), value);
      NothingBelow(Head(p), Rest(q));
    }
  }

  // ---------- Below the written path ----------

  /** Reading on from the node that a path leads to. */
  lemma {:induction false} ReadOn(node: Node, p: string, x: string)
    ensures Read(node, p + "/" + x) == if Read(node, p).None? then None else Read(Read(node, p).value, x)
    decreases |p|
  {
    JoinedPath(p, x);
    var i := FindChild(node, Head(p));
    if i >= 0 && !IsName(p) {
      ReadOn(node.children[i], Rest(p), x);
    }
  }

  lemma JoinedPath(p: string, x: string)
    ensures var j := p + "/" + x;
      !IsName(j) && Head(j) == Head(p) && Rest(j) == if IsName(p) then x else Rest(p) + "/" + x
  {
    var j, k := p + "/" + x, Find(p, '/');
    FindIsFirst(p, '/');
    if k < 0 {
      assert j == p + ['/'] + x;
      FindBehind(p, '/', x);
      assert j[..|p|] == p && j[|p| + 1..] == x;
    } else {
      var rest := p[k + 1..] + "/" + x;
      assert j == p[..k] + ['/'] + rest;
      FindBehind(p[..k], '/', rest);
      assert j[..k] == p[..k] && j[k + 1..] == rest;
    }
  }

  /** What is below the written path stays. */
  lemma BelowKeeps(node: Node, p: string, x: string, value: string)
    requires Read(node, p).Some?
    ensures Read(Write(node, p, value), p + "/" + x) == Read(node, p + "/" + x)
  {
    ReadOn(node, p, x);
    ReadOn(Write(node, p, value), p, x);
    ReadAfterWrite(node, p, value);
    if !IsFirstChild(node, p) {
      var before := Read(node, p).value;
      SameChildren(before, before.(value := value), x);
    }
  }

  lemma SameChildren(a: Node, b: Node, x: string)
    requires a.children == b.children
    ensures Read(a, x) == Read(b, x)
  {
  }
}
