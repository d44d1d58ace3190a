/** Which forests come back from being printed and parsed, but for the values of interior nodes, which are not
    printed: exactly those whose tags and values the parser leaves alone. */
module XmlRoundTrip {
  import opened Text
  import opened XmlTree
  import opened XmlReading
  import opened XmlParser
  import opened XmlTags

  /** No ">" inside, no white space at either end, no "/" at the front, and none at the end of a longer tag. */
  predicate GoodTag(tag: string) {
    '>' !in tag && Trimmed(tag) && !IsEnd(tag) && !IsAttr(tag)
  }

  /** No "<" inside and no white space at either end. */
  predicate GoodValue(value: string) {
    '<' !in value && Trimmed(value)
  }

  predicate Good(forest: seq<Node>)
    decreases forest
  {
    forest != [] ==> GoodNode(forest[0]) && Good(forest[1..])
  }

  predicate GoodNode(node: Node)
    decreases node
  {
    GoodTag(node.tag) && (node.children == [] ==> GoodValue(node.value)) && Good(node.children)
  }

  // ---------- Reading one mark ----------

  lemma LexEnd(before: string, tag: string, rest: string, root: bool)
    requires AllWhite(before) && GoodTag(tag)
    ensures Parse(Mark(before, "/" + tag, rest), tag, root) == Parsed(Success, rest, [])
  {
    EndTagDecides(before, tag, rest, tag, root);
  }

  /** White space before a tag is skipped. */
  lemma SkipWhite(before: string, tag: string, rest: string, parent: string, root: bool)
    requires AllWhite(before) && '>' !in tag
    ensures Parse(Mark(before, tag, rest), parent, root) == Parse(Mark("", tag, rest), parent, root)
  {
    AnyMark(before, tag, rest);
    AnyMark("", tag, rest);
  }

  lemma TabsAreWhite(n: nat)
    ensures AllWhite(Tabs(n))
  {
  }

  // ---------- Reading one node ----------

  /** A leaf is read with its end tag. */
  lemma ReadLeaf(node: Node, depth: nat, post: string, parent: string, root: bool)
    requires node.children == [] && GoodTag(node.tag) && '<' !in node.value
    ensures ParseTag(node.tag, Body(node, depth) + post, parent, root)
         == Prepend([Node(node.tag, Trim(node.value), [])], Parse("\n" + post, parent, root))
  {
    var t, v := node.tag, node.value;
    var text := "\t" + v + "\t";
    LeafBodyIsMark(node, depth, post);
    var rest := Mark(text, "/" + t, "\n" + post);
    FindBehind(text, '<', "/" + t + ['>'] + ("\n" + post));
    assert rest[..|text|] == text && rest[|text|..] == Mark("", "/" + t, "\n" + post);
    TrimAround("\t", v, "\t");
    LexEnd("", t, "\n" + post, false);
  }

  /** Up to its first ">" a tag is one that the parser sees; what follows goes to the text behind it. */
  lemma SeenTag(before: string, tag: string, rest: string) returns (seen: string, behind: string)
    ensures '>' !in seen && Mark(before, tag, rest) == Mark(before, seen, behind)
    ensures '>' !in tag ==> seen == tag && behind == rest
  {
    FindIsFirst(tag, '>');
    var k := Find(tag, '>');
    if k < 0 {
      return tag, rest;
    }
    seen, behind := tag[..k], tag[k + 1..] + ['>'] + rest;
    assert tag == seen + ['>'] + tag[k + 1..];
    assert tag + ['>'] + rest == seen + ['>'] + behind;
  }

  /** An interior node has no value, and its children are read from the line below its tag. */
  lemma ReadInterior(node: Node, depth: nat, post: string, parent: string, root: bool)
    requires node.children != [] && !IsEnd(node.tag) && !IsAttr(node.tag)
    ensures ParseTag(node.tag, Body(node, depth) + post, parent, root)
         == Enter(node.tag, "", Parse(Inside(node, depth, post), node.tag, false), parent, root)
  {
    var seen, behind := InsideStarts(node, depth, post);
    TabsAreWhite(depth + 1);
    SkipWhite(Tabs(depth + 1), seen, behind, node.tag, false);
    ReadValue(node.tag, "\n" + Tabs(depth + 1), seen, behind, parent, root);
  }

  lemma InsideStarts(node: Node, depth: nat, post: string) returns (seen: string, behind: string)
    requires node.children != []
    ensures '>' !in seen && Inside(node, depth, post) == Mark(Tabs(depth + 1), seen, behind)
    ensures Body(node, depth) + post == Mark("\n" + Tabs(depth + 1), seen, behind)
  {
    var end := LineText(End(node.tag), depth) + post;
    var first, more := node.children[0], Render(node.children[1..], depth + 1) + end;
    ForestStarts(node.children, depth + 1, end);
    seen, behind := SeenTag(Tabs(depth + 1), first.tag, Body(first, depth + 1) + more);
    BodyStarts(node, depth, post);
    MarkBehind("\n", Tabs(depth + 1), seen, behind);
  }

  lemma MarkBehind(a: string, b: string, tag: string, rest: string)
    ensures a + Mark(b, tag, rest) == Mark(a + b, tag, rest)
  {
    assert a + (b + ['<'] + (tag + ['>'] + rest)) == a + b + ['<'] + (tag + ['>'] + rest);
  }

  /** What follows the line of an opening tag. */
  function Inside(node: Node, depth: nat, post: string): string {
    Render(node.children, depth + 1) + (LineText(End(node.tag), depth) + post)
  }

  /** White space before the next mark is an empty value. */
  lemma ReadValue(tag: string, white: string, next: string, behind: string, parent: string, root: bool)
    requires !IsEnd(tag) && !IsAttr(tag) && AllWhite(white)
    ensures ParseTag(tag, Mark(white, next, behind), parent, root)
         == Enter(tag, "", Parse(Mark("", next, behind), tag, false), parent, root)
  {
    var rest := Mark(white, next, behind);
    FindBehind(white, '<', next + ['>'] + behind);
    assert rest[..|white|] == white && rest[|white|..] == Mark("", next, behind);
    TrimIs(white, "", "");
    assert white + "" + "" == white;
  }

  // ---------- Good forests come back ----------

  lemma {:induction false} GoodForestsAreRead(forest: seq<Node>, depth: nat, post: string, parent: string, root: bool)
    requires forest != [] && Good(forest)
    ensures Parse(Render(forest, depth) + post, parent, root) == Prepend(Printed(forest), Parse("\n" + post, parent, root))
    decreases forest, 1
  {
    FirstNodeIsRead(forest, depth, post, parent, root);
    MoreIsRead(forest[1..], depth, post, parent, root);
    PrependTwice(PrintedNode(forest[0]), Printed(forest[1..]), Parse("\n" + post, parent, root));
  }

  lemma {:induction false} FirstNodeIsRead(forest: seq<Node>, depth: nat, post: string, parent: string, root: bool)
    requires forest != [] && GoodNode(forest[0])
    ensures Parse(Render(forest, depth) + post, parent, root)
         == Prepend([PrintedNode(forest[0])], Parse("\n" + (Render(forest[1..], depth) + post), parent, root))
    decreases forest, 0
  {
    FirstTagIsRead(forest, depth, post, parent, root);
    GoodNodeIsRead(forest[0], depth, Render(forest[1..], depth) + post, parent, root);
  }

  lemma {:induction false} MoreIsRead(forest: seq<Node>, depth: nat, post: string, parent: string, root: bool)
    requires Good(forest)
    ensures Parse("\n" + (Render(forest, depth) + post), parent, root)
         == Prepend(Printed(forest), Parse("\n" + post, parent, root))
    decreases forest, 2
  {
    if forest == [] {
      assert Render(forest, depth) + post == post;
      PrependNothing(Parse("\n" + post, parent, root));
    } else {
      SkipNewline(forest, depth, post, parent, root);
      GoodForestsAreRead(forest, depth, post, parent, root);
    }
  }

  lemma PrependNothing(p: Parsed)
    ensures Prepend([], p) == p
  {
  }

  lemma PrependTwice(node: Node, more: seq<Node>, p: Parsed)
    ensures Prepend([node], Prepend(more, p)) == Prepend([node] + more, p)
  {
    assert [node] + (more + p.children) == [node] + more + p.children;
  }

  lemma ForestStarts(forest: seq<Node>, depth: nat, post: string)
    requires forest != []
    ensures Render(forest, depth) + post
         == Mark(Tabs(depth), forest[0].tag, Body(forest[0], depth) + (Render(forest[1..], depth) + post))
  {
    FirstThen(forest, depth, post);
    NodeStarts(forest[0], depth, Render(forest[1..], depth) + post);
  }

  lemma FirstTagIsRead(forest: seq<Node>, depth: nat, post: string, parent: string, root: bool)
    requires forest != [] && GoodTag(forest[0].tag)
    ensures Parse(Render(forest, depth) + post, parent, root)
         == ParseTag(forest[0].tag, Body(forest[0], depth) + (Render(forest[1..], depth) + post), parent, root)
  {
    var node, more := forest[0], Render(forest[1..], depth) + post;
    ForestStarts(forest, depth, post);
    TabsAreWhite(depth);
    AnyMark(Tabs(depth), node.tag, Body(node, depth) + more);
    TrimOfTrimmed(node.tag);
  }

  lemma SkipNewline(forest: seq<Node>, depth: nat, post: string, parent: string, root: bool)
    requires forest != []
    ensures Parse("\n" + (Render(forest, depth) + post), parent, root) == Parse(Render(forest, depth) + post, parent, root)
  {
    ForestStarts(forest, depth, post);
    var seen, behind := SeenTag(Tabs(depth), forest[0].tag, Body(forest[0], depth) + (Render(forest[1..], depth) + post));
    MarkBehind("\n", Tabs(depth), seen, behind);
    TabsAreWhite(depth);
    SkipWhite("\n" + Tabs(depth), seen, behind, parent, root);
    SkipWhite(Tabs(depth), seen, behind, parent, root);
  }

  lemma {:induction false} GoodNodeIsRead(node: Node, depth: nat, post: string, parent: string, root: bool)
    requires GoodNode(node)
    ensures ParseTag(node.tag, Body(node, depth) + post, parent, root)
         == Prepend([PrintedNode(node)], Parse("\n" + post, parent, root))
    decreases node, 2
  {
    if node.children == [] {
      ReadLeaf(node, depth, post, parent, root);
      TrimOfTrimmed(node.value);
    } else {
      ReadInterior(node, depth, post, parent, root);
      ChildrenAreRead(node, depth, post);
    }
  }

  /** Reading inside a node ends at its own end tag. */
  lemma {:induction false} ChildrenAreRead(node: Node, depth: nat, post: string)
    requires node.children != [] && GoodTag(node.tag) && Good(node.children)
    ensures Parse(Inside(node, depth, post), node.tag, false) == Parsed(Success, "\n" + post, Printed(node.children))
    decreases node, 1
  {
    var end := LineText(End(node.tag), depth) + post;
    GoodForestsAreRead(node.children, depth + 1, end, node.tag, false);
    EndIsRead(node.tag, depth, post);
    PrependEnd(Printed(node.children), "\n" + post);
  }

  lemma PrependEnd(nodes: seq<Node>, rest: string)
    ensures Prepend(nodes, Parsed(Success, rest, [])) == Parsed(Success, rest, nodes)
  {
  }

  lemma EndIsRead(tag: string, depth: nat, post: string)
    requires GoodTag(tag)
    ensures Parse("\n" + (LineText(End(tag), depth) + post), tag, false) == Parsed(Success, "\n" + post, [])
  {
    EndIsMark("\n", tag, depth, post);
    assert "\n" + (LineText(End(tag), depth) + post) == "\n" + LineText(End(tag), depth) + post;
    TabsAreWhite(depth);
    LexEnd("\n" + Tabs(depth), tag, "\n" + post, false);
  }

  /** A forest of good nodes is read back as it was printed, whatever the depth. */
  lemma GoodForestsReturn(forest: seq<Node>, depth: nat)
    requires Good(forest)
    ensures var p := Parse(Render(forest, depth), "root", true); p.outcome == Success && p.children == Printed(forest)
  {
    assert Render(forest, depth) + "" == Render(forest, depth);
    if forest != [] {
      GoodForestsAreRead(forest, depth, "", "root", true);
      assert Printed(forest) + [] == Printed(forest);
    }
  }

  // ---------- Only good forests come back ----------

  /** The first node that a tag gives rise to. */
  lemma FirstNode(tag: string, rest: string, parent: string, root: bool)
    requires ParseTag(tag, rest, parent, root).children != []
    ensures var node := ParseTag(tag, rest, parent, root).children[0];
      && !IsEnd(tag)
      && node.tag == (if IsAttr(tag) then AttrName(tag) else tag)
      && (!IsAttr(tag) && Find(rest, '<') >= 0 ==>
            && node.value == Trim(rest[..Find(rest, '<')])
            && node.children == Parse(rest[Find(rest, '<')..], tag, false).children)
  {
  }

  lemma TagComesBack(before: string, tag: string, rest: string, parent: string, root: bool)
    requires AllWhite(before)
    requires var c := Parse(Mark(before, tag, rest), parent, root).children; c != [] && c[0].tag == tag
    ensures GoodTag(tag)
  {
    var seen, behind := SeenTag(before, tag, rest);
    AnyMark(before, seen, behind);
    var u := Trim(seen);
    FirstNode(u, behind, parent, root);
    var a, b := TrimCuts(seen);
    assert '>' !in u;
    AttrNameIsShorter(u);
    TrimOfTrimmed(tag);
  }

  lemma AttrNameIsShorter(tag: string)
    ensures IsAttr(tag) ==> |AttrName(tag)| < |tag| && forall c :: c in AttrName(tag) ==> c in tag
  {
  }

  lemma ValueComesBack(node: Node, depth: nat, post: string, parent: string, root: bool)
    requires node.children == [] && GoodTag(node.tag)
    requires var c := ParseTag(node.tag, Body(node, depth) + post, parent, root).children; c != [] && c[0].value == node.value
    ensures GoodValue(node.value)
  {
    var rest := Body(node, depth) + post;
    LeafBodyIsMark(node, depth, post);
    assert '<' in rest by {
      var text := "\t" + node.value + "\t";
      assert rest[|text|] == '<';
    }
    FindIsFirst(rest, '<');
    FirstNode(node.tag, rest, parent, root);
    var a, b := TrimCuts(rest[..Find(rest, '<')]);
    assert '<' !in node.value;
    ReadLeaf(node, depth, post, parent, root);
    TrimOfTrimmed(node.value);
  }

  lemma InsideComesBack(node: Node, depth: nat, post: string, parent: string, root: bool)
    requires node.children != [] && GoodTag(node.tag)
    requires var c := ParseTag(node.tag, Body(node, depth) + post, parent, root).children; c != [] && c[0] == PrintedNode(node)
    ensures Parse(Inside(node, depth, post), node.tag, false).children == Printed(node.children)
  {
    ReadInterior(node, depth, post, parent, root);
    EnteredFirst(node.tag, "", Parse(Inside(node, depth, post), node.tag, false), parent, root);
  }

  lemma EnteredFirst(tag: string, value: string, inner: Parsed, parent: string, root: bool)
    ensures var c := Enter(tag, value, inner, parent, root).children; c != [] && c[0] == Node(tag, value, inner.children)
  {
  }

  lemma {:induction false} NodeComesBack(node: Node, depth: nat, post: string, parent: string, root: bool)
    requires GoodTag(node.tag)
    requires var c := ParseTag(node.tag, Body(node, depth) + post, parent, root).children; c != [] && c[0] == PrintedNode(node)
    ensures GoodNode(node)
    decreases node, 1
  {
    if node.children == [] {
      ValueComesBack(node, depth, post, parent, root);
    } else {
      InsideComesBack(node, depth, post, parent, root);
      InsideIsGood(node, depth, post);
    }
  }

  lemma {:induction false} InsideIsGood(node: Node, depth: nat, post: string)
    requires Parse(Inside(node, depth, post), node.tag, false).children == Printed(node.children)
    ensures Good(node.children)
    decreases node, 0
  {
    OnlyGoodForestsReturn(node.children, depth + 1, LineText(End(node.tag), depth) + post, node.tag, false);
  }

  lemma {:induction false} OnlyGoodForestsReturn(forest: seq<Node>, depth: nat, post: string, parent: string, root: bool)
    requires Printed(forest) <= Parse(Render(forest, depth) + post, parent, root).children
    ensures Good(forest)
    decreases forest, 2
  {
    if forest != [] {
      var node, more := forest[0], Render(forest[1..], depth) + post;
      ForestStarts(forest, depth, post);
      TabsAreWhite(depth);
      assert Printed(forest)[0] == PrintedNode(node);
      TagComesBack(Tabs(depth), node.tag, Body(node, depth) + more, parent, root);
      FirstTagIsRead(forest, depth, post, parent, root);
      NodeComesBack(node, depth, more, parent, root);
      FirstNodeIsRead(forest, depth, post, parent, root);
      MoreComesBack(forest, depth, post, parent, root);
    }
  }

  lemma {:induction false} MoreComesBack(forest: seq<Node>, depth: nat, post: string, parent: string, root: bool)
    requires forest != []
    requires Printed(forest) <= [PrintedNode(forest[0])] + Parse("\n" + (Render(forest[1..], depth) + post), parent, root).children
    ensures Good(forest[1..])
    decreases forest, 1
  {
    var more := forest[1..];
    var c := Parse("\n" + (Render(more, depth) + post), parent, root).children;
    assert Printed(forest)[1..] == Printed(more) && ([PrintedNode(forest[0])] + c)[1..] == c;
    if more != [] {
      SkipNewline(more, depth, post, parent, root);
      OnlyGoodForestsReturn(more, depth, post, parent, root);
    }
  }

  /** Parsing what was printed succeeds and gives the forest, without the values that are not printed, exactly when
      its tags and values are good ones. */
  lemma RoundTripIff(forest: seq<Node>, depth: nat)
    ensures var p := Parse(Render(forest, depth), "root", true);
      p.outcome == Success && p.children == Printed(forest) <==> Good(forest)
  {
    if Good(forest) {
      GoodForestsReturn(forest, depth);
    }
    if Parse(Render(forest, depth), "root", true).children == Printed(forest) {
      assert Render(forest, depth) + "" == Render(forest, depth);
      OnlyGoodForestsReturn(forest, depth, "", "root", true);
    }
  }
}
