/** Reading printed trees back: the marks of a tag are found where they were written, and no two trees are printed
    alike. */
module XmlReading {
  import opened Text
  import opened XmlTree

  /** A tag between its marks. */
  function Mark(before: string, tag: string, rest: string): string {
    before + ['<'] + (tag + ['>'] + rest)
  }

  lemma MarkFinds(before: string, tag: string, rest: string)
    requires '<' !in before && '>' !in tag
    ensures var s := Mark(before, tag, rest);
      && Find(s, '<') == |before| && s[|before| + 1..] == tag + ['>'] + rest
      && ('>' !in before ==> Find(s, '>') == |before| + 1 + |tag|)
      && s[|before| + 1..|before| + 1 + |tag|] == tag
      && s[|before| + |tag| + 2..] == rest
  {
    var s := Mark(before, tag, rest);
    FindBehind(before, '<', tag + ['>'] + rest);
    assert s == (before + ['<'] + tag) + ['>'] + rest;
    if '>' !in before {
      FindBehind(before + ['<'] + tag, '>', rest);
    }
  }

  lemma MarkUnique(a: string, t: string, x: string, b: string, u: string, y: string)
    requires '<' !in a && '>' !in t && '<' !in b && '>' !in u
    requires Mark(a, t, x) == Mark(b, u, y)
    ensures a == b && t == u && x == y
  {
    MarkFinds(a, t, x);
    MarkFinds(b, u, y);
    assert a == Mark(a, t, x)[..|a|] && b == Mark(b, u, y)[..|b|];
    FindBehind(t, '>', x);
    FindBehind(u, '>', y);
    assert t == (t + ['>'] + x)[..|t|] && u == (u + ['>'] + y)[..|u|];
    assert x == (t + ['>'] + x)[|t| + 1..] && y == (u + ['>'] + y)[|u| + 1..];
  }

  // ---------- Printed nodes as marks ----------

  function Body(node: Node, depth: nat): string {
    if node.children == [] then "\t" + node.value + "\t</" + node.tag + ">\n"
    else "\n" + Render(node.children, depth + 1) + LineText(End(node.tag), depth)
  }

  lemma MarkAround(before: string, tabs: string, tag: string, body: string, post: string)
    ensures before + (tabs + (['<'] + tag + ['>'] + body)) + post == Mark(before + tabs, tag, body + post)
  {
    var line, rest := ['<'] + tag + ['>'] + body, tag + ['>'] + (body + post);
    assert line + post == ['<'] + rest;
    assert before + (tabs + line) + post == before + tabs + (line + post);
    assert before + tabs + (['<'] + rest) == before + tabs + ['<'] + rest;
  }

  lemma NodeIsMark(before: string, node: Node, depth: nat, post: string)
    ensures before + RenderNode(node, depth) + post == Mark(before + Tabs(depth), node.tag, Body(node, depth) + post)
  {
    NodeLine(node, depth);
    MarkAround(before, Tabs(depth), node.tag, Body(node, depth), post);
  }

  lemma NodeStarts(node: Node, depth: nat, post: string)
    ensures RenderNode(node, depth) + post == Mark(Tabs(depth), node.tag, Body(node, depth) + post)
  {
    NodeIsMark("", node, depth, post);
    assert "" + RenderNode(node, depth) == RenderNode(node, depth) && "" + Tabs(depth) == Tabs(depth);
  }

  lemma NodeLine(node: Node, depth: nat)
    ensures RenderNode(node, depth) == Tabs(depth) + (['<'] + node.tag + ['>'] + Body(node, depth))
  {
    var t := node.tag;
    if node.children == [] {
      assert "<" + t + ">\t" + node.value + "\t</" + t + ">\n" == ['<'] + t + ['>'] + ("\t" + node.value + "\t</" + t + ">\n");
    } else {
      BeginLine(Tabs(depth), t, Render(node.children, depth + 1), LineText(End(t), depth));
    }
  }

  lemma BeginLine(tabs: string, tag: string, inner: string, end: string)
    ensures tabs + ("<" + tag + ">\n") + inner + end == tabs + (['<'] + tag + ['>'] + ("\n" + inner + end))
  {
    var a := "<" + tag + ">\n";
    assert a == ['<'] + tag + ['>'] + "\n";
    assert a + (inner + end) == ['<'] + tag + ['>'] + ("\n" + (inner + end));
    assert "\n" + (inner + end) == "\n" + inner + end;
    assert tabs + a + inner + end == tabs + (a + (inner + end));
  }

  lemma EndIsMark(before: string, tag: string, depth: nat, post: string)
    ensures before + LineText(End(tag), depth) + post == Mark(before + Tabs(depth), "/" + tag, "\n" + post)
  {
    assert before + LineText(End(tag), depth) + post == before + Tabs(depth) + ['<'] + ("/" + tag + ['>'] + ("\n" + post));
  }

  lemma LeafBodyIsMark(node: Node, depth: nat, post: string)
    requires node.children == []
    ensures Body(node, depth) + post == Mark("\t" + node.value + "\t", "/" + node.tag, "\n" + post)
  {
    assert Body(node, depth) + post
        == "\t" + node.value + "\t" + ['<'] + ("/" + node.tag + ['>'] + ("\n" + post));
  }

  // ---------- The output determines the tree ----------

  /** Tags without angle brackets that do not begin with a slash, and values without "<". */
  predicate Readable(forest: seq<Node>)
    decreases forest
  {
    forest != [] ==> ReadableNode(forest[0]) && Readable(forest[1..])
  }

  predicate ReadableNode(node: Node)
    decreases node
  {
    && '<' !in node.tag && '>' !in node.tag && (node.tag != [] ==> node.tag[0] != '/')
    && (node.children == [] ==> '<' !in node.value)
    && Readable(node.children)
  }

  /** The forest without the values of its interior nodes. */
  function Printed(forest: seq<Node>): (r: seq<Node>)
    ensures |r| == |forest|
    decreases forest
  {
    if forest == [] then [] else [PrintedNode(forest[0])] + Printed(forest[1..])
  }

  function PrintedNode(node: Node): Node
    decreases node
  {
    Node(node.tag, if node.children == [] then node.value else "", Printed(node.children))
  }

  /** What may follow a printed forest: nothing, or the end of the node around it. */
  ghost predicate Tail(x: string) {
    x != [] ==> exists e: nat, u: string, z :: '>' !in u && x == Mark(Tabs(e), "/" + u, z)
  }

  lemma TailIsNoNode(x: string, node: Node, depth: nat, post: string)
    requires Tail(x) && ReadableNode(node)
    ensures x != RenderNode(node, depth) + post
  {
    if x == RenderNode(node, depth) + post {
      NodeStarts(node, depth, post);
      var e: nat, u: string, z :| '>' !in u && x == Mark(Tabs(e), "/" + u, z);
      MarkUnique(Tabs(depth), node.tag, Body(node, depth) + post, Tabs(e), "/" + u, z);
    }
  }

  lemma {:induction false} PrintsAreUnique(f: seq<Node>, g: seq<Node>, depth: nat, x: string, y: string)
    requires Readable(f) && Readable(g) && Tail(x) && Tail(y)
    requires Render(f, depth) + x == Render(g, depth) + y
    ensures Printed(f) == Printed(g) && x == y
    decreases f
  {
    FirstThen(f, depth, x);
    FirstThen(g, depth, y);
    if f == [] && g != [] {
      TailIsNoNode(x, g[0], depth, Render(g[1..], depth) + y);
    } else if g == [] && f != [] {
      TailIsNoNode(y, f[0], depth, Render(f[1..], depth) + x);
    } else if f != [] {
      NodesAreUnique(f[0], g[0], depth, Render(f[1..], depth) + x, Render(g[1..], depth) + y);
      PrintsAreUnique(f[1..], g[1..], depth, x, y);
    }
  }

  lemma FirstThen(f: seq<Node>, depth: nat, x: string)
    ensures Render(f, depth) + x == if f == [] then x else RenderNode(f[0], depth) + (Render(f[1..], depth) + x)
  {
  }

  lemma {:induction false} NodesAreUnique(m: Node, n: Node, depth: nat, x: string, y: string)
    requires ReadableNode(m) && ReadableNode(n)
    requires RenderNode(m, depth) + x == RenderNode(n, depth) + y
    ensures PrintedNode(m) == PrintedNode(n) && x == y
    decreases m
  {
    var p, q := Body(m, depth) + x, Body(n, depth) + y;
    assert p == q && m.tag == n.tag by {
      NodeStarts(m, depth, x);
      NodeStarts(n, depth, y);
      MarkUnique(Tabs(depth), m.tag, p, Tabs(depth), n.tag, q);
    }
    BodyStarts(m, depth, x);
    BodyStarts(n, depth, y);
    if m.children == [] {
      LeavesAreUnique(m, n, depth, x, y);
    } else {
      var endM, endN := LineText(End(m.tag), depth) + x, LineText(End(n.tag), depth) + y;
      Cancel("\n", Render(m.children, depth + 1) + endM, Render(n.children, depth + 1) + endN);
      EndIsTail(m.tag, depth, x);
      EndIsTail(n.tag, depth, y);
      PrintsAreUnique(m.children, n.children, depth + 1, endM, endN);
      Cancel(LineText(End(m.tag), depth), x, y);
    }
  }

  lemma Cancel(a: string, x: string, y: string)
    requires a + x == a + y
    ensures x == y
  {
    assert x == (a + x)[|a|..] && y == (a + y)[|a|..];
  }

  lemma BodyStarts(node: Node, depth: nat, post: string)
    ensures (Body(node, depth) + post)[0] == if node.children == [] then '\t' else '\n'
    ensures node.children != [] ==>
      Body(node, depth) + post == "\n" + (Render(node.children, depth + 1) + (LineText(End(node.tag), depth) + post))
  {
    var inner, end := Render(node.children, depth + 1), LineText(End(node.tag), depth);
    assert "\n" + inner + end + post == "\n" + (inner + (end + post));
  }

  lemma LeavesAreUnique(m: Node, n: Node, depth: nat, x: string, y: string)
    requires ReadableNode(m) && ReadableNode(n) && m.children == [] && n.children == []
    requires Body(m, depth) + x == Body(n, depth) + y
    ensures m.value == n.value && x == y
  {
    LeafBodyIsMark(m, depth, x);
    LeafBodyIsMark(n, depth, y);
    var a, b := "\t" + m.value + "\t", "\t" + n.value + "\t";
    MarkUnique(a, "/" + m.tag, "\n" + x, b, "/" + n.tag, "\n" + y);
    assert m.value == a[1..|a| - 1] && n.value == b[1..|b| - 1];
    assert x == ("\n" + x)[1..] && y == ("\n" + y)[1..];
  }

  lemma EndIsTail(tag: string, depth: nat, post: string)
    requires '>' !in tag
    ensures Tail(LineText(End(tag), depth) + post)
  {
    EndIsMark("", tag, depth, post);
    assert "" + LineText(End(tag), depth) + post == LineText(End(tag), depth) + post && "" + Tabs(depth) == Tabs(depth);
  }

  /** Equal outputs come from forests that are equal but for the values that are not printed. */
  lemma OutputDeterminesForest(f: seq<Node>, g: seq<Node>, depth: nat)
    requires Readable(f) && Readable(g)
    ensures Render(f, depth) == Render(g, depth) <==> Printed(f) == Printed(g)
  {
    if Render(f, depth) == Render(g, depth) {
      assert Render(f, depth) + "" == Render(g, depth) + "";
      PrintsAreUnique(f, g, depth, "", "");
    }
    RenderPrinted(f, depth);
    RenderPrinted(g, depth);
  }

  lemma {:induction false} RenderPrinted(f: seq<Node>, depth: nat)
    ensures Render(Printed(f), depth) == Render(f, depth)
    decreases f
  {
    if f != [] {
      RenderPrinted(f[0].children, depth + 1);
      RenderPrinted(f[1..], depth);
      assert Printed(f)[1..] == Printed(f[1..]);
    }
  }
}
