/** The tree printer of LZData/xml.cpp: what it writes is well nested, indented by depth, and determines the tree up to
    the values of its interior nodes, which it does not write. */
module XmlTree {
  import opened Text

  datatype Node = Node(tag: string, value: string, children: seq<Node>)

  class OStream {
    var text: string

    method Put(s: string)
      modifies this
      ensures text == old(text) + s
    {
      text := text + s;
    }
  }

  function Tabs(n: nat): (s: string)
    ensures |s| == n && forall c :: c in s ==> c == '\t'
  {
    if n == 0 then "" else "\t" + Tabs(n - 1)
  }

  method PrintTable(out: OStream, n: nat)
    modifies out
    ensures out.text == old(out.text) + Tabs(n)
  {
    for i := 0 to n
      invariant out.text + Tabs(n - i) == old(out.text) + Tabs(n)
    {
      assert Tabs(n - i) == "\t" + Tabs(n - i - 1);
      out.Put("\t");
    }
  }

  // ---------- What is written, as a list of lines ----------

  datatype Line = Begin(tag: string) | Leaf(tag: string, value: string) | End(tag: string)

  function LineText(line: Line, indent: nat): string {
    Tabs(indent) + match line
      case Begin(tag) => "<" + tag + ">\n"
      case Leaf(tag, value) => "<" + tag + ">\t" + value + "\t</" + tag + ">\n"
      case End(tag) => "</" + tag + ">\n"
  }

  /** Every line is indented by exactly so many tabs before its "<", and ends with a line feed. */
  lemma LineShape(line: Line, indent: nat)
    ensures var s := LineText(line, indent);
      && |s| > indent + 1 && s[indent] == '<' && s[|s| - 1] == '\n'
      && (forall i :: 0 <= i < indent ==> s[i] == '\t')
      && (line.End? ==> s[indent + 1] == '/')
  {
    var s, tabs := LineText(line, indent), Tabs(indent);
    assert forall i :: 0 <= i < indent ==> s[i] == tabs[i] && tabs[i] in tabs;
  }

  datatype Row = Row(indent: nat, line: Line)

  function RowsText(rows: seq<Row>): string {
    if rows == [] then "" else LineText(rows[0].line, rows[0].indent) + RowsText(rows[1..])
  }

  /** Reading rows with a stack of open tags: each one is indented by the number of tags that are open around it, and
      closes the innermost if it closes one.  The result is the stack at the end, if all is well. */
  function Nesting(rows: seq<Row>, open: seq<string>): (r: (bool, seq<string>))
    decreases |rows|
  {
    if rows == [] then (true, open)
    else
      match rows[0].line
      case Begin(tag) => if rows[0].indent == |open| then Nesting(rows[1..], open + [tag]) else (false, open)
      case Leaf(_, _) => if rows[0].indent == |open| then Nesting(rows[1..], open) else (false, open)
      case End(tag) =>
        if open != [] && rows[0].indent == |open| - 1 && tag == open[|open| - 1]
        then Nesting(rows[1..], open[..|open| - 1])
        else (false, open)
  }

  function Rows(forest: seq<Node>, depth: nat): seq<Row>
    decreases forest
  {
    if forest == [] then [] else NodeRows(forest[0], depth) + Rows(forest[1..], depth)
  }

  function NodeRows(node: Node, depth: nat): seq<Row>
    decreases node
  {
    if node.children == [] then [Row(depth, Leaf(node.tag, node.value))]
    else [Row(depth, Begin(node.tag))] + Rows(node.children, depth + 1) + [Row(depth, End(node.tag))]
  }

  function Render(forest: seq<Node>, depth: nat): string
    decreases forest
  {
    if forest == [] then "" else RenderNode(forest[0], depth) + Render(forest[1..], depth)
  }

  function RenderNode(node: Node, depth: nat): string
    decreases node
  {
    if node.children == [] then LineText(Leaf(node.tag, node.value), depth)
    else LineText(Begin(node.tag), depth) + Render(node.children, depth + 1) + LineText(End(node.tag), depth)
  }

  method Print(self: Node, out: OStream, depth: nat)
    modifies out
    ensures out.text == old(out.text) + Render(self.children, depth)
    decreases self, 0
  {
    for it := 0 to |self.children|
      invariant out.text + Render(self.children[it..], depth) == old(out.text) + Render(self.children, depth)
    {
      ghost var written := out.text;
      PrintNode(self.children[it], out, depth);
      RenderFirst(written, self.children[it..], depth);
      assert self.children[it..][1..] == self.children[it + 1..];
    }
  }

  /** The body of the loop. */
  method PrintNode(ptr: Node, out: OStream, depth: nat)
    modifies out
    ensures out.text == old(out.text) + RenderNode(ptr, depth)
    decreases ptr, 1
  {
    if |ptr.children| > 0 {
      WrittenInterior(out.text, ptr, depth);
      PrintTable(out, depth);
      out.Put("<" + ptr.tag + ">\n");
      Print(ptr, out, depth + 1);
      PrintTable(out, depth);
      out.Put("</" + ptr.tag + ">\n");
    } else {
      WrittenLeaf(out.text, ptr, depth);
      PrintTable(out, depth);
      out.Put("<" + ptr.tag + ">\t" + ptr.value);
      out.Put("\t</" + ptr.tag + ">\n");
    }
  }

  lemma WrittenInterior(written: string, node: Node, depth: nat)
    requires node.children != []
    ensures written + Tabs(depth) + ("<" + node.tag + ">\n") + Render(node.children, depth + 1)
            + Tabs(depth) + ("</" + node.tag + ">\n") == written + RenderNode(node, depth)
  {
    var begin, end := "<" + node.tag + ">\n", "</" + node.tag + ">\n";
    JoinLines(written, Tabs(depth), begin, Render(node.children, depth + 1), end);
  }

  lemma JoinLines(written: string, tabs: string, begin: string, inner: string, end: string)
    ensures written + tabs + begin + inner + tabs + end == written + ((tabs + begin) + inner + (tabs + end))
  {
    assert written + tabs + begin == written + (tabs + begin);
    assert written + (tabs + begin) + inner + tabs + end == written + (tabs + begin) + inner + (tabs + end);
    assert written + (tabs + begin) + inner + (tabs + end) == written + ((tabs + begin) + inner + (tabs + end));
  }

  lemma WrittenLeaf(written: string, node: Node, depth: nat)
    requires node.children == []
    ensures written + Tabs(depth) + ("<" + node.tag + ">\t" + node.value) + ("\t</" + node.tag + ">\n")
            == written + RenderNode(node, depth)
  {
    var begin, end := "<" + node.tag + ">\t" + node.value, "\t</" + node.tag + ">\n";
    assert begin + end == "<" + node.tag + ">\t" + node.value + "\t</" + node.tag + ">\n";
    assert written + Tabs(depth) + begin + end == written + (Tabs(depth) + (begin + end));
  }

  lemma RenderFirst(written: string, forest: seq<Node>, depth: nat)
    requires forest != []
    ensures written + Render(forest, depth) == written + RenderNode(forest[0], depth) + Render(forest[1..], depth)
  {
  }

  // ---------- Nesting ----------

  lemma {:induction false} RowsTextAppend(a: seq<Row>, b: seq<Row>)
    ensures RowsText(a + b) == RowsText(a) + RowsText(b)
  {
    if a == [] {
      assert a + b == b;
    } else {
      assert (a + b)[1..] == a[1..] + b;
      RowsTextAppend(a[1..], b);
    }
  }

  /** The text is the rows, one after the other. */
  lemma {:induction false} RenderIsRows(forest: seq<Node>, depth: nat)
    ensures Render(forest, depth) == RowsText(Rows(forest, depth))
    decreases forest
  {
    if forest != [] {
      var node := forest[0];
      RenderIsRows(forest[1..], depth);
      RowsTextAppend(NodeRows(node, depth), Rows(forest[1..], depth));
      if node.children == [] {
        OneRow(Row(depth, Leaf(node.tag, node.value)));
      } else {
        var head, inner, end := Row(depth, Begin(node.tag)), Rows(node.children, depth + 1), Row(depth, End(node.tag));
        RenderIsRows(node.children, depth + 1);
        RowsTextAppend([head] + inner, [end]);
        RowsTextAppend([head], inner);
        OneRow(head);
        OneRow(end);
      }
    }
  }

  lemma OneRow(row: Row)
    ensures RowsText([row]) == LineText(row.line, row.indent)
  {
    assert [row][1..] == [];
  }

  lemma {:induction false} NestingAppend(a: seq<Row>, b: seq<Row>, open: seq<string>)
    requires Nesting(a, open).0
    ensures Nesting(a + b, open) == Nesting(b, Nesting(a, open).1)
    decreases |a|
  {
    if a == [] {
      assert a + b == b;
    } else {
      assert (a + b)[1..] == a[1..] + b;
      match a[0].line
      case Begin(tag) => NestingAppend(a[1..], b, open + [tag]);
      case Leaf(_, _) => NestingAppend(a[1..], b, open);
      case End(tag) => NestingAppend(a[1..], b, open[..|open| - 1]);
    }
  }

  /** Whatever is open around it, a forest printed at that depth is well nested and leaves open what was. */
  lemma {:induction false} WellNested(forest: seq<Node>, open: seq<string>)
    ensures Nesting(Rows(forest, |open|), open) == (true, open)
    decreases forest
  {
    if forest != [] {
      var node := forest[0];
      NodeNested(node, open);
      NestingAppend(NodeRows(node, |open|), Rows(forest[1..], |open|), open);
      WellNested(forest[1..], open);
    }
  }

  lemma {:induction false} NodeNested(node: Node, open: seq<string>)
    ensures Nesting(NodeRows(node, |open|), open) == (true, open)
    decreases node
  {
    var n := |open|;
    if node.children != [] {
      var inner, end := Rows(node.children, n + 1), [Row(n, End(node.tag))];
      var within := open + [node.tag];
      WellNested(node.children, within);
      NestingAppend(inner, end, within);
      assert within[..|within| - 1] == open && end[1..] == [];
      assert NodeRows(node, n)[1..] == inner + end;
    } else {
      assert NodeRows(node, n)[1..] == [];
    }
  }
}
