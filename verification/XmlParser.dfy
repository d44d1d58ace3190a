/** The parser of LZData/xmlParser.cpp, and which trees survive being printed and parsed. */
module XmlParser {
  import opened Text
  import opened XmlTree
  import opened XmlReading

  /** `Thrown` is the exception of a tag that ends before it begins. */
  datatype Outcome = Success | Failure | Thrown

  /** The result of a call, what is left of the buffer, and the children that the parent has got. */
  datatype Parsed = Parsed(outcome: Outcome, rest: string, children: seq<Node>)

  function Prepend(nodes: seq<Node>, p: Parsed): Parsed {
    Parsed(p.outcome, p.rest, nodes + p.children)
  }

  predicate IsEnd(tag: string) {
    tag != [] && tag[0] == '/'
  }

  predicate IsAttr(tag: string) {
    |tag| > 1 && tag[|tag| - 1] == '/'
  }

  function AttrName(tag: string): string
    requires IsAttr(tag)
  {
    var pos := Find(tag, ' ');
    if pos < 0 then tag[..|tag| - 1] else tag[..pos]
  }

  /** Why reading the next tag stopped: no "<", no ">", a ">" before the "<", or with a tag. */
  datatype Kind = NoBegin | NoEnd | Crossed | Tag

  /** The next tag and what follows it; both marks are looked for from the same place. */
  datatype Lexed = Lexed(kind: Kind, tag: string, rest: string)

  function Lex(s: string): (l: Lexed)
    ensures |l.rest| <= |s| && (l.kind == Tag ==> |l.rest| < |s|)
  {
    var begin := Find(s, '<');
    if begin < 0 then Lexed(NoBegin, "", s)
    else
      var end := Find(s, '>');
      if end < 0 then Lexed(NoEnd, "", s)
      else if end < begin then Lexed(Crossed, "", s[end + 1..])
      else Lexed(Tag, Trim(s[begin + 1..end]), s[end + 1..])
  }

  function Parse(s: string, parent: string, root: bool): (r: Parsed)
    ensures |r.rest| <= |s|
    decreases |s|, 0
  {
    var l := Lex(s);
    match l.kind
    case NoBegin => Parsed(if root then Success else Failure, l.rest, [])
    case NoEnd => Parsed(Failure, l.rest, [])
    case Crossed => Parsed(Thrown, l.rest, [])
    case Tag => ParseTag(l.tag, l.rest, parent, root)
  }

  function ParseTag(tag: string, rest: string, parent: string, root: bool): (r: Parsed)
    ensures |r.rest| <= |rest|
    decreases |rest|, 2
  {
    if IsEnd(tag) then Parsed(if RTrim(tag[1..]) == parent then Success else Failure, rest, [])
    else if IsAttr(tag) then Prepend([Node(AttrName(tag), "", [])], Parse(rest, parent, root))
    else
      var end := Find(rest, '<');
      if end < 0 then Parsed(Failure, rest, [Node(tag, "", [])])
      else Enter(tag, Trim(rest[..end]), Parse(rest[end..], tag, false), parent, root)
  }

  /** After the children of a node, its siblings, if its own end has been found. */
  function Enter(tag: string, value: string, inner: Parsed, parent: string, root: bool): (r: Parsed)
    ensures |r.rest| <= |inner.rest|
    decreases |inner.rest|, 1
  {
    var node := Node(tag, value, inner.children);
    if inner.outcome != Success then Parsed(inner.outcome, inner.rest, [node])
    else Prepend([node], Parse(inner.rest, parent, root))
  }

  lemma PrependTwice(before: seq<Node>, node: Node, p: Parsed)
    ensures Prepend(before, Prepend([node], p)) == Prepend(before + [node], p)
  {
    assert before + ([node] + p.children) == before + [node] + p.children;
  }

  lemma Slices(s: string, from: nat, a: nat, b: nat)
    requires from <= a <= b <= |s|
    ensures s[from..][a - from..b - from] == s[a..b]
    ensures s[from..][a - from..] == s[a..]
    ensures s[b..|s|] == s[b..]
  {
  }

  lemma LexTag(s: string, begin: nat, end: nat, tag: string, rest: string)
    requires begin < end < |s| && Find(s, '<') == begin && Find(s, '>') == end
    requires tag == s[begin + 1..end] && rest == s[end + 1..]
    ensures Lex(s) == Lexed(Tag, Trim(tag), rest)
  {
  }

  class Parser {
    const buffer: string
    var index: nat

    ghost predicate Valid()
      reads this
    {
      index <= |buffer|
    }

    ghost function Rest(): string
      reads this
      requires Valid()
    {
      buffer[index..]
    }

    constructor (buffer: string)
      ensures Valid() && this.buffer == buffer && Rest() == buffer
    {
      this.buffer := buffer;
      this.index := 0;
    }

    method FindChar(ch: char) returns (r: int)
      requires Valid()
      ensures var k := Find(Rest(), ch); r == if k < 0 then -1 else index + k
    {
      for i := index to |buffer|
        invariant Find(Rest(), ch) == (var k := Find(buffer[i..], ch); if k < 0 then -1 else i - index + k)
      {
        if buffer[i] == ch {
          return i;
        }
        assert buffer[i..][1..] == buffer[i + 1..];
      }
      r := -1;
    }

    /** parse() without a parent: the children of a new node "root". */
    method ParseAll() returns (outcome: Outcome, children: seq<Node>)
      requires Valid()
      modifies this`index
      ensures Valid() && Parse(old(Rest()), "root", true) == Parsed(outcome, Rest(), children)
    {
      outcome, children := ParseReal("root", true);
    }

    method NextTag() returns (kind: Kind, tag: string)
      requires Valid()
      modifies this`index
      ensures Valid() && Lex(old(Rest())) == Lexed(kind, tag, Rest())
      ensures old(index) <= index && (kind == Tag ==> old(index) < index)
    {
      ghost var s, from := Rest(), index;
      var begin := FindChar('<');
      if begin == -1 {
        return NoBegin, "";
      }
      var end := FindChar('>');
      if end == -1 {
        return NoEnd, "";
      }
      index := end + 1;
      assert Rest() == s[end - from + 1..] by {
        Slices(buffer, from, end + 1, |buffer|);
      }
      if end < begin {
        return Crossed, "";
      }
      tag := TrimString(buffer[begin + 1..end]);
      kind := Tag;
      assert buffer[begin + 1..end] == s[begin - from + 1..end - from] by {
        Slices(buffer, from, begin + 1, end);
      }
      LexTag(s, begin - from, end - from, buffer[begin + 1..end], Rest());
    }

    /** The loop over the tags below `parent`. */
    method ParseReal(parent: string, root: bool) returns (outcome: Outcome, children: seq<Node>)
      requires Valid()
      modifies this`index
      ensures Valid() && old(index) <= index
      ensures Parse(old(Rest()), parent, root) == Parsed(outcome, Rest(), children)
      decreases |buffer| - index, 1
    {
      children := [];
      while index < |buffer|
        invariant Valid() && old(index) <= index
        invariant Parse(old(Rest()), parent, root) == Prepend(children, Parse(Rest(), parent, root))
        decreases |buffer| - index
      {
        var kind, tag := NextTag();
        if kind == NoBegin {
          break;
        } else if kind == NoEnd {
          return Failure, children;
        } else if kind == Crossed {
          return Thrown, children;
        }
        if |tag| > 0 && tag[0] == '/' {
          var name := RTrimString(tag[1..]);
          return if name == parent then Success else Failure, children;
        }
        var result, node := ParseElement(tag, parent, root);
        PrependTwice(children, node, Parse(Rest(), parent, root));
        children := children + [node];
        if result != Success {
          return result, children;
        }
      }
      return if root then Success else Failure, children;
    }

    /** The node that an opening tag adds: with a final slash it is complete, else its value and children follow. */
    method ParseElement(tag: string, ghost parent: string, ghost root: bool) returns (outcome: Outcome, node: Node)
      requires Valid() && !IsEnd(tag)
      modifies this`index
      ensures Valid() && old(index) <= index
      ensures ParseTag(tag, old(Rest()), parent, root)
           == if outcome == Success then Prepend([node], Parse(Rest(), parent, root)) else Parsed(outcome, Rest(), [node])
      decreases |buffer| - index, 2
    {
      ghost var rest, from := Rest(), index;
      var lastIndex := |tag| - 1;
      if lastIndex > 0 && tag[lastIndex] == '/' {
        var pos := Find(tag, ' ');
        return Success, Node(if pos < 0 then tag[..lastIndex] else tag[..pos], "", []);
      }
      var begin := index;
      var end := FindChar('<');
      if end == -1 {
        return Failure, Node(tag, "", []);
      }
      index := end;
      Slices(buffer, from, end, |buffer|);
      Slices(buffer, from, from, end);
      var value := TrimString(buffer[begin..end]);
      var inner;
      outcome, inner := ParseReal(tag, false);
      node := Node(tag, value, inner);
    }
  }
}
