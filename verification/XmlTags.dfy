/** What the parser makes of single marks, well formed or not, wherever they stand. */
module XmlTags {
  import opened Text
  import opened XmlTree
  import opened XmlReading
  import opened XmlParser

  /** Text without marks that stands before a tag is skipped, and white space at the ends of the tag is cut. */
  lemma AnyMark(before: string, tag: string, rest: string)
    requires '<' !in before && '>' !in before && '>' !in tag
    ensures Lex(Mark(before, tag, rest)) == Lexed(Tag, Trim(tag), rest)
  {
    MarkFinds(before, tag, rest);
    LexTag(Mark(before, tag, rest), |before|, |before| + 1 + |tag|, tag, rest);
  }

  predicate Name(name: string) {
    name != [] && Trimmed(name) && name[0] != '/' && ' ' !in name && '>' !in name
  }

  /** A tag that ends with a slash is a node without value and children; its name ends at the first space. */
  lemma SlashTag(before: string, name: string, attributes: string, rest: string, parent: string, root: bool)
    requires '<' !in before && '>' !in before && Name(name) && '>' !in attributes
    requires attributes == [] || attributes[0] == ' '
    ensures Parse(Mark(before, name + attributes + "/", rest), parent, root)
         == Prepend([Node(name, "", [])], Parse(rest, parent, root))
  {
    var tag := name + attributes + "/";
    AnyMark(before, tag, rest);
    assert Trimmed(tag) by {
      assert tag[0] == name[0] && tag[|tag| - 1] == '/';
    }
    TrimOfTrimmed(tag);
    SlashName(name, attributes);
  }

  lemma SlashName(name: string, attributes: string)
    requires Name(name) && (attributes == [] || attributes[0] == ' ')
    ensures var tag := name + attributes + "/"; !IsEnd(tag) && IsAttr(tag) && AttrName(tag) == name
  {
    var tag := name + attributes + "/";
    assert tag[0] == name[0] && tag[|tag| - 1] == '/';
    if attributes == [] {
      FindIsFirst(tag, ' ');
      assert forall c :: c in tag ==> c in name || c == '/';
      assert tag[..|tag| - 1] == name;
    } else {
      assert tag == name + [' '] + (attributes[1..] + "/");
      FindBehind(name, ' ', attributes[1..] + "/");
      assert tag[..|name|] == name;
    }
  }

  /** An end tag ends the node around it, successfully if and only if it has its name. */
  lemma EndTagDecides(before: string, name: string, rest: string, parent: string, root: bool)
    requires '<' !in before && '>' !in before && '>' !in name && Trimmed(name)
    ensures Parse(Mark(before, "/" + name, rest), parent, root)
         == Parsed(if name == parent then Success else Failure, rest, [])
  {
    var tag := "/" + name;
    AnyMark(before, tag, rest);
    assert Trimmed(tag) by {
      assert tag[0] == '/' && (name != [] ==> tag[|tag| - 1] == name[|name| - 1]);
    }
    TrimOfTrimmed(tag);
    TrimOfTrimmed(name);
    assert tag[1..] == name;
    assert RTrim(name) == name;
  }

  /** Where no mark begins, a document is at its end, and a node below it is not closed. */
  lemma NoMoreMarks(s: string, parent: string, root: bool)
    requires '<' !in s
    ensures Parse(s, parent, root) == Parsed(if root then Success else Failure, s, [])
  {
    FindIsFirst(s, '<');
  }

  /** A mark that does not end is an error. */
  lemma NoEndOfMark(s: string, parent: string, root: bool)
    requires '<' in s && '>' !in s
    ensures Parse(s, parent, root) == Parsed(Failure, s, [])
  {
    FindIsFirst(s, '<');
    FindIsFirst(s, '>');
  }

  /** An end before the first begin of a mark raises the exception, also after elements that are complete. */
  lemma EndBeforeBegin(before: string, rest: string, parent: string, root: bool)
    requires '<' !in before && '>' !in before && '<' in rest
    ensures Parse(before + ['>'] + rest, parent, root) == Parsed(Thrown, rest, [])
  {
    var s := before + ['>'] + rest;
    FindBehind(before, '>', rest);
    FindIsFirst(s, '<');
    assert '<' in s;
    var begin := Find(s, '<');
    assert forall k :: 0 <= k < |before| ==> s[k] == before[k];
    assert s[|before|] == '>' && begin > |before|;
    assert s[|before| + 1..] == rest;
  }

  /** A tag that nothing follows is a node without value, and an error. */
  lemma NothingAfterTag(before: string, tag: string, rest: string, parent: string, root: bool)
    requires '<' !in before && '>' !in before && '>' !in tag && '<' !in rest
    requires Trimmed(tag) && !IsEnd(tag) && !IsAttr(tag)
    ensures Parse(Mark(before, tag, rest), parent, root) == Parsed(Failure, rest, [Node(tag, "", [])])
  {
    AnyMark(before, tag, rest);
    TrimOfTrimmed(tag);
    FindIsFirst(rest, '<');
  }
}
