/** An abstract, already-parsed HTML fragment: the shape the sanitiser in
    notes/templatetags/markdown_extras.py walks. Tag and attribute names are
    taken as the tokeniser produced them. */
module HtmlTree {

  /** A node of the document tree: character data, or an element with its
      attributes (name to value) and its child nodes in document order. */
  datatype Node =
    | Text(text: string)
    | Element(tag: string, attrs: map<string, string>, children: seq<Node>)

  /** One attribute together with the element tag that carries it. */
  datatype TaggedAttr = TaggedAttr(tag: string, name: string, value: string)

  /** The visible text of a fragment: its character data in document order. */
  function TextContent(ns: seq<Node>): string
    decreases ns
  {
    if ns == [] then []
    else
      (match ns[0]
       case Text(s) => s
       case Element(_, _, kids) => TextContent(kids))
      + TextContent(ns[1..])
  }

  /** The tags of all elements of a fragment, in document (pre-)order. */
  function ElementTags(ns: seq<Node>): seq<string>
    decreases ns
  {
    if ns == [] then []
    else
      (match ns[0]
       case Text(_) => []
       case Element(tag, _, kids) => [tag] + ElementTags(kids))
      + ElementTags(ns[1..])
  }

  /** The attributes of one element, each paired with the element's tag. */
  function TaggedAttrs(tag: string, attrs: map<string, string>): set<TaggedAttr> {
    set name | name in attrs :: TaggedAttr(tag, name, attrs[name])
  }

  /** Every attribute of every element of a fragment. */
  function Attributes(ns: seq<Node>): set<TaggedAttr>
    decreases ns
  {
    if ns == [] then {}
    else
      (match ns[0]
       case Text(_) => {}
       case Element(tag, attrs, kids) => TaggedAttrs(tag, attrs) + Attributes(kids))
      + Attributes(ns[1..])
  }

  // ---------------------------------------------------------------------
  // Lemmas: the three views distribute over concatenation of fragments.

  lemma {:induction false} TextContentAppend(a: seq<Node>, b: seq<Node>)
    ensures TextContent(a + b) == TextContent(a) + TextContent(b)
    decreases |a|
  {
    if a == [] {
      assert a + b == b;
    } else {
      assert (a + b)[0] == a[0];
      assert (a + b)[1..] == a[1..] + b;
      TextContentAppend(a[1..], b);
    }
  }

  lemma {:induction false} ElementTagsAppend(a: seq<Node>, b: seq<Node>)
    ensures ElementTags(a + b) == ElementTags(a) + ElementTags(b)
    decreases |a|
  {
    if a == [] {
      assert a + b == b;
    } else {
      assert (a + b)[0] == a[0];
      assert (a + b)[1..] == a[1..] + b;
      ElementTagsAppend(a[1..], b);
    }
  }

  lemma {:induction false} AttributesAppend(a: seq<Node>, b: seq<Node>)
    ensures Attributes(a + b) == Attributes(a) + Attributes(b)
    decreases |a|
  {
    if a == [] {
      assert a + b == b;
    } else {
      assert (a + b)[0] == a[0];
      assert (a + b)[1..] == a[1..] + b;
      AttributesAppend(a[1..], b);
    }
  }
}
