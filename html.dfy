/** The view of a parsed HTML document that the decoders work on, and the text
    form of an anchor tag that the renderers produce.

    The HTML parser itself is not modelled: a document is given as the sequence
    of its nodes in document order (depth-first, pre-order, as a traversal of
    all descendants yields them), each reduced to what the decoders look at. */
module Html {
  import opened Wrappers
  import opened Seqs

  /** The first child of an element. */
  datatype Child =
    | Text(text: string)               // a text node and its text
    | NonText(textContents: string)    // any other node, with the text of all its descendant text nodes

  /** The text of a child and of all its descendants. */
  function TextContents(c: Child): string
  {
    match c
    case Text(t) => t
    case NonText(t) => t
  }

  /** One node of a document: the local name of the element (None for a node
      that is not an element), its first child, and its attributes by name. */
  datatype Node = Node(localName: Option<string>, firstChild: Option<Child>, attributes: map<string, string>)

  /** An element whose local name is "a". */
  predicate IsAnchor(n: Node)
  {
    n.localName == Some("a")
  }

  /** The anchor elements of a document, in document order. */
  function Anchors(nodes: seq<Node>): (r: seq<Node>)
    ensures |r| <= |nodes|
    ensures forall n | n in r :: IsAnchor(n) && n in nodes
    ensures forall i | 0 <= i < |nodes| && IsAnchor(nodes[i]) :: nodes[i] in r
  {
    Filter(IsAnchor, nodes)
  }

  /** The value of the named attribute, if the node has it. */
  function GetAttribute(n: Node, name: string): Option<string>
  {
    if name in n.attributes then Some(n.attributes[name]) else None
  }

  /** An attribute as written in a start tag: name and value. */
  type Attribute = (string, string)

  /** The attributes of a start tag, each as ` name="value"`; values are not escaped. */
  function AttributesHtml(attrs: seq<Attribute>): string
  {
    if attrs == [] then ""
    else " " + (attrs[0].0 + ("=\"" + (attrs[0].1 + ("\"" + AttributesHtml(attrs[1..])))))
  }

  /** The attributes of a + b are written as those of a followed by those of b. */
  lemma {:induction false} AttributesHtmlAppend(a: seq<Attribute>, b: seq<Attribute>)
    ensures AttributesHtml(a + b) == AttributesHtml(a) + AttributesHtml(b)
  {
    if a == [] {
      assert a + b == b;
    } else {
      assert (a + b)[1..] == a[1..] + b;
      AttributesHtmlAppend(a[1..], b);
    }
  }

  /** One attribute is written as ` name="value"`. */
  lemma AttributesHtmlSingle(attr: Attribute)
    ensures AttributesHtml([attr]) == " " + (attr.0 + ("=\"" + (attr.1 + "\"")))
  {
    assert [attr][1..] == [];
  }

  /** One attribute written out: the name with its leading space and the opening
      quote, then the value and the closing quote. */
  lemma AttributeText(name: string, value: string)
    ensures AttributesHtml([(name, value)]) == (" " + name + "=\"") + (value + "\"")
  {
    AttributesHtmlSingle((name, value));
    AppendAssoc(" ", name, "=\"" + (value + "\""));
    AppendAssoc(" " + name, "=\"", value + "\"");
  }

  /** An anchor element written out with the given attributes, in the given order,
      and the given text; the text is not escaped. */
  function AnchorHtml(attrs: seq<Attribute>, text: string): string
  {
    "<a" + (AttributesHtml(attrs) + (">" + (text + "</a>")))
  }

  /** The attribute map of a start tag: every name written gets the value of its
      first occurrence (HTML parsing drops a repeated attribute). */
  function AttributeMap(attrs: seq<Attribute>): (m: map<string, string>)
    ensures forall k | k in m :: exists i :: 0 <= i < |attrs| && attrs[i].0 == k
    ensures forall i | 0 <= i < |attrs| ::
              attrs[i].0 in m && ((forall j | 0 <= j < i :: attrs[j].0 != attrs[i].0) ==> m[attrs[i].0] == attrs[i].1)
  {
    if attrs == [] then map[]
    else
      var rest := AttributeMap(attrs[1..]);
      assert forall i | 1 <= i < |attrs| :: attrs[i] == attrs[1..][i - 1];
      rest[attrs[0].0 := attrs[0].1]
  }

  /** The node that AnchorHtml(attrs, text) stands for in a parsed document: an
      "a" element with those attributes whose first child is the text, or that has
      no child at all when the text is empty. This is taken to be how an HTML
      parser reads such a tag when the names, values and text are MarkupFree and
      the names are lower-case attribute names; it is an assumption about the
      parser, not something proved here. */
  function AnchorNode(attrs: seq<Attribute>, text: string): (n: Node)
    ensures IsAnchor(n)
    ensures n.firstChild.Some? <==> text != ""
    ensures n.firstChild.Some? ==> n.firstChild.value == Text(text)
    ensures n.attributes == AttributeMap(attrs)
  {
    Node(Some("a"), if text == "" then None else Some(Text(text)), AttributeMap(attrs))
  }

  /** A string that an HTML parser reads back unchanged between tags or quotes:
      free of the markup characters '<', '>', '&' and '"', and of the two
      characters that parsing rewrites, the carriage return (turned into a line
      feed) and NUL (dropped from text). */
  predicate MarkupFree(s: string)
  {
    forall i | 0 <= i < |s| :: s[i] != '<' && s[i] != '>' && s[i] != '&' && s[i] != '"' && s[i] != '\r' && s[i] != '\0'
  }
}
