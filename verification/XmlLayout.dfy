/** Which of the many ways to write a tree the compact printer chooses. */
module XmlLayout {
  import opened CStrings
  import opened XmlTree
  import opened XmlText
  import opened XmlRoundTrip
  import opened XmlSource

  /** Entities for markup, and for quotes in attribute values; every other byte as it is. */
  function ChunkOf(c: cchar, inText: bool): Chunk {
    if c == '&' then Named("&amp;")
    else if c == '<' then Named("&lt;")
    else if c == '>' then Named("&gt;")
    else if c == '"' && !inText then Named("&quot;")
    else if c == '\'' && !inText then Named("&apos;")
    else if c == '\n' then LineEnd("\n")
    else Byte(c)
  }

  function Spelled(s: cstring, inText: bool): seq<Chunk> {
    seq(|s|, i requires 0 <= i < |s| => ChunkOf(s[i], inText))
  }

  /** One blank before the name, none around the sign, double quotes. */
  function PlainAttribute(a: Attr): Attribute {
    Attribute([' '], a.name, [], [], '"', Spelled(a.value, false))
  }

  function PlainAttributes(attrs: seq<Attr>): (r: seq<Attribute>)
    ensures |r| == |attrs|
  {
    seq(|attrs|, i requires 0 <= i < |attrs| => PlainAttribute(attrs[i]))
  }

  /** No blanks in or between tags, and an empty tag for an element without children. */
  function Plain(n: Node): Item
    decreases n, 0
  {
    match n
    case Text(s) => Data(Spelled(s, true))
    case Element(name, attrs, children) =>
      Tag(Opening([], [], false, name, PlainAttributes(attrs), []),
          if children == [] then Empty else Inside(PlainAll(children), Opening([], [], true, name, [], [])))
  }

  function PlainAll(nodes: seq<Node>): seq<Item>
    decreases nodes, 1
  {
    if nodes == [] then [] else [Plain(nodes[0])] + PlainAll(nodes[1..])
  }

  lemma ChunkOfText(c: cchar, inText: bool)
    ensures ChunkText(ChunkOf(c, inText)) == EscapeChar(c, inText) && ChunkValue(ChunkOf(c, inText)) == c
  {
  }

  lemma {:induction false} SpelledText(s: cstring, inText: bool)
    ensures ChunksText(Spelled(s, inText)) == Escape(s, inText)
  {
    hide ChunkText, EscapeChar, ChunkOf;
    if s == [] {
      EscapeNil(inText);
    } else {
      assert Spelled(s, inText) == [ChunkOf(s[0], inText)] + Spelled(s[1..], inText);
      ChunkOfText(s[0], inText);
      SpelledText(s[1..], inText);
      EscapeCons(s, inText);
    }
  }

  lemma SpelledValue(s: cstring, inText: bool)
    ensures ChunksValue(Spelled(s, inText)) == s
  {
    hide ChunkOf, ChunkValue;
    forall i | 0 <= i < |s| ensures ChunkValue(ChunkOf(s[i], inText)) == s[i] {
      ChunkOfText(s[i], inText);
    }
  }

  lemma PlainAttributeText(a: Attr)
    ensures AttributeText(PlainAttribute(a)) == PrintAttr(a) && AttributeMeaning(PlainAttribute(a)) == a
  {
    hide Escape, ChunksText, ChunksValue, Spelled;
    SpelledText(a.value, false);
    SpelledValue(a.value, false);
  }

  lemma {:induction false} PlainAttributesText(attrs: seq<Attr>)
    ensures AttributesText(PlainAttributes(attrs)) == PrintAttrs(attrs)
    ensures AttributesMeaning(PlainAttributes(attrs)) == attrs
  {
    hide AttributeText, AttributeMeaning, PlainAttribute, PrintAttr;
    if attrs != [] {
      PlainAttributeText(attrs[0]);
      PlainAttributesText(attrs[1..]);
      assert PlainAttributes(attrs)[1..] == PlainAttributes(attrs[1..]);
      assert attrs == [attrs[0]] + attrs[1..];
      AttributesMeaningCons(PlainAttributes(attrs), []);
      assert [] + AttributesMeaning(PlainAttributes(attrs)) == AttributesMeaning(PlainAttributes(attrs));
    }
  }

  lemma PlainHead(name: cstring, attrs: seq<Attr>, slash: bool)
    ensures var o := Opening([], [], slash, name, PlainAttributes(attrs), []);
            Head(o) == (if slash then ['<', '/'] else ['<']) + name + PrintAttrs(attrs)
  {
    hide AttributesText, PlainAttributes, PrintAttrs;
    PlainAttributesText(attrs);
    var u := PrintAttrs(attrs);
    assert name + (u + []) == name + u;
  }

  /** The printed text of every tree is its plain form, and that form means the tree. */
  lemma {:induction false} PrintIsPlain(n: Node)
    ensures ItemText(Plain(n)) == Print(n) && ItemMeaning(Plain(n)) == n
    decreases n, 0
  {
    hide Head, AttributesText, AttributesMeaning, PlainAttributes, PlainAll, PrintAttrs, PrintAll, Escape, Spelled;
    hide ItemsText, ItemsMeaning, ChunksText, ChunksValue;
    match n
    case Text(s) =>
      SpelledText(s, true);
      SpelledValue(s, true);
    case Element(name, attrs, children) =>
      PlainHead(name, attrs, false);
      PlainAttributesText(attrs);
      if children == [] {
        EmptyPrinted(name, attrs);
      } else {
        PrintAllIsPlain(children);
        PlainEnd(name);
        FullPrinted(name, attrs, children);
      }
  }

  lemma EmptyPrinted(name: cstring, attrs: seq<Attr>)
    ensures [] + ((['<'] + name + PrintAttrs(attrs)) + Closer(true)) == Print(Element(name, attrs, []))
  {
    hide PrintAttrs;
  }

  lemma PlainEnd(name: cstring)
    ensures Head(Opening([], [], true, name, [], [])) == ['<', '/'] + name
  {
    assert PlainAttributes([]) == [];
    PlainHead(name, [], true);
    assert ['<', '/'] + name + PrintAttrs([]) == ['<', '/'] + name;
  }

  lemma FullPrinted(name: cstring, attrs: seq<Attr>, children: seq<Node>)
    requires children != []
    ensures var open := (['<'] + name + PrintAttrs(attrs)) + Closer(false);
            [] + (open + (PrintAll(children) + ([] + ((['<', '/'] + name) + Closer(false)))))
            == Print(Element(name, attrs, children))
  {
    hide PrintAttrs, PrintAll;
    var a, b, c := ['<'] + name + PrintAttrs(attrs), PrintAll(children), ['<', '/'] + name + ['>'];
    assert [] + ((a + ['>']) + (b + ([] + c))) == a + ['>'] + b + c;
    assert Print(Element(name, attrs, children)) == a + (['>'] + b + ['<', '/'] + name + ['>']);
    assert ['>'] + b + ['<', '/'] + name + ['>'] == ['>'] + b + c;
  }

  lemma {:induction false} PrintAllIsPlain(nodes: seq<Node>)
    ensures ItemsText(PlainAll(nodes)) == PrintAll(nodes) && ItemsMeaning(PlainAll(nodes)) == nodes
    ensures nodes != [] ==> PlainAll(nodes) != []
    decreases nodes, 1
  {
    hide Plain, ItemText, ItemMeaning, Print;
    if nodes != [] {
      PrintIsPlain(nodes[0]);
      PrintAllIsPlain(nodes[1..]);
      var items := PlainAll(nodes);
      assert items == [Plain(nodes[0])] + PlainAll(nodes[1..]) && items[1..] == PlainAll(nodes[1..]);
      assert nodes == [nodes[0]] + nodes[1..];
    }
  }
}
