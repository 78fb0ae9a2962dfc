/** The parser as the code runs it: cursors that advance in loops, and the mutual recursion of
    XMLNode::ParseDeep and XMLElement::ParseDeep.  Each method is proved against its grammar function. */
module XmlReader {
  import opened CStrings
  import opened Wrappers
  import opened XmlTree
  import opened XmlParser
  import opened XmlText
  import opened XmlRoundTrip

  /** XMLUtil::SkipWhiteSpace */
  method SkipWhiteSpace(s: cstring, start: nat) returns (p: nat)
    requires start <= |s|
    ensures p == SkipBlanks(s, start)
  {
    p := start;
    while IsSpace(At(s, p))
      invariant start <= p <= |s| && SkipBlanks(s, start) == SkipBlanks(s, p)
      decreases |s| - p
    {
      p := p + 1;
    }
  }

  /** StrPair::ParseName: None for NULL. */
  method ReadName(s: cstring, start: nat) returns (p: Option<nat>)
    requires start <= |s|
    ensures p == if NameEnd(s, start, start) == start then None else Some(NameEnd(s, start, start))
  {
    var q := start;
    while At(s, q) != NUL
          && (IsWordByte(At(s, q)) || At(s, q) == '_' || At(s, q) == ':'
              || (At(s, q) == '-' && q > start) || (At(s, q) == '.' && q > start))
      invariant start <= q <= |s| && NameEnd(s, start, start) == NameEnd(s, start, q)
      decreases |s| - q
    {
      q := q + 1;
    }
    p := if q > start then Some(q) else None;
  }

  /** StrPair::ParseText */
  method ReadText(s: cstring, start: nat, tag: cchar) returns (p: Option<nat>)
    requires start <= |s| && tag != NUL
    ensures p == TextEnd(s, start, tag)
  {
    var q := start;
    while At(s, q) != NUL
      invariant start <= q <= |s| && TextEnd(s, start, tag) == TextEnd(s, q, tag)
      decreases |s| - q
    {
      if At(s, q) == tag {
        return Some(q);
      }
      q := q + 1;
    }
    p := None;
  }

  lemma AppendCons(done: cstring, c: cchar, rest: Option<cstring>)
    ensures Append(done, Cons(c, rest)) == Append(done + [c], rest)
    ensures Append([], rest) == rest
    ensures Append(done, Some([])) == Some(done)
  {
    assert done + [] == done;
    match rest
    case None =>
    case Some(r) =>
      assert done + ([c] + r) == done + [c] + r;
      assert [] + r == r;
  }

  lemma DecodeStep(s: cstring, p: nat, c: cchar, n: nat)
    requires p < |s| && 0 < n <= |s| - p
    requires Decode(s[p..]) == Cons(c, Decode(s[p..][n..]))
    ensures Decode(s[p..]) == Cons(c, Decode(s[p + n..]))
  {
    assert s[p..][n..] == s[p + n..];
  }

  /** StrPair::GetStr: a read pointer over the raw bytes, a growing result. */
  method GetStr(s: cstring) returns (r: Option<cstring>)
    ensures r == Decode(s)
    ensures SpelledAs(s, r)
  {
    DecodeSpells(s);
    hide SpelledAs;
    var p := 0;
    var q: cstring := [];
    assert s[0..] == s;
    AppendCons([], NUL, Decode(s));
    while p < |s|
      invariant p <= |s|
      invariant Decode(s) == Append(q, Decode(s[p..]))
      decreases |s| - p
    {
      var c, n := s[p], 1;
      assert At(s[p..], 1) == At(s, p + 1) && s[p..][0] == c;
      if c == '\r' {
        n := if At(s, p + 1) == '\n' then 2 else 1;
        c := '\n';
      } else if c == '\n' {
        n := if At(s, p + 1) == '\r' then 2 else 1;
      } else if c == '&' {
        var e := Entity(s[p..]);
        if e == None {
          return None;
        }
        c, n := e.value.0, e.value.1;
      }
      DecodeStep(s, p, c, n);
      AppendCons(q, c, Decode(s[p + n..]));
      q := q + [c];
      p := p + n;
    }
    assert s[p..] == [];
    AppendCons(q, NUL, None);
    r := Some(q);
  }

  /** XMLAttribute::ParseDeep */
  method ReadAttribute(s: cstring, start: nat) returns (r: AttrResult)
    requires start <= |s|
    ensures r == ParseAttr(s, start)
  {
    var e := ReadName(s, start);
    if e == None || At(s, e.value) == NUL {
      return AttrStop(Malformed);
    }
    var p := SkipWhiteSpace(s, e.value);
    if At(s, p) != '=' {
      return AttrStop(Malformed);
    }
    p := p + 1;
    p := SkipWhiteSpace(s, p);
    if At(s, p) != '"' && At(s, p) != '\'' {
      return AttrStop(Malformed);
    }
    var endTag := At(s, p);
    p := p + 1;
    var t := ReadText(s, p, endTag);
    if t == None {
      return AttrStop(Malformed);
    }
    var value := GetStr(s[p..t.value]);
    if value == None {
      return AttrStop(Unmodelled);
    }
    r := OneAttr(Attr(s[start..e.value], value.value), t.value + 1);
  }

  /** XMLElement::Attribute: is there one with this name? */
  method FindAttribute(attrs: seq<Attr>, name: cstring) returns (found: bool)
    ensures found == HasAttr(attrs, name)
  {
    for i := 0 to |attrs|
      invariant forall j :: 0 <= j < i ==> attrs[j].name != name
    {
      if attrs[i].name == name {
        return true;
      }
    }
    found := false;
  }

  /** XMLElement::ParseAttributes */
  method ReadAttributes(s: cstring, start: nat) returns (r: AttrsResult)
    requires start <= |s|
    ensures r == ParseAttrs(s, start, [])
  {
    hide ParseAttr;
    var p, attrs := start, [];
    while true
      invariant start <= p <= |s|
      invariant ParseAttrs(s, start, []) == ParseAttrs(s, p, attrs)
      decreases |s| - p
    {
      var q := SkipWhiteSpace(s, p);
      if At(s, q) == NUL {
        return AttrsStop(Malformed);
      }
      if IsNameStart(At(s, q)) {
        var a := ReadAttribute(s, q);
        if a.AttrStop? {
          return AttrsStop(a.why);
        }
        var found := FindAttribute(attrs, a.attr.name);
        if found {
          return AttrsStop(Malformed);
        }
        attrs := attrs + [a.attr];
        p := a.next;
      } else if At(s, q) == '/' && At(s, q + 1) == '>' {
        return Attrs(attrs, true, q + 2);
      } else if At(s, q) == '>' {
        return Attrs(attrs, false, q + 1);
      } else {
        return AttrsStop(Malformed);
      }
    }
  }

  /** XMLElement::ParseDeep */
  method ReadElement(s: cstring, start: nat) returns (r: ElementResult)
    requires start <= |s|
    ensures r == ParseElement(s, start)
    decreases |s| - start, 0
  {
    var p := SkipWhiteSpace(s, start);
    var closing := false;
    if At(s, p) == '/' {
      closing := true;
      p := p + 1;
    }
    var e := ReadName(s, p);
    if e == None {
      return ElementStop(Malformed);
    }
    var name := s[p..e.value];
    var a := ReadAttributes(s, e.value);
    if a.AttrsStop? {
      return ElementStop(a.why);
    }
    if a.closed {
      return Whole(Element(name, a.attrs, []), a.next);
    }
    if closing {
      return EndTag(name, a.next);
    }
    if At(s, a.next) == NUL {
      return ElementStop(Malformed);
    }
    var inner := ReadNodes(s, a.next);
    match inner
    case NodesStop(why) => r := ElementStop(why);
    case AtEnd(_) => r := ElementStop(Malformed);
    case Closed(nodes, end, after) =>
      r := if end == name then Whole(Element(name, a.attrs, nodes), after) else ElementStop(Malformed);
  }

  /** XMLNode::ParseDeep, with XMLDocument::Identify and XMLText::ParseDeep in its loop. */
  method ReadNodes(s: cstring, start: nat) returns (r: NodesResult)
    requires start <= |s|
    ensures r == ParseNodes(s, start, [])
    decreases |s| - start, 1
  {
    hide ParseElement, Decode, TextEnd;
    var p, nodes := start, [];
    while At(s, p) != NUL
      invariant start <= p <= |s|
      invariant ParseNodes(s, start, []) == ParseNodes(s, p, nodes)
      decreases |s| - p
    {
      var q := SkipWhiteSpace(s, p);
      if At(s, q) == NUL {
        break;
      }
      if At(s, q) == '<' {
        if At(s, q + 1) == '?' || At(s, q + 1) == '!' {
          return NodesStop(Unmodelled);
        }
        var e := ReadElement(s, q + 1);
        match e
        case ElementStop(why) => return NodesStop(why);
        case EndTag(name, next) => return Closed(nodes, name, next);
        case Whole(node, next) =>
          nodes := nodes + [node];
          p := next;
      } else {
        var t := ReadText(s, p, '<');
        if t == None || At(s, t.value + 1) == NUL {
          return NodesStop(Malformed);
        }
        var text := GetStr(s[p..t.value]);
        if text == None {
          return NodesStop(Unmodelled);
        }
        NonBlankText(s, p, t.value);
        nodes := nodes + [Text(text.value)];
        p := t.value;
      }
    }
    r := AtEnd(nodes);
  }

  lemma NonBlankText(s: cstring, p: nat, t: nat)
    requires p <= t < |s| && s[t] == '<' && At(s, SkipBlanks(s, p)) != '<'
    ensures p < t
  {
  }

  /** XMLDocument::Parse */
  method ReadDocument(s: cstring) returns (d: Document)
    ensures d == Parse(s)
  {
    hide ParseNodes;
    if At(s, 0) == NUL {
      return EmptyDocument;
    }
    var p := SkipWhiteSpace(s, 0);
    if At(s, p) == NUL {
      return EmptyDocument;
    }
    var r := ReadNodes(s, 0);
    match r
    case NodesStop(why) => d := Failed(why);
    case AtEnd(nodes) => d := Parsed(nodes);
    case Closed(nodes, _, _) => d := Parsed(nodes);
  }

  /** Saving a document in compact form and reading it again. */
  method SaveAndLoad(root: Node) returns (d: Document)
    requires root.Element? && ValidNode(root)
    ensures d == Parsed([root])
  {
    hide Parse, Print, ValidNode;
    var printer := new XmlPrinter();
    printer.Accept(root);
    assert printer.buffer == Print(root);
    ParsePrint(root);
    d := ReadDocument(printer.buffer);
  }
}
