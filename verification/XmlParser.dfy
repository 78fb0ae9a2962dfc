/** The recursive-descent parser of tinyxml2.cpp:109-151, 493-565, 775-879, 1045-1070, 1344-1433,
    with entities processed and white space preserved. */
module XmlParser {
  import opened CStrings
  import opened Wrappers
  import opened XmlTree

  // ---------- Names and values ----------

  predicate IsNameStart(c: cchar) {
    c as int >= 128 || IsAlpha(c)
  }

  /** XMLUtil::IsAlphaNum */
  predicate IsWordByte(c: cchar) {
    c as int >= 128 || IsAlpha(c) || IsDigit(c)
  }

  predicate IsNameByte(c: cchar, leading: bool) {
    c != NUL && (IsWordByte(c) || c == '_' || c == ':' || (!leading && (c == '-' || c == '.')))
  }

  /** Where the name that starts at `start` ends, looking from `p` on. */
  function NameEnd(s: cstring, start: nat, p: nat): (e: nat)
    requires start <= p <= |s|
    ensures p <= e <= |s|
    decreases |s| - p
  {
    if IsNameByte(At(s, p), p == start) then NameEnd(s, start, p + 1) else p
  }

  /** StrPair::ParseText for a one-byte end tag: its position, unless the text ends first. */
  function TextEnd(s: cstring, p: nat, tag: cchar): (t: Option<nat>)
    requires p <= |s| && tag != NUL
    ensures t.Some? ==> p <= t.value < |s| && s[t.value] == tag
    decreases |s| - p
  {
    if At(s, p) == NUL then None
    else if At(s, p) == tag then Some(p)
    else TextEnd(s, p + 1, tag)
  }

  const QUOT: cstring := "&quot;"
  const AMP: cstring := "&amp;"
  const APOS: cstring := "&apos;"
  const LT: cstring := "&lt;"
  const GT: cstring := "&gt;"

  /** A known entity at the head of `s`: its value and its length. */
  function Entity(s: cstring): (r: Option<(cchar, nat)>)
    ensures r.Some? ==> 0 < r.value.1 <= |s|
  {
    if QUOT <= s then Some(('"', 6))
    else if AMP <= s then Some(('&', 5))
    else if APOS <= s then Some(('\'', 6))
    else if LT <= s then Some(('<', 4))
    else if GT <= s then Some(('>', 4))
    else None
  }

  function Cons(c: cchar, rest: Option<cstring>): Option<cstring> {
    match rest case None => None case Some(r) => Some([c] + r)
  }

  /** StrPair::GetStr.  None for character references and unknown entities, which are not modelled. */
  function Decode(s: cstring): Option<cstring>
    decreases |s|
  {
    if s == [] then Some([])
    else if s[0] == '\r' then Cons('\n', Decode(if At(s, 1) == '\n' then s[2..] else s[1..]))
    else if s[0] == '\n' then Cons('\n', Decode(if At(s, 1) == '\r' then s[2..] else s[1..]))
    else if s[0] == '&' then
      match Entity(s)
      case None => None
      case Some((c, n)) => Cons(c, Decode(s[n..]))
    else Cons(s[0], Decode(s[1..]))
  }

  // ---------- The grammar, as functions ----------

  datatype Reason = Malformed | Unmodelled

  datatype AttrResult = AttrStop(why: Reason) | OneAttr(attr: Attr, next: nat)
  datatype AttrsResult = AttrsStop(why: Reason) | Attrs(attrs: seq<Attr>, closed: bool, next: nat)
  datatype ElementResult =
    | ElementStop(why: Reason)
    | EndTag(name: cstring, next: nat)
    | Whole(node: Node, next: nat)
  datatype NodesResult =
    | NodesStop(why: Reason)
    | AtEnd(nodes: seq<Node>)
    | Closed(nodes: seq<Node>, name: cstring, next: nat)

  /** XMLAttribute::ParseDeep */
  function ParseAttr(s: cstring, p: nat): (r: AttrResult)
    requires p <= |s|
    ensures r.OneAttr? ==> p < r.next <= |s|
  {
    var e := NameEnd(s, p, p);
    if e == p || At(s, e) == NUL then AttrStop(Malformed)
    else
      var q := SkipBlanks(s, e);
      if At(s, q) != '=' then AttrStop(Malformed)
      else
        var v := SkipBlanks(s, q + 1);
        if At(s, v) != '"' && At(s, v) != '\'' then AttrStop(Malformed)
        else
          match TextEnd(s, v + 1, At(s, v))
          case None => AttrStop(Malformed)
          case Some(t) =>
            match Decode(s[v + 1..t])
            case None => AttrStop(Unmodelled)
            case Some(value) => OneAttr(Attr(s[p..e], value), t + 1)
  }

  predicate HasAttr(attrs: seq<Attr>, name: cstring) {
    exists i :: 0 <= i < |attrs| && attrs[i].name == name
  }

  /** XMLElement::ParseAttributes from `p`, with the attributes read so far. */
  function ParseAttrs(s: cstring, p: nat, attrs: seq<Attr>): (r: AttrsResult)
    requires p <= |s|
    ensures r.Attrs? ==> p < r.next <= |s|
    decreases |s| - p
  {
    var q := SkipBlanks(s, p);
    var c := At(s, q);
    if c == NUL then AttrsStop(Malformed)
    else if IsNameStart(c) then
      match ParseAttr(s, q)
      case AttrStop(why) => AttrsStop(why)
      case OneAttr(a, next) =>
        if HasAttr(attrs, a.name) then AttrsStop(Malformed) else ParseAttrs(s, next, attrs + [a])
    else if c == '/' && At(s, q + 1) == '>' then Attrs(attrs, true, q + 2)
    else if c == '>' then Attrs(attrs, false, q + 1)
    else AttrsStop(Malformed)
  }

  /** XMLElement::ParseDeep, from behind the `<`. */
  function ParseElement(s: cstring, start: nat): (r: ElementResult)
    requires start <= |s|
    ensures r.EndTag? ==> start < r.next <= |s|
    ensures r.Whole? ==> start < r.next <= |s|
    decreases |s| - start, 0
  {
    var p := SkipBlanks(s, start);
    var closing := At(s, p) == '/';
    var n := if closing then p + 1 else p;
    var e := NameEnd(s, n, n);
    if e == n then ElementStop(Malformed)
    else
      var name := s[n..e];
      match ParseAttrs(s, e, [])
      case AttrsStop(why) => ElementStop(why)
      case Attrs(attrs, closed, next) =>
        if closed then Whole(Element(name, attrs, []), next)
        else if closing then EndTag(name, next)
        else if At(s, next) == NUL then ElementStop(Malformed)
        else
          match ParseNodes(s, next, [])
          case NodesStop(why) => ElementStop(why)
          case AtEnd(_) => ElementStop(Malformed)
          case Closed(nodes, end, after) =>
            if end == name then Whole(Element(name, attrs, nodes), after) else ElementStop(Malformed)
  }

  /** XMLNode::ParseDeep from `p`, with the children read so far. */
  function ParseNodes(s: cstring, p: nat, nodes: seq<Node>): (r: NodesResult)
    requires p <= |s|
    ensures r.Closed? ==> p < r.next <= |s|
    decreases |s| - p, 1
  {
    var q := SkipBlanks(s, p);
    if At(s, p) == NUL || At(s, q) == NUL then AtEnd(nodes)
    else if At(s, q) == '<' && (At(s, q + 1) == '?' || At(s, q + 1) == '!') then NodesStop(Unmodelled)
    else if At(s, q) == '<' then
      match ParseElement(s, q + 1)
      case ElementStop(why) => NodesStop(why)
      case EndTag(name, next) => Closed(nodes, name, next)
      case Whole(node, next) => ParseNodes(s, next, nodes + [node])
    else
      match TextEnd(s, p, '<')
      case None => NodesStop(Malformed)
      case Some(t) =>
        if At(s, t + 1) == NUL then NodesStop(Malformed)
        else
          match Decode(s[p..t])
          case None => NodesStop(Unmodelled)
          case Some(text) =>
            assert At(s, p) == '<' ==> q == p;
            assert t > p;
            ParseNodes(s, t, nodes + [Text(text)])
  }

  datatype Document = EmptyDocument | Failed(why: Reason) | Parsed(nodes: seq<Node>)

  /** XMLDocument::Parse.  An end tag at the top level ends the parse without an error. */
  function Parse(s: cstring): Document {
    if At(s, 0) == NUL || At(s, SkipBlanks(s, 0)) == NUL then EmptyDocument
    else
      match ParseNodes(s, 0, [])
      case NodesStop(why) => Failed(why)
      case AtEnd(nodes) => Parsed(nodes)
      case Closed(nodes, _, _) => Parsed(nodes)
  }
}
