/** Parsing what the compact printer wrote gives back the tree. */
module XmlRoundTrip {
  import opened CStrings
  import opened Wrappers
  import opened XmlTree
  import opened XmlParser

  // ---------- The trees the promise is for ----------

  ghost predicate ValidName(n: cstring) {
    n != [] && IsNameByte(n[0], true) && forall i :: 1 <= i < |n| ==> IsNameByte(n[i], false)
  }

  ghost predicate ValidText(s: cstring) {
    NoNul(s) && Avoids(s, '\r')
  }

  ghost predicate ValidAttr(a: Attr) {
    ValidName(a.name) && IsNameStart(a.name[0]) && ValidText(a.value)
  }

  ghost predicate DistinctAttrs(attrs: seq<Attr>) {
    forall i, j :: 0 <= i < j < |attrs| ==> attrs[i].name != attrs[j].name
  }

  ghost predicate NotBlank(s: cstring) {
    exists i :: 0 <= i < |s| && !IsSpace(s[i])
  }

  ghost predicate NoAdjacentText(nodes: seq<Node>) {
    forall i :: 0 <= i < |nodes| - 1 ==> !(nodes[i].Text? && nodes[i + 1].Text?)
  }

  ghost predicate ValidNode(n: Node) {
    match n
    case Text(s) => ValidText(s) && NotBlank(s)
    case Element(name, attrs, children) =>
      && ValidName(name)
      && (forall i :: 0 <= i < |attrs| ==> ValidAttr(attrs[i])) && DistinctAttrs(attrs)
      && (forall i :: 0 <= i < |children| ==> ValidNode(children[i])) && NoAdjacentText(children)
  }

  // ---------- Values ----------

  lemma {:induction false} EscapeConcat(a: cstring, b: cstring, restricted: bool)
    ensures Escape(a + b, restricted) == Escape(a, restricted) + Escape(b, restricted)
    decreases |b|
  {
    hide EscapeChar;
    if b == [] {
      assert a + b == a;
    } else {
      var m := |b| - 1;
      EscapeConcat(a, b[..m], restricted);
      assert (a + b)[..|a + b| - 1] == a + b[..m];
    }
  }

  lemma EscapeCons(s: cstring, restricted: bool)
    requires s != []
    ensures Escape(s, restricted) == EscapeChar(s[0], restricted) + Escape(s[1..], restricted)
  {
    hide Escape, EscapeChar;
    assert s == [s[0]] + s[1..];
    EscapeConcat([s[0]], s[1..], restricted);
    EscapeNil(restricted);
    EscapeSnoc([s[0]], 0, restricted);
    assert [s[0]][..0] == [] && [s[0]][..1] == [s[0]];
    assert [] + EscapeChar(s[0], restricted) == EscapeChar(s[0], restricted);
  }

  lemma DecodeChar(c: cchar, rest: cstring, restricted: bool)
    requires c != '\r' && (c == '\n' ==> At(rest, 0) != '\r')
    ensures Decode(EscapeChar(c, restricted) + rest) == Cons(c, Decode(rest))
  {
    var t := EscapeChar(c, restricted);
    var s := t + rest;
    assert s[|t|..] == rest;
    assert s[0] == t[0];
    if |t| > 1 {
      assert s[..|t|] == t;
      assert s[1] == t[1] && s[2] == t[2];
    }
  }

  /** Entities and line endings: what was escaped is read back. */
  lemma {:induction false} DecodeEscape(s: cstring, restricted: bool)
    requires Avoids(s, '\r')
    ensures Decode(Escape(s, restricted)) == Some(s)
    decreases |s|
  {
    hide Decode, EscapeChar;
    if s == [] {
      EscapeNil(restricted);
      DecodeNil();
    } else {
      var rest := Escape(s[1..], restricted);
      EscapeCons(s, restricted);
      EscapeFirst(s[1..], restricted);
      DecodeChar(s[0], rest, restricted);
      DecodeEscape(s[1..], restricted);
      assert [s[0]] + s[1..] == s;
    }
  }

  lemma DecodeNil()
    ensures Decode([]) == Some([])
  {
  }

  /** Escaping never starts with a carriage return, and starts with white space only if the text does. */
  lemma EscapeFirst(s: cstring, restricted: bool)
    requires Avoids(s, '\r')
    ensures At(Escape(s, restricted), 0) != '\r'
  {
    if s == [] {
      EscapeNil(restricted);
    } else {
      EscapeCons(s, restricted);
      var t, u := EscapeChar(s[0], restricted), Escape(s[1..], restricted);
      assert (t + u)[0] == t[0];
    }
  }

  ghost predicate Special(c: cchar, restricted: bool) {
    c == NUL || c == '<' || (!restricted && c == '"')
  }

  /** Escaped text holds neither the tag that ends it nor a terminator. */
  lemma {:induction false} EscapeSafe(s: cstring, restricted: bool)
    requires NoNul(s)
    ensures forall i :: 0 <= i < |Escape(s, restricted)| ==> !Special(Escape(s, restricted)[i], restricted)
  {
    if s != [] {
      var m := |s| - 1;
      EscapeSafe(s[..m], restricted);
      var t := EscapeChar(s[m], restricted);
      assert forall i :: 0 <= i < |t| ==> !Special(t[i], restricted);
    }
  }

  // ---------- Scanning ----------

  lemma {:induction false} TextEndIs(s: cstring, p: nat, u: cstring, tag: cchar)
    requires tag != NUL && Stands(s, p, u) && Avoids(u, tag) && NoNul(u)
    requires At(s, p + |u|) == tag
    ensures TextEnd(s, p, tag) == Some(p + |u|)
    decreases |u|
  {
    if u != [] {
      StandsAt(s, p, u, 0);
      assert u == [u[0]] + u[1..];
      StandsSplit(s, p, [u[0]], u[1..]);
      TextEndIs(s, p + 1, u[1..], tag);
    }
  }

  lemma {:induction false} NameEndIs(s: cstring, start: nat, p: nat, u: cstring)
    requires start <= p && Stands(s, p, u)
    requires forall i :: 0 <= i < |u| ==> IsNameByte(u[i], p + i == start)
    requires !IsNameByte(At(s, p + |u|), p + |u| == start)
    ensures NameEnd(s, start, p) == p + |u|
    decreases |u|
  {
    if u != [] {
      StandsAt(s, p, u, 0);
      assert u == [u[0]] + u[1..];
      StandsSplit(s, p, [u[0]], u[1..]);
      NameEndIs(s, start, p + 1, u[1..]);
    }
  }

  /** A name followed by a byte that cannot continue it. */
  lemma NameRead(s: cstring, p: nat, name: cstring)
    requires ValidName(name) && Stands(s, p, name)
    requires !IsNameByte(At(s, p + |name|), false)
    ensures NameEnd(s, p, p) == p + |name| && s[p..p + |name|] == name && At(s, p) == name[0]
  {
    StandsAt(s, p, name, 0);
    NameEndIs(s, p, p, name);
  }

  lemma NonBlank(s: cstring, p: nat)
    requires p <= |s| && !IsSpace(At(s, p))
    ensures SkipBlanks(s, p) == p
  {
  }

  // ---------- Attributes ----------

  /** Where the parts of a printed attribute are found. */
  lemma AttrScan(s: cstring, p: nat, name: cstring, v: cstring)
    requires ValidName(name) && Stands(s, p, name + (['=', '"'] + (v + ['"'])))
    requires Avoids(v, '"') && NoNul(v)
    ensures var e := p + |name|;
            && e + 3 + |v| <= |s|
            && NameEnd(s, p, p) == e && s[p..e] == name && At(s, p) == name[0]
            && At(s, e) == '=' && SkipBlanks(s, e) == e
            && At(s, e + 1) == '"' && SkipBlanks(s, e + 1) == e + 1
            && TextEnd(s, e + 2, '"') == Some(e + 2 + |v|) && s[e + 2..e + 2 + |v|] == v
  {
    hide TextEnd, NameEnd, SkipBlanks, ValidName, Stands;
    var e := p + |name|;
    AttrParts(s, p, name, v);
    NameRead(s, p, name);
    NonBlank(s, e);
    NonBlank(s, e + 1);
    TextEndIs(s, e + 2, v, '"');
  }

  lemma AttrParts(s: cstring, p: nat, name: cstring, v: cstring)
    requires Stands(s, p, name + (['=', '"'] + (v + ['"'])))
    ensures var e := p + |name|;
            && e + 3 + |v| <= |s|
            && Stands(s, p, name) && Stands(s, e + 2, v) && s[e + 2..e + 2 + |v|] == v
            && At(s, e) == '=' && At(s, e + 1) == '"' && At(s, e + 2 + |v|) == '"'
  {
    var e := p + |name|;
    StandsSplit(s, p, name, ['=', '"'] + (v + ['"']));
    StandsSplit(s, e, ['=', '"'], v + ['"']);
    StandsSplit(s, e + 2, v, ['"']);
    StandsAt(s, e, ['=', '"'], 0);
    StandsAt(s, e, ['=', '"'], 1);
    StandsAt(s, e + 2 + |v|, ['"'], 0);
  }

  lemma AttrRead(s: cstring, p: nat, a: Attr)
    requires ValidAttr(a)
    requires Stands(s, p, a.name + (['=', '"'] + (Escape(a.value, false) + ['"'])))
    ensures ParseAttr(s, p) == OneAttr(a, p + |a.name| + 2 + |Escape(a.value, false)| + 1)
    ensures At(s, p) == a.name[0]
  {
    hide Escape, Decode, TextEnd, NameEnd, SkipBlanks, Stands, At;
    EscapeSafe(a.value, false);
    AttrScan(s, p, a.name, Escape(a.value, false));
    DecodeEscape(a.value, false);
    assert a.name != [];
  }

  lemma AttrsStep(s: cstring, p: nat, a: Attr, acc: seq<Attr>)
    requires ValidAttr(a) && !HasAttr(acc, a.name) && Stands(s, p, PrintAttr(a))
    ensures ParseAttrs(s, p, acc) == ParseAttrs(s, p + |PrintAttr(a)|, acc + [a])
  {
    hide Escape, ParseAttr, HasAttr;
    var u := a.name + (['=', '"'] + (Escape(a.value, false) + ['"']));
    assert PrintAttr(a) == [' '] + u;
    StandsSplit(s, p, [' '], u);
    StandsAt(s, p, [' '], 0);
    AttrRead(s, p + 1, a);
    NonBlank(s, p + 1);
    assert SkipBlanks(s, p) == p + 1;
  }

  lemma {:induction false} AttrsRead(s: cstring, p: nat, attrs: seq<Attr>, acc: seq<Attr>)
    requires (forall i :: 0 <= i < |attrs| ==> ValidAttr(attrs[i])) && DistinctAttrs(acc + attrs)
    requires Stands(s, p, PrintAttrs(attrs))
    ensures ParseAttrs(s, p, acc) == ParseAttrs(s, p + |PrintAttrs(attrs)|, acc + attrs)
    decreases |attrs|
  {
    hide PrintAttr, ParseAttrs, ValidAttr;
    if attrs == [] {
      assert acc + attrs == acc;
    } else {
      var a := attrs[0];
      StandsSplit(s, p, PrintAttr(a), PrintAttrs(attrs[1..]));
      NameUnused(acc, attrs);
      AttrsStep(s, p, a, acc);
      assert acc + [a] + attrs[1..] == acc + attrs;
      AttrsRead(s, p + |PrintAttr(a)|, attrs[1..], acc + [a]);
    }
  }

  lemma NameUnused(acc: seq<Attr>, attrs: seq<Attr>)
    requires attrs != [] && DistinctAttrs(acc + attrs)
    ensures !HasAttr(acc, attrs[0].name)
  {
    var all := acc + attrs;
    forall i | 0 <= i < |acc| ensures acc[i].name != attrs[0].name {
      assert all[i] == acc[i] && all[|acc|] == attrs[0];
    }
  }

  lemma AttrsEnd(s: cstring, p: nat, acc: seq<Attr>)
    requires p <= |s|
    ensures At(s, p) == '>' ==> ParseAttrs(s, p, acc) == Attrs(acc, false, p + 1)
    ensures At(s, p) == '/' && At(s, p + 1) == '>' ==> ParseAttrs(s, p, acc) == Attrs(acc, true, p + 2)
  {
    if At(s, p) == '>' || At(s, p) == '/' {
      NonBlank(s, p);
    }
  }

  // ---------- Elements and their children ----------

  /** `</name>` at `q` ends the list of children. */
  lemma EndTagRead(s: cstring, q: nat, name: cstring, acc: seq<Node>)
    requires ValidName(name) && Stands(s, q, ['<', '/'] + (name + ['>']))
    ensures ParseNodes(s, q, acc) == Closed(acc, name, q + 3 + |name|)
  {
    hide NameEnd, ParseAttrs, Stands, SkipBlanks, ValidName;
    EndTagParts(s, q, name);
    NameNotEmpty(name);
    NameRead(s, q + 2, name);
    NonBlank(s, q);
    NonBlank(s, q + 1);
    AttrsEnd(s, q + 2 + |name|, []);
    assert ParseElement(s, q + 1) == EndTag(name, q + 3 + |name|);
  }

  lemma EndTagParts(s: cstring, q: nat, name: cstring)
    requires Stands(s, q, ['<', '/'] + (name + ['>']))
    ensures q + 3 + |name| <= |s| && Stands(s, q + 2, name)
    ensures At(s, q) == '<' && At(s, q + 1) == '/' && At(s, q + 2 + |name|) == '>'
  {
    StandsSplit(s, q, ['<', '/'], name + ['>']);
    StandsSplit(s, q + 2, name, ['>']);
    StandsAt(s, q, ['<', '/'], 0);
    StandsAt(s, q, ['<', '/'], 1);
    StandsAt(s, q + 2 + |name|, ['>'], 0);
  }

  /** Text up to the next tag. */
  lemma TextRead(s: cstring, p: nat, text: cstring, acc: seq<Node>)
    requires ValidText(text) && NotBlank(text) && Stands(s, p, Escape(text, true))
    requires var q := p + |Escape(text, true)|; q < |s| && s[q] == '<' && At(s, q + 1) != NUL
    ensures ParseNodes(s, p, acc) == ParseNodes(s, p + |Escape(text, true)|, acc + [Text(text)])
  {
    hide Escape, Decode, TextEnd, SkipBlanks, ParseElement;
    var u := Escape(text, true);
    var q := p + |u|;
    EscapeSafe(text, true);
    TextEndIs(s, p, u, '<');
    DecodeEscape(text, true);
    var i := EscapeNotBlank(text);
    BlanksStop(s, p, p + i, u);
    StandsAt(s, p, u, 0);
    StandsAt(s, p, u, SkipBlanks(s, p) - p);
  }

  lemma {:induction false} EscapeNotBlank(s: cstring) returns (i: nat)
    requires NotBlank(s)
    ensures i < |Escape(s, true)| && !IsSpace(Escape(s, true)[i])
  {
    var m := |s| - 1;
    if !IsSpace(s[m]) {
      i := |Escape(s[..m], true)|;
      assert EscapeChar(s[m], true)[0] == Escape(s, true)[i];
    } else {
      var k :| 0 <= k < |s| && !IsSpace(s[k]);
      assert s[..m][k] == s[k];
      i := EscapeNotBlank(s[..m]);
    }
  }

  /** Skipping blanks from `p` stops before `stop` at the latest. */
  lemma {:induction false} BlanksStop(s: cstring, p: nat, stop: nat, u: cstring)
    requires p <= stop < p + |u| && Stands(s, p, u) && !IsSpace(u[stop - p])
    ensures SkipBlanks(s, p) <= stop
    decreases stop - p
  {
    StandsAt(s, p, u, 0);
    StandsAt(s, p, u, stop - p);
    if p < stop && IsSpace(At(s, p)) {
      assert u == [u[0]] + u[1..];
      StandsSplit(s, p, [u[0]], u[1..]);
      BlanksStop(s, p + 1, stop, u[1..]);
    }
  }

  /** The tag that opens an element, up to the end of its attributes. */
  lemma OpenTagRead(s: cstring, p: nat, name: cstring, attrs: seq<Attr>, tail: cstring)
    requires ValidName(name) && (forall i :: 0 <= i < |attrs| ==> ValidAttr(attrs[i])) && DistinctAttrs(attrs)
    requires Stands(s, p, ['<'] + (name + (PrintAttrs(attrs) + tail)))
    requires tail != [] && (tail[0] == '>' || tail[0] == '/')
    ensures At(s, p) == '<' && At(s, p + 1) == name[0] && !IsSpace(name[0]) && name[0] != '/'
    ensures var e := p + 1 + |name|;
            && NameEnd(s, p + 1, p + 1) == e && s[p + 1..e] == name
            && Stands(s, e + |PrintAttrs(attrs)|, tail)
            && ParseAttrs(s, e, []) == ParseAttrs(s, e + |PrintAttrs(attrs)|, attrs)
  {
    hide PrintAttr, PrintAttrs, ParseAttrs, ValidAttr, NameEnd, Stands;
    var t := PrintAttrs(attrs);
    var e := p + 1 + |name|;
    AttrsFirst(attrs);
    OpenTagParts(s, p, name, t, tail);
    NameRead(s, p + 1, name);
    assert [] + attrs == attrs;
    AttrsRead(s, e, attrs, []);
  }

  lemma OpenTagParts(s: cstring, p: nat, name: cstring, t: cstring, tail: cstring)
    requires Stands(s, p, ['<'] + (name + (t + tail))) && tail != []
    ensures var e := p + 1 + |name|;
            && e + |t| < |s|
            && Stands(s, p + 1, name) && Stands(s, e, t) && Stands(s, e + |t|, tail)
            && At(s, p) == '<' && At(s, e) == (t + tail)[0] && s[p + 1..e] == name
  {
    var e := p + 1 + |name|;
    StandsSplit(s, p, ['<'], name + (t + tail));
    StandsSplit(s, p + 1, name, t + tail);
    StandsSplit(s, e, t, tail);
    StandsAt(s, p, ['<'], 0);
    StandsAt(s, e, t + tail, 0);
  }

  lemma AttrsFirst(attrs: seq<Attr>)
    ensures PrintAttrs(attrs) != [] ==> PrintAttrs(attrs)[0] == ' '
  {
  }

  lemma LeafRead(s: cstring, p: nat, name: cstring, attrs: seq<Attr>)
    requires ValidName(name) && (forall i :: 0 <= i < |attrs| ==> ValidAttr(attrs[i])) && DistinctAttrs(attrs)
    requires Stands(s, p, ['<'] + (name + (PrintAttrs(attrs) + ['/', '>'])))
    ensures At(s, p) == '<' && At(s, p + 1) == name[0]
    ensures ParseElement(s, p + 1) == Whole(Element(name, attrs, []), p + 3 + |name| + |PrintAttrs(attrs)|)
  {
    hide PrintAttrs, ParseAttrs, NameEnd, ParseNodes, SkipBlanks, ValidName, ValidAttr;
    var e := p + 1 + |name| + |PrintAttrs(attrs)|;
    var tail: cstring := ['/', '>'];
    assert name != [] by { NameNotEmpty(name); }
    OpenTagRead(s, p, name, attrs, tail);
    StandsAt(s, e, tail, 0);
    StandsAt(s, e, tail, 1);
    AttrsEnd(s, e, attrs);
    NonBlank(s, p + 1);
  }

  lemma NameNotEmpty(name: cstring)
    requires ValidName(name)
    ensures name != []
  {
  }

  /** An element with children: the tag is read, and the children start right behind it. */
  lemma ParentRead(s: cstring, p: nat, name: cstring, attrs: seq<Attr>, inner: cstring)
    requires ValidName(name) && (forall i :: 0 <= i < |attrs| ==> ValidAttr(attrs[i])) && DistinctAttrs(attrs)
    requires Stands(s, p, ['<'] + (name + (PrintAttrs(attrs) + (['>'] + inner))))
    ensures var e := p + 2 + |name| + |PrintAttrs(attrs)|;
            && Stands(s, e, inner)
            && At(s, p) == '<' && At(s, p + 1) == name[0]
            && (At(s, e) != NUL ==>
                  ParseElement(s, p + 1)
                  == match ParseNodes(s, e, [])
                     case NodesStop(why) => ElementStop(why)
                     case AtEnd(_) => ElementStop(Malformed)
                     case Closed(nodes, end, after) =>
                       if end == name then Whole(Element(name, attrs, nodes), after) else ElementStop(Malformed))
  {
    hide PrintAttrs, ParseAttrs, NameEnd, ParseNodes, SkipBlanks, ValidName, ValidAttr;
    var e := p + 1 + |name| + |PrintAttrs(attrs)|;
    var tail := ['>'] + inner;
    assert name != [] by { NameNotEmpty(name); }
    OpenTagRead(s, p, name, attrs, tail);
    StandsAt(s, e, tail, 0);
    StandsSplit(s, e, ['>'], inner);
    AttrsEnd(s, e, attrs);
    NonBlank(s, p + 1);
  }

  /** An element is read back whole. */
  lemma {:induction false} ElementRead(s: cstring, p: nat, n: Node)
    requires n.Element? && ValidNode(n) && Stands(s, p, Print(n))
    ensures At(s, p) == '<' && At(s, p + 1) == n.name[0] && IsNameByte(n.name[0], true)
    ensures ParseElement(s, p + 1) == Whole(n, p + |Print(n)|)
    decreases n, 0
  {
    hide PrintAttrs, PrintAll, ParseElement, ParseNodes, ValidName, ValidAttr, Stands;
    var name, attrs, children := n.name, n.attrs, n.children;
    NameFirst(n);
    if children == [] {
      assert Print(n) == ['<'] + (name + (PrintAttrs(attrs) + ['/', '>']));
      LeafRead(s, p, name, attrs);
    } else {
      var end := ['<', '/'] + (name + ['>']);
      var inner := PrintAll(children) + end;
      assert Print(n) == ['<'] + (name + (PrintAttrs(attrs) + (['>'] + inner)));
      ParentRead(s, p, name, attrs, inner);
      var e := p + 2 + |name| + |PrintAttrs(attrs)|;
      var q := e + |PrintAll(children)|;
      StandsSplit(s, e, PrintAll(children), end);
      EndTagParts(s, q, name);
      NodesRead(s, e, children, []);
      EndTagRead(s, q, name, children);
      assert [] + children == children;
      PrintedNotEmpty(s, e, children);
    }
  }

  lemma NameFirst(n: Node)
    requires n.Element? && ValidNode(n)
    ensures ValidName(n.name) && IsNameByte(n.name[0], true)
  {
  }

  /** Something stands where children were printed. */
  lemma PrintedNotEmpty(s: cstring, p: nat, nodes: seq<Node>)
    requires nodes != [] && ValidNode(nodes[0]) && Stands(s, p, PrintAll(nodes))
    ensures At(s, p) != NUL
  {
    hide PrintAttrs, Escape;
    StandsSplit(s, p, Print(nodes[0]), PrintAll(nodes[1..]));
    match nodes[0]
    case Text(text) =>
      var i := EscapeNotBlank(text);
      EscapeSafe(text, true);
      StandsAt(s, p, Escape(text, true), 0);
    case Element(name, attrs, children) =>
      StandsAt(s, p, Print(nodes[0]), 0);
  }

  /** A list of children is read back, up to the tag that follows it. */
  lemma {:induction false} NodesRead(s: cstring, p: nat, nodes: seq<Node>, acc: seq<Node>)
    requires (forall i :: 0 <= i < |nodes| ==> ValidNode(nodes[i])) && NoAdjacentText(nodes)
    requires Stands(s, p, PrintAll(nodes))
    requires var q := p + |PrintAll(nodes)|; q < |s| && s[q] == '<' && At(s, q + 1) != NUL
    ensures ParseNodes(s, p, acc) == ParseNodes(s, p + |PrintAll(nodes)|, acc + nodes)
    decreases nodes, 1
  {
    hide Print, PrintAll, ParseNodes, ValidNode;
    if nodes == [] {
      PrintAllNil();
      assert acc + nodes == acc;
    } else {
      var n, rest := nodes[0], nodes[1..];
      var q := p + |Print(n)|;
      assert PrintAll(nodes) == Print(n) + PrintAll(rest) by {
        assert nodes[0..] == nodes;
        PrintAllStep(nodes, 0);
      }
      StandsSplit(s, p, Print(n), PrintAll(rest));
      assert ParseNodes(s, p, acc) == ParseNodes(s, q, acc + [n]) by {
        if n.Text? {
          assert nodes == [n] + rest;
          TagFollows(s, q, rest, n);
          TextNodeRead(s, p, n, acc);
        } else {
          ElementRead(s, p, n);
          ElementNodeRead(s, p, n, acc);
        }
      }
      NodesRead(s, q, rest, acc + [n]);
      assert acc + [n] + rest == acc + nodes;
    }
  }

  /** A tag follows a text: that of the next element, or the one that ends the list. */
  lemma TagFollows(s: cstring, q: nat, rest: seq<Node>, text: Node)
    requires text.Text? && NoAdjacentText([text] + rest) && (rest != [] ==> ValidNode(rest[0]))
    requires Stands(s, q, PrintAll(rest))
    requires var e := q + |PrintAll(rest)|; e < |s| && s[e] == '<' && At(s, e + 1) != NUL
    ensures q < |s| && s[q] == '<' && At(s, q + 1) != NUL
  {
    hide Print, ValidNode;
    if rest != [] {
      var all := [text] + rest;
      assert all[0] == text && all[0 + 1] == rest[0];
      StandsSplit(s, q, Print(rest[0]), PrintAll(rest[1..]));
      ElementStart(s, q, rest[0]);
    }
  }

  lemma TextNodeRead(s: cstring, p: nat, n: Node, acc: seq<Node>)
    requires n.Text? && ValidNode(n) && Stands(s, p, Print(n))
    requires var q := p + |Print(n)|; q < |s| && s[q] == '<' && At(s, q + 1) != NUL
    ensures ParseNodes(s, p, acc) == ParseNodes(s, p + |Print(n)|, acc + [n])
  {
    hide Escape, ParseNodes;
    TextRead(s, p, n.text, acc);
  }

  /** An element starts with `<` and a byte that is neither a terminator nor the mark of another kind of node. */
  lemma ElementStart(s: cstring, p: nat, n: Node)
    requires n.Element? && ValidNode(n) && Stands(s, p, Print(n))
    ensures p < |s| && s[p] == '<' && IsNameByte(At(s, p + 1), true)
  {
    hide PrintAttrs, PrintAll;
    StandsAt(s, p, Print(n), 0);
    StandsAt(s, p, Print(n), 1);
  }

  lemma ElementNodeRead(s: cstring, p: nat, n: Node, acc: seq<Node>)
    requires p <= |s| && At(s, p) == '<' && IsNameByte(At(s, p + 1), true)
    requires ParseElement(s, p + 1).Whole? && ParseElement(s, p + 1).node == n
    ensures ParseNodes(s, p, acc) == ParseNodes(s, ParseElement(s, p + 1).next, acc + [n])
  {
    hide ParseElement;
    NonBlank(s, p);
  }

  /** The round trip for documents. */
  lemma ParsePrint(root: Node)
    requires root.Element? && ValidNode(root)
    ensures Parse(Print(root)) == Parsed([root])
  {
    hide Print, ParseElement, ValidNode;
    var s := Print(root);
    assert s[0..0 + |s|] == s;
    ElementStart(s, 0, root);
    ElementRead(s, 0, root);
    ElementNodeRead(s, 0, root, []);
    NonBlank(s, 0);
    assert [] + [root] == [root];
    assert ParseNodes(s, |s|, [root]) == AtEnd([root]);
  }
}
