/** The XML text that the parser accepts, told without the parser: blanks, quotes of either kind, line ends, entities
    and attributes in end tags included (tinyxml2.cpp:109-151, 493-565, 775-879, 1045-1070, 1344-1433). */
module XmlSource {
  import opened CStrings
  import opened Wrappers
  import opened XmlTree
  import opened XmlParser
  import opened XmlText
  import opened XmlRoundTrip

  // ---------- Names and blanks ----------

  ghost predicate Blank(g: cstring) {
    forall i :: 0 <= i < |g| ==> g[i] as int == 32 || 9 <= g[i] as int <= 13
  }

  predicate Letter(c: cchar) {
    'a' <= c <= 'z' || 'A' <= c <= 'Z' || c as int >= 128
  }

  predicate NameByte(c: cchar, leading: bool) {
    Letter(c) || '0' <= c <= '9' || c == '_' || c == ':' || (!leading && (c == '-' || c == '.'))
  }

  ghost predicate Name(n: cstring) {
    n != [] && forall i :: 0 <= i < |n| ==> NameByte(n[i], i == 0)
  }

  // ---------- Attributes ----------

  /** `gap name before = after "value"`, or with single quotes. */
  datatype Attribute = Attribute(gap: cstring, name: cstring, before: cstring, after: cstring,
                                 quote: cchar, value: seq<Chunk>)

  function Key(a: Attribute): cstring {
    a.name + (a.before + ['='])
  }

  function Quoted(a: Attribute): cstring {
    [a.quote] + (ChunksText(a.value) + [a.quote])
  }

  function AttributeText(a: Attribute): cstring {
    a.gap + (Key(a) + (a.after + Quoted(a)))
  }

  ghost predicate AttributeOk(a: Attribute) {
    && Blank(a.gap) && Blank(a.before) && Blank(a.after)
    && Name(a.name) && Letter(a.name[0])
    && (a.quote == '"' || a.quote == '\'')
    && ChunksOk(a.value) && NoNul(ChunksText(a.value)) && Avoids(ChunksText(a.value), a.quote)
  }

  function AttributesText(attrs: seq<Attribute>): cstring {
    if attrs == [] then [] else AttributeText(attrs[0]) + AttributesText(attrs[1..])
  }

  function AttributeMeaning(a: Attribute): Attr {
    Attr(a.name, ChunksValue(a.value))
  }

  function AttributesMeaning(attrs: seq<Attribute>): seq<Attr> {
    seq(|attrs|, i requires 0 <= i < |attrs| => AttributeMeaning(attrs[i]))
  }

  // ---------- Tags and what is between them ----------

  /** `lead < pad / name attributes end`, up to what closes the tag; the slash may be missing. */
  datatype Opening = Opening(lead: cstring, pad: cstring, slash: bool, name: cstring, attrs: seq<Attribute>,
                             end: cstring)

  datatype Body = Empty | Inside(items: seq<Item>, close: Opening)

  datatype Item = Data(text: seq<Chunk>) | Tag(open: Opening, body: Body)

  function Mark(o: Opening): cstring {
    ['<'] + (o.pad + if o.slash then ['/'] else [])
  }

  function Head(o: Opening): cstring {
    Mark(o) + (o.name + (AttributesText(o.attrs) + o.end))
  }

  /** Attributes have different names, and the first is set off from the name of the element. */
  ghost predicate OpeningOk(o: Opening) {
    && Blank(o.lead) && Blank(o.pad) && Blank(o.end) && Name(o.name)
    && (forall i :: 0 <= i < |o.attrs| ==> AttributeOk(o.attrs[i]))
    && (o.attrs != [] ==> o.attrs[0].gap != [])
    && forall i, j :: 0 <= i < j < |o.attrs| ==> o.attrs[i].name != o.attrs[j].name
  }

  /** What closes a tag. */
  function Closer(empty: bool): cstring {
    if empty then ['/', '>'] else ['>']
  }

  function ItemText(i: Item): cstring
    decreases i, 0
  {
    match i
    case Data(text) => ChunksText(text)
    case Tag(o, Empty) => o.lead + (Head(o) + Closer(true))
    case Tag(o, Inside(items, c)) =>
      o.lead + ((Head(o) + Closer(false)) + (ItemsText(items) + (c.lead + (Head(c) + Closer(false)))))
  }

  function ItemsText(items: seq<Item>): cstring
    decreases items, 1
  {
    if items == [] then [] else ItemText(items[0]) + ItemsText(items[1..])
  }

  function ItemMeaning(i: Item): Node
    decreases i, 0
  {
    match i
    case Data(text) => Text(ChunksValue(text))
    case Tag(o, Empty) => Element(o.name, AttributesMeaning(o.attrs), [])
    case Tag(o, Inside(items, _)) => Element(o.name, AttributesMeaning(o.attrs), ItemsMeaning(items))
  }

  function ItemsMeaning(items: seq<Item>): seq<Node>
    decreases items, 1
  {
    if items == [] then [] else [ItemMeaning(items[0])] + ItemsMeaning(items[1..])
  }

  /** Text is not blank, and a tag follows it at once. */
  ghost predicate DataOk(text: seq<Chunk>) {
    ChunksOk(text) && NoNul(ChunksText(text)) && Avoids(ChunksText(text), '<') && NotBlank(ChunksText(text))
  }

  ghost predicate Touching(items: seq<Item>, lead: cstring) {
    && (forall i :: 0 <= i < |items| - 1 && items[i].Data? ==> items[i + 1].Tag? && items[i + 1].open.lead == [])
    && (items != [] && items[|items| - 1].Data? ==> lead == [])
  }

  ghost predicate ItemOk(i: Item)
    decreases i, 0
  {
    match i
    case Data(text) => DataOk(text)
    case Tag(o, Empty) => OpeningOk(o)
    case Tag(o, Inside(items, c)) =>
      && OpeningOk(o) && !o.slash
      && OpeningOk(c) && c.slash && c.name == o.name
      && ItemsOk(items, c.lead)
  }

  ghost predicate ItemsOk(items: seq<Item>, lead: cstring)
    decreases items, 1
  {
    (forall i <- items :: ItemOk(i)) && Touching(items, lead)
  }

  /** What follows the last node: blanks to the end of the text, or an end tag, behind which nothing is read. */
  datatype Tail = EndOfText(gap: cstring) | EndedBy(close: Opening)

  function TailText(tail: Tail): cstring {
    match tail case EndOfText(gap) => gap case EndedBy(c) => c.lead + (Head(c) + Closer(false))
  }

  // ---------- What is written is parsed: tags ----------

  lemma {:induction false} BlankRead(s: cstring, p: nat, g: cstring)
    requires Stands(s, p, g) && Blank(g) && !IsSpace(At(s, p + |g|))
    ensures SkipBlanks(s, p) == p + |g|
    decreases |g|
  {
    if g != [] {
      StandsAt(s, p, g, 0);
      assert g == [g[0]] + g[1..];
      StandsSplit(s, p, [g[0]], g[1..]);
      BlankRead(s, p + 1, g[1..]);
    }
  }

  lemma NameIs(s: cstring, p: nat, n: cstring)
    requires Name(n) && Stands(s, p, n) && !NameByte(At(s, p + |n|), false)
    ensures NameEnd(s, p, p) == p + |n| && s[p..p + |n|] == n && At(s, p) == n[0] && !IsSpace(n[0]) && n[0] != '/'
  {
    StandsAt(s, p, n, 0);
    forall i | 0 <= i < |n| ensures IsNameByte(n[i], p + i == p) {
      assert NameByte(n[i], i == 0);
    }
    NameEndIs(s, p, p, n);
  }

  /** A name from `p` to `e`, and the sign behind it at `b`. */
  ghost predicate KeyAt(s: cstring, p: nat, e: nat, b: nat, name: cstring) {
    && p < e <= b < |s| && NameEnd(s, p, p) == e && s[p..e] == name && At(s, e) != NUL
    && SkipBlanks(s, e) == b && s[b] == '='
  }

  /** A quoted value from `v` to `t`. */
  ghost predicate ValueAt(s: cstring, v: nat, t: nat, value: cstring) {
    && v < t < |s| && (s[v] == '"' || s[v] == '\'') && TextEnd(s, v + 1, s[v]) == Some(t)
    && Decode(s[v + 1..t]) == Some(value)
  }

  lemma KeyRead(s: cstring, p: nat, a: Attribute)
    requires AttributeOk(a) && Stands(s, p, Key(a))
    ensures Key(a) != [] && KeyAt(s, p, p + |a.name|, p + |Key(a)| - 1, a.name)
    ensures At(s, p) == a.name[0] && !IsSpace(At(s, p))
  {
    hide ChunksText, ChunksOk, NameEnd, SkipBlanks;
    var e := p + |a.name|;
    StandsSplit(s, p, a.name, a.before + ['=']);
    StandsSplit(s, e, a.before, ['=']);
    StandsAt(s, e + |a.before|, ['='], 0);
    StandsAt(s, e, a.before + ['='], 0);
    NameIs(s, p, a.name);
    BlankRead(s, e, a.before);
  }

  lemma QuotedRead(s: cstring, v: nat, a: Attribute)
    requires AttributeOk(a) && Stands(s, v, Quoted(a))
    ensures ValueAt(s, v, v + |Quoted(a)| - 1, ChunksValue(a.value)) && Quoted(a) != [] && !IsSpace(At(s, v))
  {
    hide ChunksText, ChunksOk, ChunksValue, TextEnd, Decode, Name, Blank;
    var x := ChunksText(a.value);
    StandsSplit(s, v, [a.quote], x + [a.quote]);
    StandsSplit(s, v + 1, x, [a.quote]);
    StandsAt(s, v, [a.quote], 0);
    StandsAt(s, v + 1 + |x|, [a.quote], 0);
    TextEndIs(s, v + 1, x, a.quote);
    ChunksRead(a.value);
  }

  /** XMLAttribute::ParseDeep from the places it finds. */
  lemma ParseAttrIs(s: cstring, p: nat, e: nat, b: nat, v: nat, t: nat, name: cstring, value: cstring)
    requires KeyAt(s, p, e, b, name) && b < v <= |s| && SkipBlanks(s, b + 1) == v && ValueAt(s, v, t, value)
    ensures t + 1 <= |s| && ParseAttr(s, p) == OneAttr(Attr(name, value), t + 1)
  {
    hide NameEnd, SkipBlanks, TextEnd, Decode;
  }

  lemma ThreeStand(s: cstring, p: nat, a: cstring, b: cstring, c: cstring)
    requires Stands(s, p, a + (b + c))
    ensures Stands(s, p, a) && Stands(s, p + |a|, b) && Stands(s, p + |a| + |b|, c)
    ensures |a + (b + c)| == |a| + |b| + |c| && p + |a| + |b| + |c| <= |s|
  {
    StandsSplit(s, p, a, b + c);
    StandsSplit(s, p + |a|, b, c);
  }

  lemma AttributePlaces(s: cstring, p: nat, a: Attribute)
    requires AttributeOk(a) && Stands(s, p, Key(a) + (a.after + Quoted(a)))
    ensures var b := p + |Key(a)|; var v := b + |a.after|; var t := v + |Quoted(a)|;
            && p < b && KeyAt(s, p, p + |a.name|, b - 1, a.name) && v < t <= |s| && SkipBlanks(s, b) == v
            && ValueAt(s, v, t - 1, ChunksValue(a.value))
            && t == p + |Key(a) + (a.after + Quoted(a))|
    ensures At(s, p) == a.name[0] && !IsSpace(At(s, p))
  {
    hide *;
    ThreeStand(s, p, Key(a), a.after, Quoted(a));
    KeyRead(s, p, a);
    QuotedRead(s, p + |Key(a)| + |a.after|, a);
    AttributeFacts(a);
    BlankRead(s, p + |Key(a)|, a.after);
  }

  lemma AttributeFacts(a: Attribute)
    requires AttributeOk(a)
    ensures Blank(a.gap) && Blank(a.after) && AttributeMeaning(a) == Attr(a.name, ChunksValue(a.value))
    ensures a.name != [] && IsNameStart(a.name[0]) && AttributeText(a) == a.gap + (Key(a) + (a.after + Quoted(a)))
  {
  }

  lemma AttributeRead(s: cstring, p: nat, a: Attribute)
    requires AttributeOk(a) && Stands(s, p, Key(a) + (a.after + Quoted(a)))
    ensures ParseAttr(s, p) == OneAttr(AttributeMeaning(a), p + |Key(a) + (a.after + Quoted(a))|)
    ensures At(s, p) == a.name[0] && !IsSpace(At(s, p))
  {
    hide *;
    AttributeFacts(a);
    AttributePlaces(s, p, a);
    var b := p + |Key(a)|;
    var v := b + |a.after|;
    ParseAttrIs(s, p, p + |a.name|, b - 1, v, v + |Quoted(a)| - 1, a.name, ChunksValue(a.value));
  }

  function Names(attrs: seq<Attr>): set<cstring> {
    set a <- attrs :: a.name
  }

  lemma HasAttrNames(attrs: seq<Attr>, name: cstring)
    ensures HasAttr(attrs, name) <==> name in Names(attrs)
  {
    if name in Names(attrs) {
      var a :| a in attrs && a.name == name;
    }
  }

  /** Attributes of different names, none of them in `acc`. */
  ghost predicate Fresh(attrs: seq<Attribute>, acc: seq<Attr>) {
    && (forall i, j :: 0 <= i < j < |attrs| ==> attrs[i].name != attrs[j].name)
    && forall i :: 0 <= i < |attrs| ==> attrs[i].name !in Names(acc)
  }

  lemma FreshStep(attrs: seq<Attribute>, acc: seq<Attr>)
    requires attrs != []
    ensures Fresh(attrs, acc)
       <==> attrs[0].name !in Names(acc) && Fresh(attrs[1..], acc + [AttributeMeaning(attrs[0])])
  {
    var more, rest := acc + [AttributeMeaning(attrs[0])], attrs[1..];
    assert Names(more) == Names(acc) + {attrs[0].name} by {
      assert forall a :: a in more <==> a in acc || a == AttributeMeaning(attrs[0]);
    }
    if attrs[0].name !in Names(acc) && Fresh(rest, more) {
      forall i, j | 0 <= i < j < |attrs| ensures attrs[i].name != attrs[j].name {
        assert attrs[j] == rest[j - 1];
        if i > 0 {
          assert attrs[i] == rest[i - 1];
        }
      }
      forall i | 0 <= i < |attrs| ensures attrs[i].name !in Names(acc) {
        if i > 0 {
          assert attrs[i] == rest[i - 1];
        }
      }
    }
    if Fresh(attrs, acc) {
      forall i | 0 <= i < |rest| ensures rest[i].name !in Names(more) {
        assert rest[i] == attrs[i + 1];
      }
    }
  }

  lemma AttributesStep(s: cstring, p: nat, a: Attribute, acc: seq<Attr>)
    requires AttributeOk(a) && a.name !in Names(acc) && Stands(s, p, AttributeText(a))
    ensures ParseAttrs(s, p, acc) == ParseAttrs(s, p + |AttributeText(a)|, acc + [AttributeMeaning(a)])
  {
    hide *;
    AttributeFacts(a);
    var t := Key(a) + (a.after + Quoted(a));
    var q := p + |a.gap|;
    StandsSplit(s, p, a.gap, t);
    AttributeRead(s, q, a);
    BlankRead(s, p, a.gap);
    HasAttrNames(acc, a.name);
    ParseAttrsStep(s, p, AttributeMeaning(a), q + |t|, acc);
  }

  lemma ParseAttrsStep(s: cstring, p: nat, a: Attr, next: nat, acc: seq<Attr>)
    requires p <= |s| && !HasAttr(acc, a.name)
    requires var q := SkipBlanks(s, p); IsNameStart(At(s, q)) && ParseAttr(s, q) == OneAttr(a, next)
    ensures next <= |s| && ParseAttrs(s, p, acc) == ParseAttrs(s, next, acc + [a])
  {
    hide ParseAttr, HasAttr, SkipBlanks;
  }

  lemma AttributesTextCons(attrs: seq<Attribute>, u: cstring)
    requires attrs != []
    ensures AttributesText(attrs) + u == AttributeText(attrs[0]) + (AttributesText(attrs[1..]) + u)
  {
    hide AttributeText;
    var t, rest := AttributeText(attrs[0]), AttributesText(attrs[1..]);
    assert (t + rest) + u == t + (rest + u);
  }

  lemma AttributesMeaningCons(attrs: seq<Attribute>, acc: seq<Attr>)
    requires attrs != []
    ensures acc + [AttributeMeaning(attrs[0])] + AttributesMeaning(attrs[1..]) == acc + AttributesMeaning(attrs)
  {
    hide AttributeMeaning;
    assert AttributesMeaning(attrs) == [AttributeMeaning(attrs[0])] + AttributesMeaning(attrs[1..]);
  }

  lemma {:induction false} AttributesRead(s: cstring, p: nat, attrs: seq<Attribute>, end: cstring, empty: bool,
                                          acc: seq<Attr>)
    requires (forall i :: 0 <= i < |attrs| ==> AttributeOk(attrs[i])) && Fresh(attrs, acc) && Blank(end)
    requires Stands(s, p, AttributesText(attrs) + (end + Closer(empty)))
    ensures ParseAttrs(s, p, acc)
         == Attrs(acc + AttributesMeaning(attrs), empty, p + |AttributesText(attrs) + (end + Closer(empty))|)
    decreases |attrs|
  {
    hide AttributeOk, AttributeText, AttributeMeaning, ParseAttr, HasAttr, Blank, SkipBlanks, IsNameStart;
    if attrs == [] {
      assert AttributesText(attrs) + (end + Closer(empty)) == end + Closer(empty);
      TagEndRead(s, p, end, empty, acc);
      assert acc + AttributesMeaning(attrs) == acc;
    } else {
      AttributesTextCons(attrs, end + Closer(empty));
      AttributesMeaningCons(attrs, acc);
      hide ParseAttrs, Stands, Fresh, AttributesText, AttributesMeaning;
      var a, rest := attrs[0], attrs[1..];
      var u := AttributesText(rest) + (end + Closer(empty));
      StandsSplit(s, p, AttributeText(a), u);
      FreshStep(attrs, acc);
      AttributesStep(s, p, a, acc);
      AttributesRead(s, p + |AttributeText(a)|, rest, end, empty, acc + [AttributeMeaning(a)]);
    }
  }

  lemma TagEndRead(s: cstring, p: nat, end: cstring, empty: bool, acc: seq<Attr>)
    requires Blank(end) && Stands(s, p, end + Closer(empty))
    ensures ParseAttrs(s, p, acc) == Attrs(acc, empty, p + |end + Closer(empty)|)
  {
    hide ParseAttr, HasAttr;
    StandsSplit(s, p, end, Closer(empty));
    var q := p + |end|;
    StandsAt(s, q, Closer(empty), 0);
    if empty {
      StandsAt(s, q, Closer(empty), 1);
    }
    BlankRead(s, p, end);
  }

  /** What XMLElement::ParseDeep does once the attributes are read. */
  function Onward(s: cstring, slash: bool, name: cstring, attrs: seq<Attr>, empty: bool, next: nat): ElementResult
    requires next <= |s|
  {
    if empty then Whole(Element(name, attrs, []), next)
    else if slash then EndTag(name, next)
    else if At(s, next) == NUL then ElementStop(Malformed)
    else
      match ParseNodes(s, next, [])
      case NodesStop(why) => ElementStop(why)
      case AtEnd(_) => ElementStop(Malformed)
      case Closed(nodes, end, after) =>
        if end == name then Whole(Element(name, attrs, nodes), after) else ElementStop(Malformed)
  }

  /** A tag begins at `p`; its name is from `n` to `e`. */
  ghost predicate NameAt(s: cstring, p: nat, slash: bool, n: nat, e: nat, name: cstring) {
    && p < n < e <= |s| && NameEnd(s, n, n) == e && s[n..e] == name
    && (var b := SkipBlanks(s, p + 1); (At(s, b) == '/' <==> slash) && n == if slash then b + 1 else b)
  }

  lemma HeadRead(s: cstring, p: nat, o: Opening, empty: bool)
    requires OpeningOk(o) && Stands(s, p, Head(o) + Closer(empty))
    ensures At(s, p) == '<' && At(s, p + 1) != '?' && At(s, p + 1) != '!' && At(s, p + 1) != NUL
    ensures var n := p + |Mark(o)|; NameAt(s, p, o.slash, n, n + |o.name|, o.name)
  {
    hide NameEnd, SkipBlanks, AttributeOk, Blank, AttributesText;
    HeadParts(s, p, o, empty);
    hide Stands, Head;
    var n := p + |Mark(o)|;
    NameIs(s, n, o.name);
    MarkRead(s, p, o);
    assert NameByte(o.name[0], true);
  }

  /** The tag at `p`, from its `<` on. */
  lemma OpeningRead(s: cstring, p: nat, o: Opening, empty: bool)
    requires OpeningOk(o) && Stands(s, p, Head(o) + Closer(empty))
    ensures At(s, p) == '<' && At(s, p + 1) != '?' && At(s, p + 1) != '!' && At(s, p + 1) != NUL
    ensures var next := p + |Head(o) + Closer(empty)|;
            && next <= |s|
            && ParseElement(s, p + 1) == Onward(s, o.slash, o.name, AttributesMeaning(o.attrs), empty, next)
  {
    hide *;
    HeadRead(s, p, o, empty);
    HeadParts(s, p, o, empty);
    var e := p + |Mark(o)| + |o.name|;
    TagAttributesRead(s, e, o, empty);
    var t := AttributesText(o.attrs) + (o.end + Closer(empty));
    ParseElementIs(s, p, o.slash, p + |Mark(o)|, e, o.name, AttributesMeaning(o.attrs), empty, e + |t|);
  }

  lemma TagAttributesRead(s: cstring, e: nat, o: Opening, empty: bool)
    requires OpeningOk(o) && Stands(s, e, AttributesText(o.attrs) + (o.end + Closer(empty)))
    ensures ParseAttrs(s, e, [])
         == Attrs(AttributesMeaning(o.attrs), empty, e + |AttributesText(o.attrs) + (o.end + Closer(empty))|)
  {
    FreshFirst(o);
    hide ParseAttrs, AttributesText, AttributesMeaning, AttributeOk, Stands, NameByte, Fresh, Name, Blank;
    AttributesRead(s, e, o.attrs, o.end, empty, []);
    assert [] + AttributesMeaning(o.attrs) == AttributesMeaning(o.attrs);
  }

  lemma FreshFirst(o: Opening)
    requires OpeningOk(o)
    ensures Fresh(o.attrs, [])
  {
  }

  lemma HeadParts(s: cstring, p: nat, o: Opening, empty: bool)
    requires OpeningOk(o) && Stands(s, p, Head(o) + Closer(empty))
    ensures var t := AttributesText(o.attrs) + (o.end + Closer(empty));
            var n := p + |Mark(o)|;
            var e := n + |o.name|;
            && Stands(s, p, Mark(o)) && Stands(s, n, o.name) && Stands(s, e, t)
            && e + |t| == p + |Head(o) + Closer(empty)| && o.name != [] && !NameByte(At(s, e), false)
  {
    hide Mark, AttributesText, AttributeOk, Blank;
    var t := AttributesText(o.attrs) + (o.end + Closer(empty));
    var n := p + |Mark(o)|;
    assert Head(o) + Closer(empty) == Mark(o) + (o.name + t);
    StandsSplit(s, p, Mark(o), o.name + t);
    StandsSplit(s, n, o.name, t);
    TagNext(o, empty);
    StandsAt(s, n + |o.name|, t, 0);
  }

  /** XMLElement::ParseDeep from the places it finds. */
  lemma ParseElementIs(s: cstring, p: nat, slash: bool, n: nat, e: nat, name: cstring, attrs: seq<Attr>,
                       empty: bool, next: nat)
    requires NameAt(s, p, slash, n, e, name)
    requires next <= |s| && ParseAttrs(s, e, []) == Attrs(attrs, empty, next)
    ensures ParseElement(s, p + 1) == Onward(s, slash, name, attrs, empty, next)
  {
    hide SkipBlanks, NameEnd, ParseAttrs, ParseNodes;
  }

  /** The beginning of a tag, up to the name. */
  lemma MarkRead(s: cstring, p: nat, o: Opening)
    requires Blank(o.pad) && Stands(s, p, Mark(o))
    requires !IsSpace(At(s, p + |Mark(o)|)) && At(s, p + |Mark(o)|) != '/'
    ensures var b := SkipBlanks(s, p + 1);
            && At(s, p) == '<' && (At(s, b) == '/' <==> o.slash) && p + |Mark(o)| == if o.slash then b + 1 else b
    ensures At(s, p + 1) == At(s, p + |Mark(o)|) || At(s, p + 1) == '/' || IsSpace(At(s, p + 1))
  {
    var slash: cstring := if o.slash then ['/'] else [];
    StandsSplit(s, p, ['<'], o.pad + slash);
    StandsSplit(s, p + 1, o.pad, slash);
    StandsAt(s, p, ['<'], 0);
    if o.slash {
      StandsAt(s, p + 1 + |o.pad|, slash, 0);
    }
    if o.pad != [] {
      StandsAt(s, p + 1, o.pad, 0);
    }
    BlankRead(s, p + 1, o.pad);
  }

  /** No name goes on behind the name in a tag. */
  lemma TagNext(o: Opening, empty: bool)
    requires OpeningOk(o)
    ensures var t := AttributesText(o.attrs) + (o.end + Closer(empty)); t != [] && !NameByte(t[0], false)
  {
    var t := AttributesText(o.attrs) + (o.end + Closer(empty));
    if o.attrs != [] {
      var gap := o.attrs[0].gap;
      assert AttributeText(o.attrs[0])[0] == gap[0];
      assert t[0] == gap[0];
    } else if o.end != [] {
      assert t[0] == o.end[0];
    }
  }

  // ---------- What is written is parsed: text and elements ----------

  lemma DataRead(s: cstring, p: nat, w: seq<Chunk>, acc: seq<Node>)
    requires DataOk(w) && Stands(s, p, ChunksText(w))
    requires var q := p + |ChunksText(w)|; q < |s| && s[q] == '<' && At(s, q + 1) != NUL
    ensures ParseNodes(s, p, acc) == ParseNodes(s, p + |ChunksText(w)|, acc + [Text(ChunksValue(w))])
    ensures At(s, p) != NUL
  {
    hide Decode, TextEnd, SkipBlanks, ParseElement, ChunksOk, ChunksText, ChunksValue;
    var t := ChunksText(w);
    var q := p + |t|;
    TextEndIs(s, p, t, '<');
    ChunksRead(w);
    var i :| 0 <= i < |t| && !IsSpace(t[i]);
    BlanksStop(s, p, p + i, t);
    StandsAt(s, p, t, 0);
    StandsAt(s, p, t, SkipBlanks(s, p) - p);
    StandsIs(s, p, t);
  }

  lemma StandsIs(s: cstring, p: nat, t: cstring)
    requires Stands(s, p, t)
    ensures p + |t| <= |s| && s[p..p + |t|] == t
  {
  }

  /** How the list of children goes on behind an element or an end tag. */
  function Further(s: cstring, acc: seq<Node>, r: ElementResult): NodesResult
    requires r.Whole? ==> r.next <= |s|
  {
    match r
    case ElementStop(why) => NodesStop(why)
    case EndTag(name, next) => Closed(acc, name, next)
    case Whole(node, next) => ParseNodes(s, next, acc + [node])
  }

  /** Blanks before a tag are skipped. */
  lemma LeadRead(s: cstring, p: nat, lead: cstring, acc: seq<Node>)
    requires Blank(lead) && Stands(s, p, lead)
    requires var q := p + |lead|;
             At(s, q) == '<' && At(s, q + 1) != '?' && At(s, q + 1) != '!'
    ensures ParseNodes(s, p, acc)
         == Further(s, acc, ParseElement(s, p + |lead| + 1))
    ensures At(s, p) != NUL
  {
    hide ParseElement, ParseNodes, SkipBlanks;
    BlankRead(s, p, lead);
    if lead != [] {
      StandsAt(s, p, lead, 0);
    }
    NodesFurther(s, p, acc);
  }

  lemma NodesFurther(s: cstring, p: nat, acc: seq<Node>)
    requires p <= |s| && At(s, p) != NUL
    requires var q := SkipBlanks(s, p); At(s, q) == '<' && At(s, q + 1) != '?' && At(s, q + 1) != '!'
    ensures ParseNodes(s, p, acc) == Further(s, acc, ParseElement(s, SkipBlanks(s, p) + 1))
  {
    hide ParseElement, SkipBlanks, TextEnd, Decode;
  }

  /** The tag of an element, with the blanks before it and with what follows. */
  lemma LedTagRead(s: cstring, p: nat, o: Opening, empty: bool, inner: cstring)
    requires OpeningOk(o) && Stands(s, p, o.lead + ((Head(o) + Closer(empty)) + inner))
    ensures var q := p + |o.lead|; var e := q + |Head(o) + Closer(empty)|;
            && e + |inner| == p + |o.lead + ((Head(o) + Closer(empty)) + inner)| <= |s|
            && Stands(s, p, o.lead) && Stands(s, e, inner)
            && At(s, q) == '<' && At(s, q + 1) != '?' && At(s, q + 1) != '!' && At(s, q + 1) != NUL
            && ParseElement(s, q + 1) == Onward(s, o.slash, o.name, AttributesMeaning(o.attrs), empty, e)
  {
    hide *;
    ThreeStand(s, p, o.lead, Head(o) + Closer(empty), inner);
    OpeningRead(s, p + |o.lead|, o, empty);
  }

  lemma EmptyTagRead(s: cstring, p: nat, o: Opening, acc: seq<Node>)
    requires OpeningOk(o) && Stands(s, p, o.lead + (Head(o) + Closer(true)))
    ensures At(s, p) != NUL
    ensures ParseNodes(s, p, acc)
         == ParseNodes(s, p + |o.lead + (Head(o) + Closer(true))|,
                       acc + [Element(o.name, AttributesMeaning(o.attrs), [])])
  {
    hide Head, ParseElement, ParseNodes, AttributesMeaning, Stands, OpeningOk, Blank;
    assert (Head(o) + Closer(true)) + [] == Head(o) + Closer(true);
    LedTagRead(s, p, o, true, []);
    LeadIsBlank(o);
    LeadRead(s, p, o.lead, acc);
  }

  lemma OnwardInside(s: cstring, name: cstring, attrs: seq<Attr>, e: nat, nodes: seq<Node>, next: nat)
    requires e <= |s| && At(s, e) != NUL && ParseNodes(s, e, []) == Closed(nodes, name, next)
    ensures Onward(s, false, name, attrs, false, e) == Whole(Element(name, attrs, nodes), next)
  {
    hide ParseNodes;
  }

  lemma {:induction false} FullTagRead(s: cstring, p: nat, o: Opening, items: seq<Item>, c: Opening, acc: seq<Node>)
    requires OpeningOk(o) && !o.slash && OpeningOk(c) && c.slash && c.name == o.name && ItemsOk(items, c.lead)
    requires Stands(s, p, o.lead + ((Head(o) + Closer(false)) + (ItemsText(items) + TailText(EndedBy(c)))))
    ensures At(s, p) != NUL
    ensures var whole := o.lead + ((Head(o) + Closer(false)) + (ItemsText(items) + TailText(EndedBy(c))));
            var node := Element(o.name, AttributesMeaning(o.attrs), ItemsMeaning(items));
            ParseNodes(s, p, acc) == ParseNodes(s, p + |whole|, acc + [node])
    decreases items, 3
  {
    hide *;
    var inner := ItemsText(items) + TailText(EndedBy(c));
    var e := p + |o.lead| + |Head(o) + Closer(false)|;
    LedTagRead(s, p, o, false, inner);
    LeadIsBlank(o);
    LeadRead(s, p, o.lead, acc);
    InsideRead(s, e, items, c, []);
    assert [] + ItemsMeaning(items) == ItemsMeaning(items);
    OnwardInside(s, o.name, AttributesMeaning(o.attrs), e, ItemsMeaning(items), e + |inner|);
    var node := Element(o.name, AttributesMeaning(o.attrs), ItemsMeaning(items));
    FurtherWhole(s, acc, node, e + |inner|);
  }

  lemma FurtherWhole(s: cstring, acc: seq<Node>, node: Node, next: nat)
    requires next <= |s|
    ensures Further(s, acc, Whole(node, next)) == ParseNodes(s, next, acc + [node])
  {
    hide ParseNodes;
  }

  /** A tag with all that belongs to it is one more node. */
  lemma {:induction false} TagRead(s: cstring, p: nat, i: Item, acc: seq<Node>)
    requires i.Tag? && ItemOk(i) && Stands(s, p, ItemText(i))
    ensures At(s, p) != NUL
    ensures ParseNodes(s, p, acc) == ParseNodes(s, p + |ItemText(i)|, acc + [ItemMeaning(i)])
    decreases i, 0
  {
    hide Head, ItemsText, OpeningOk, ParseNodes, ItemsMeaning, AttributesMeaning, Stands, ItemsOk;
    match i.body
    case Empty =>
      EmptyTagRead(s, p, i.open, acc);
    case Inside(items, c) =>
      FullTagRead(s, p, i.open, items, c, acc);
  }

  lemma LeadIsBlank(o: Opening)
    requires OpeningOk(o)
    ensures Blank(o.lead)
  {
  }

  /** A tag starts with `<` and something that is not the end of the text. */
  lemma TagStarts(s: cstring, p: nat, i: Item)
    requires i.Tag? && ItemOk(i) && i.open.lead == [] && Stands(s, p, ItemText(i))
    ensures At(s, p) == '<' && At(s, p + 1) != NUL
  {
    hide Head, ItemsText, OpeningOk, Stands, ItemsOk, TailText;
    var o := i.open;
    match i.body
    case Empty =>
      assert (Head(o) + Closer(true)) + [] == Head(o) + Closer(true);
      LedTagRead(s, p, o, true, []);
    case Inside(items, c) =>
      LedTagRead(s, p, o, false, ItemsText(items) + (c.lead + (Head(c) + Closer(false))));
  }

  /** The items in an element and its end tag. */
  lemma {:induction false} InsideRead(s: cstring, p: nat, items: seq<Item>, c: Opening, acc: seq<Node>)
    requires ItemsOk(items, c.lead) && OpeningOk(c) && c.slash
    requires Stands(s, p, ItemsText(items) + TailText(EndedBy(c)))
    ensures At(s, p) != NUL
    ensures var next := p + |ItemsText(items) + TailText(EndedBy(c))|;
            ParseNodes(s, p, acc) == Closed(acc + ItemsMeaning(items), c.name, next)
    decreases items, 2
  {
    hide *;
    var m := p + |ItemsText(items)|;
    StandsSplit(s, p, ItemsText(items), TailText(EndedBy(c)));
    EndRead(s, m, c, acc + ItemsMeaning(items));
    InsideFacts(items, c.lead);
    ItemsRead(s, p, items, c.lead, acc);
  }

  lemma InsideFacts(items: seq<Item>, lead: cstring)
    requires ItemsOk(items, lead)
    ensures items == [] ==> ItemsText(items) == []
    ensures items != [] && items[|items| - 1].Data? ==> lead == []
  {
    hide ItemOk, ItemText;
  }

  lemma EndText(c: Opening)
    ensures TailText(EndedBy(c)) == c.lead + (Head(c) + Closer(false))
  {
    hide Head, Closer;
  }

  lemma EndRead(s: cstring, m: nat, c: Opening, acc: seq<Node>)
    requires OpeningOk(c) && c.slash && Stands(s, m, TailText(EndedBy(c)))
    ensures At(s, m) != NUL && (c.lead == [] ==> At(s, m) == '<' && At(s, m + 1) != NUL)
    ensures ParseNodes(s, m, acc) == Closed(acc, c.name, m + |TailText(EndedBy(c))|)
  {
    hide *;
    EndText(c);
    var t := Head(c) + Closer(false);
    StandsSplit(s, m, c.lead, t);
    OpeningRead(s, m + |c.lead|, c, false);
    LeadIsBlank(c);
    LeadRead(s, m, c.lead, acc);
    OnwardEnd(s, acc, c.name, AttributesMeaning(c.attrs), m + |c.lead + t|);
  }

  lemma OnwardEnd(s: cstring, acc: seq<Node>, name: cstring, attrs: seq<Attr>, next: nat)
    requires next <= |s|
    ensures Further(s, acc, Onward(s, true, name, attrs, false, next)) == Closed(acc, name, next)
  {
  }

  lemma {:induction false} ItemsRead(s: cstring, p: nat, items: seq<Item>, lead: cstring, acc: seq<Node>)
    requires ItemsOk(items, lead) && Stands(s, p, ItemsText(items))
    requires items != [] && items[|items| - 1].Data? ==>
               var q := p + |ItemsText(items)|; At(s, q) == '<' && At(s, q + 1) != NUL
    ensures items != [] ==> At(s, p) != NUL
    ensures ParseNodes(s, p, acc) == ParseNodes(s, p + |ItemsText(items)|, acc + ItemsMeaning(items))
    decreases items, 1
  {
    hide ItemText, ItemOk, ItemMeaning, ParseNodes, Stands;
    if items == [] {
      assert acc + ItemsMeaning(items) == acc;
    } else {
      var i, rest := items[0], items[1..];
      var q := p + |ItemText(i)|;
      StandsSplit(s, p, ItemText(i), ItemsText(rest));
      RestOk(items, lead);
      if i.Tag? {
        TagRead(s, p, i, acc);
      } else {
        NextStarts(s, q, items, lead);
        DataItemRead(s, p, i, acc);
      }
      ItemsRead(s, q, rest, lead, acc + [ItemMeaning(i)]);
      assert acc + [ItemMeaning(i)] + ItemsMeaning(rest) == acc + ItemsMeaning(items);
    }
  }

  lemma DataItemRead(s: cstring, p: nat, i: Item, acc: seq<Node>)
    requires i.Data? && ItemOk(i) && Stands(s, p, ItemText(i))
    requires var q := p + |ItemText(i)|; At(s, q) == '<' && At(s, q + 1) != NUL
    ensures ParseNodes(s, p, acc) == ParseNodes(s, p + |ItemText(i)|, acc + [ItemMeaning(i)]) && At(s, p) != NUL
  {
    hide ParseNodes, ChunksText;
    DataRead(s, p, i.text, acc);
  }

  /** A tag follows text at once. */
  lemma NextStarts(s: cstring, q: nat, items: seq<Item>, lead: cstring)
    requires ItemsOk(items, lead) && items != [] && items[0].Data? && Stands(s, q, ItemsText(items[1..]))
    requires items[|items| - 1].Data? ==>
               var e := q + |ItemsText(items[1..])|; At(s, e) == '<' && At(s, e + 1) != NUL
    ensures At(s, q) == '<' && At(s, q + 1) != NUL
  {
    hide ItemText, ItemOk, Stands;
    if |items| > 1 {
      assert items[0 + 1].Tag? && items[1] in items;
      StandsSplit(s, q, ItemText(items[1]), ItemsText(items[1..][1..]));
      TagStarts(s, q, items[1]);
    }
  }

  lemma RestOk(items: seq<Item>, lead: cstring)
    requires items != [] && ItemsOk(items, lead)
    ensures ItemOk(items[0]) && ItemsOk(items[1..], lead)
  {
    hide ItemOk;
    assert items[0] in items;
    var rest := items[1..];
    forall i | 0 <= i < |rest| - 1 && rest[i].Data? ensures rest[i + 1].Tag? && rest[i + 1].open.lead == [] {
      assert rest[i] == items[i + 1];
    }
  }

  // ---------- Whole texts ----------

  /** From `p` on there are the items and then the tail. */
  ghost predicate Lists(s: cstring, p: nat, items: seq<Item>, tail: Tail) {
    && Stands(s, p, ItemsText(items) + TailText(tail))
    && match tail
       case EndOfText(gap) =>
         && Blank(gap) && At(s, p + |ItemsText(items) + gap|) == NUL
         && ItemsOk(items, gap) && (items != [] ==> items[|items| - 1].Tag?)
       case EndedBy(c) => OpeningOk(c) && c.slash && ItemsOk(items, c.lead)
  }

  function Outcome(nodes: seq<Node>, tail: Tail, next: nat): NodesResult {
    match tail case EndOfText(_) => AtEnd(nodes) case EndedBy(c) => Closed(nodes, c.name, next)
  }

  /** A list of nodes is read as what it means. */
  lemma ListRead(s: cstring, p: nat, items: seq<Item>, tail: Tail, acc: seq<Node>)
    requires Lists(s, p, items, tail)
    ensures ParseNodes(s, p, acc)
         == Outcome(acc + ItemsMeaning(items), tail, p + |ItemsText(items) + TailText(tail)|)
  {
    hide Head, ItemsText, OpeningOk, ParseNodes, ItemsMeaning, Blank, ItemOk;
    match tail
    case EndOfText(gap) =>
      StandsSplit(s, p, ItemsText(items), gap);
      ItemsRead(s, p, items, gap, acc);
      BlanksToEnd(s, p + |ItemsText(items)|, gap, acc + ItemsMeaning(items));
    case EndedBy(c) =>
      InsideRead(s, p, items, c, acc);
  }

  lemma BlanksToEnd(s: cstring, p: nat, gap: cstring, acc: seq<Node>)
    requires Blank(gap) && Stands(s, p, gap) && At(s, p + |gap|) == NUL
    ensures ParseNodes(s, p, acc) == AtEnd(acc)
  {
    BlankRead(s, p, gap);
  }
}
