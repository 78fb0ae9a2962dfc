/** The parser accepts exactly the texts of XmlSource, and reads each as what is written there. */
module XmlLanguage {
  import opened CStrings
  import opened Wrappers
  import opened XmlTree
  import opened XmlParser
  import opened XmlText
  import opened XmlRoundTrip
  import opened XmlValid
  import opened XmlSource

  // ---------- What is parsed is written: attributes and tags ----------

  lemma SliceStands(s: cstring, p: nat, q: nat)
    requires p <= q <= |s|
    ensures Stands(s, p, s[p..q])
  {
  }

  lemma StandsJoin(s: cstring, p: nat, t: cstring, u: cstring)
    requires Stands(s, p, t) && Stands(s, p + |t|, u)
    ensures Stands(s, p, t + u)
  {
    assert s[p..p + |t + u|] == s[p..p + |t|] + s[p + |t|..p + |t| + |u|];
  }

  lemma GapIsBlank(s: cstring, p: nat)
    requires p <= |s|
    ensures Blank(s[p..SkipBlanks(s, p)])
  {
    BlanksSkipped(s, p);
  }

  lemma {:induction false} NameStops(s: cstring, start: nat, p: nat)
    requires start <= p <= |s|
    ensures var e := NameEnd(s, start, p); !IsNameByte(At(s, e), e == start)
    decreases |s| - p
  {
    if IsNameByte(At(s, p), p == start) {
      NameStops(s, start, p + 1);
    }
  }

  lemma NameFound(s: cstring, p: nat)
    requires p <= |s| && NameEnd(s, p, p) > p
    ensures Name(s[p..NameEnd(s, p, p)]) && !NameByte(At(s, NameEnd(s, p, p)), false)
  {
    NameBytes(s, p, p);
    NameStops(s, p, p);
  }

  lemma AttributeFound(s: cstring, p: nat) returns (a: Attribute)
    requires p <= |s| && IsNameStart(At(s, p)) && ParseAttr(s, p).OneAttr?
    ensures AttributeOk(a) && a.gap == [] && Stands(s, p, Key(a) + (a.after + Quoted(a)))
    ensures a.name[0] == At(s, p)
    ensures ParseAttr(s, p) == OneAttr(AttributeMeaning(a), p + |Key(a) + (a.after + Quoted(a))|)
  {
    hide NameEnd, SkipBlanks, TextEnd, Decode, ChunksOk, ChunksText, ChunksValue;
    var e := NameEnd(s, p, p);
    var b := SkipBlanks(s, e);
    var v := SkipBlanks(s, b + 1);
    var t := TextEnd(s, v + 1, At(s, v)).value;
    NameFound(s, p);
    GapIsBlank(s, e);
    GapIsBlank(s, b + 1);
    TextAvoids(s, v + 1, At(s, v));
    var w := ChunksFound(s[v + 1..t]);
    ChunksRead(w);
    a := Attribute([], s[p..e], s[e..b], s[b + 1..v], s[v], w);
    AttributeIsSlice(s, p, e, b, v, t, a);
    SliceStands(s, p, t + 1);
  }

  lemma AttributeIsSlice(s: cstring, p: nat, e: nat, b: nat, v: nat, t: nat, a: Attribute)
    requires p <= e <= b < v < t < |s| && s[b] == '=' && s[t] == s[v] && ChunksText(a.value) == s[v + 1..t]
    requires a == Attribute([], s[p..e], s[e..b], s[b + 1..v], s[v], a.value)
    ensures Key(a) + (a.after + Quoted(a)) == s[p..t + 1]
  {
    KeyIsSlice(s, p, e, b, a);
    QuotedIsSlice(s, v, t, a);
    hide ChunksText, Key, Quoted;
    assert s[p..t + 1] == s[p..b + 1] + (s[b + 1..v] + s[v..t + 1]);
  }

  lemma KeyIsSlice(s: cstring, p: nat, e: nat, b: nat, a: Attribute)
    requires p <= e <= b < |s| && s[b] == '=' && a.name == s[p..e] && a.before == s[e..b]
    ensures Key(a) == s[p..b + 1]
  {
  }

  lemma QuotedIsSlice(s: cstring, v: nat, t: nat, a: Attribute)
    requires v < t < |s| && s[t] == s[v] == a.quote && ChunksText(a.value) == s[v + 1..t]
    ensures Quoted(a) == s[v..t + 1]
  {
    hide ChunksText;
  }

  /** The attributes of a tag and what closes it. */
  ghost predicate AttributesAt(s: cstring, p: nat, acc: seq<Attr>, attrs: seq<Attribute>, end: cstring)
    requires p <= |s|
  {
    var r := ParseAttrs(s, p, acc);
    && r.Attrs?
    && (forall i :: 0 <= i < |attrs| ==> AttributeOk(attrs[i])) && Fresh(attrs, acc) && Blank(end)
    && Stands(s, p, AttributesText(attrs) + (end + Closer(r.closed)))
    && (attrs != [] ==> attrs[0].gap == s[p..SkipBlanks(s, p)] && attrs[0].name[0] == At(s, SkipBlanks(s, p)))
  }

  lemma NoMoreAttributes(s: cstring, p: nat, acc: seq<Attr>) returns (end: cstring)
    requires p <= |s| && ParseAttrs(s, p, acc).Attrs? && !IsNameStart(At(s, SkipBlanks(s, p)))
    ensures AttributesAt(s, p, acc, [], end)
  {
    hide SkipBlanks, ParseAttr, HasAttr;
    var q := SkipBlanks(s, p);
    end := s[p..q];
    GapIsBlank(s, p);
    SliceStands(s, p, q);
    var closer := Closer(ParseAttrs(s, p, acc).closed);
    assert s[q..q + |closer|] == closer;
    StandsJoin(s, p, end, closer);
    assert AttributesText([]) + (end + closer) == end + closer;
  }

  lemma MoreAttributes(s: cstring, p: nat, acc: seq<Attr>)
    requires p <= |s| && ParseAttrs(s, p, acc).Attrs? && IsNameStart(At(s, SkipBlanks(s, p)))
    ensures var a := ParseAttr(s, SkipBlanks(s, p));
            && a.OneAttr? && !HasAttr(acc, a.attr.name) && p < a.next <= |s|
            && ParseAttrs(s, p, acc) == ParseAttrs(s, a.next, acc + [a.attr])
  {
    hide SkipBlanks, ParseAttr, HasAttr;
  }

  lemma {:induction false} AttributesFound(s: cstring, p: nat, acc: seq<Attr>)
    returns (attrs: seq<Attribute>, end: cstring)
    requires p <= |s| && ParseAttrs(s, p, acc).Attrs?
    ensures AttributesAt(s, p, acc, attrs, end)
    decreases |s| - p
  {
    hide SkipBlanks, ParseAttr, ParseAttrs, HasAttr, AttributeOk, AttributesAt, Names, Key, Quoted;
    var q := SkipBlanks(s, p);
    if IsNameStart(At(s, q)) {
      MoreAttributes(s, p, acc);
      var bare := AttributeFound(s, q);
      HasAttrNames(acc, bare.name);
      var rest;
      rest, end := AttributesFound(s, ParseAttr(s, q).next, acc + [AttributeMeaning(bare)]);
      attrs := OneMoreAttribute(s, p, acc, bare, rest, end);
    } else {
      attrs := [];
      end := NoMoreAttributes(s, p, acc);
    }
  }

  lemma OneMoreAttribute(s: cstring, p: nat, acc: seq<Attr>, bare: Attribute, rest: seq<Attribute>, end: cstring)
    returns (attrs: seq<Attribute>)
    requires p <= |s| && AttributeOk(bare) && bare.gap == [] && bare.name !in Names(acc)
    requires var q := SkipBlanks(s, p);
             var t := Key(bare) + (bare.after + Quoted(bare));
             var next := q + |t|;
             && Stands(s, q, t) && bare.name[0] == At(s, q)
             && AttributesAt(s, next, acc + [AttributeMeaning(bare)], rest, end)
             && ParseAttrs(s, p, acc) == ParseAttrs(s, next, acc + [AttributeMeaning(bare)])
    ensures AttributesAt(s, p, acc, attrs, end)
  {
    hide SkipBlanks, ParseAttrs, Key, Quoted, ChunksOk, ChunksText, Name;
    var q := SkipBlanks(s, p);
    var a := bare.(gap := s[p..q]);
    var t := Key(bare) + (bare.after + Quoted(bare));
    GapIsBlank(s, p);
    GapMoves(bare, a.gap);
    SliceStands(s, p, q);
    StandsJoin(s, p, a.gap, t);
    attrs := [a] + rest;
    assert attrs[1..] == rest;
    var u := end + Closer(ParseAttrs(s, p, acc).closed);
    AttributesTextCons(attrs, u);
    FreshStep(attrs, acc);
    hide Names, Fresh, AttributesText, AttributeText;
    StandsJoin(s, p, AttributeText(a), AttributesText(rest) + u);
  }

  lemma GapMoves(a: Attribute, gap: cstring)
    requires AttributeOk(a) && Blank(gap)
    ensures var b := a.(gap := gap);
            && AttributeOk(b) && AttributeMeaning(b) == AttributeMeaning(a)
            && AttributeText(b) == gap + (Key(a) + (a.after + Quoted(a)))
  {
  }

  lemma FreshDistinct(attrs: seq<Attribute>)
    requires Fresh(attrs, [])
    ensures forall i, j :: 0 <= i < j < |attrs| ==> attrs[i].name != attrs[j].name
  {
  }

  /** The parts of a tag that the parser has got through. */
  ghost predicate TagAt(s: cstring, p: nat, n: nat, e: nat) {
    && p < n < e <= |s| && At(s, p) == '<' && e == NameEnd(s, n, n)
    && (n == SkipBlanks(s, p + 1) || (n == SkipBlanks(s, p + 1) + 1 && At(s, n - 1) == '/'))
    && ParseAttrs(s, e, []).Attrs?
  }

  lemma TagPlaces(s: cstring, p: nat) returns (n: nat, e: nat)
    requires p < |s| && s[p] == '<' && !ParseElement(s, p + 1).ElementStop?
    ensures TagAt(s, p, n, e)
  {
    hide SkipBlanks, NameEnd, ParseAttrs, ParseNodes;
    var b := SkipBlanks(s, p + 1);
    n := if At(s, b) == '/' then b + 1 else b;
    e := NameEnd(s, n, n);
  }

  lemma MarkIsSlice(s: cstring, p: nat, n: nat, e: nat, o: Opening)
    requires TagAt(s, p, n, e) && o.pad == s[p + 1..SkipBlanks(s, p + 1)] && o.slash == (n > SkipBlanks(s, p + 1))
    ensures Mark(o) == s[p..n]
  {
    hide SkipBlanks, NameEnd, ParseAttrs;
  }

  /** The first attribute is set off from the name. */
  lemma SetOff(s: cstring, p: nat, e: nat, attrs: seq<Attribute>, end: cstring)
    requires p <= e <= |s| && e == NameEnd(s, p, p) && e > p && AttributesAt(s, e, [], attrs, end) && attrs != []
    ensures attrs[0].gap != []
  {
    NameFound(s, p);
    assert AttributeOk(attrs[0]);
    assert Letter(At(s, SkipBlanks(s, e)));
  }

  lemma TagIs(s: cstring, p: nat, n: nat, e: nat, attrs: seq<Attribute>, end: cstring) returns (o: Opening)
    requires TagAt(s, p, n, e) && AttributesAt(s, e, [], attrs, end)
    requires Name(s[n..e]) && (attrs != [] ==> attrs[0].gap != [])
    ensures OpeningOk(o) && o.lead == [] && Stands(s, p, Head(o) + Closer(ParseAttrs(s, e, []).closed))
  {
    hide SkipBlanks, NameEnd, ParseAttrs, AttributeOk, AttributesText;
    var b := SkipBlanks(s, p + 1);
    o := Opening([], s[p + 1..b], n > b, s[n..e], attrs, end);
    GapIsBlank(s, p + 1);
    FreshDistinct(attrs);
    MarkIsSlice(s, p, n, e, o);
    SliceStands(s, p, n);
    SliceStands(s, n, e);
    HeadStands(s, p, o, ParseAttrs(s, e, []).closed);
  }

  lemma HeadStands(s: cstring, p: nat, o: Opening, empty: bool)
    requires Stands(s, p, Mark(o)) && Stands(s, p + |Mark(o)|, o.name)
    requires Stands(s, p + |Mark(o)| + |o.name|, AttributesText(o.attrs) + (o.end + Closer(empty)))
    ensures Stands(s, p, Head(o) + Closer(empty))
  {
    hide Mark, AttributesText, Stands;
    var t := AttributesText(o.attrs) + (o.end + Closer(empty));
    StandsJoin(s, p + |Mark(o)|, o.name, t);
    StandsJoin(s, p, Mark(o), o.name + t);
    assert Mark(o) + (o.name + t) == Head(o) + Closer(empty);
  }

  lemma OpeningFound(s: cstring, p: nat) returns (o: Opening, empty: bool)
    requires p < |s| && s[p] == '<' && !ParseElement(s, p + 1).ElementStop?
    ensures OpeningOk(o) && o.lead == [] && Stands(s, p, Head(o) + Closer(empty))
    ensures var next := p + |Head(o) + Closer(empty)|;
            && next <= |s|
            && ParseElement(s, p + 1) == Onward(s, o.slash, o.name, AttributesMeaning(o.attrs), empty, next)
  {
    var n, e := TagPlaces(s, p);
    hide ParseElement, AttributesAt, Name, ParseAttrs, SkipBlanks, NameEnd;
    var attrs, end := AttributesFound(s, e, []);
    NameFound(s, n);
    if attrs != [] {
      SetOff(s, n, e, attrs, end);
    }
    hide *;
    o := TagIs(s, p, n, e, attrs, end);
    empty := ParseAttrs(s, e, []).closed;
    OpeningRead(s, p, o, empty);
  }

  // ---------- What is parsed is written: lists of nodes ----------

  lemma TagFurther(s: cstring, p: nat, acc: seq<Node>)
    requires p <= |s| && At(s, SkipBlanks(s, p)) == '<' && !ParseNodes(s, p, acc).NodesStop?
    ensures !ParseElement(s, SkipBlanks(s, p) + 1).ElementStop?
    ensures ParseNodes(s, p, acc) == Further(s, acc, ParseElement(s, SkipBlanks(s, p) + 1))
  {
    hide SkipBlanks, ParseElement, TextEnd, Decode;
    assert At(s, p) != NUL by {
      BlankOrNot(s, p);
    }
  }

  lemma BlankOrNot(s: cstring, p: nat)
    requires p <= |s|
    ensures SkipBlanks(s, p) == p || IsSpace(At(s, p))
    ensures !IsSpace(At(s, SkipBlanks(s, p)))
  {
  }

  lemma TextFurther(s: cstring, p: nat, acc: seq<Node>)
    requires p <= |s| && !ParseNodes(s, p, acc).NodesStop?
    requires var q := SkipBlanks(s, p); At(s, q) != '<' && At(s, q) != NUL
    ensures var t := TextEnd(s, p, '<');
            && t.Some? && p < t.value < |s| && At(s, t.value + 1) != NUL && Decode(s[p..t.value]).Some?
            && ParseNodes(s, p, acc) == ParseNodes(s, t.value, acc + [Text(Decode(s[p..t.value]).value)])
  {
    BlankOrNot(s, p);
    hide SkipBlanks, ParseElement, TextEnd, Decode;
  }

  lemma TextFound(s: cstring, p: nat, acc: seq<Node>) returns (w: seq<Chunk>)
    requires p <= |s| && !ParseNodes(s, p, acc).NodesStop?
    requires var q := SkipBlanks(s, p); At(s, q) != '<' && At(s, q) != NUL
    ensures DataOk(w) && Stands(s, p, ChunksText(w)) && ChunksText(w) != []
    ensures var t := p + |ChunksText(w)|;
            t < |s| && s[t] == '<' && ParseNodes(s, p, acc) == ParseNodes(s, t, acc + [Text(ChunksValue(w))])
  {
    hide ParseNodes, Decode, ChunksOk, ChunksText, ChunksValue, SkipBlanks, TextEnd, DataOk;
    TextFurther(s, p, acc);
    var t := TextEnd(s, p, '<').value;
    TextStops(s, p, t);
    w := ChunksFound(s[p..t]);
    ChunksRead(w);
    SliceStands(s, p, t);
    DataIs(w, s[p..t]);
  }

  lemma DataIs(w: seq<Chunk>, t: cstring)
    requires Spells(w, t) && NoNul(t) && Avoids(t, '<') && NotBlank(t)
    ensures DataOk(w)
  {
  }

  lemma TextStops(s: cstring, p: nat, t: nat)
    requires p <= t < |s| && TextEnd(s, p, '<') == Some(t)
    requires var q := SkipBlanks(s, p); At(s, q) != '<' && At(s, q) != NUL
    ensures s[t] == '<' && NoNul(s[p..t]) && Avoids(s[p..t], '<') && NotBlank(s[p..t])
  {
    TextAvoids(s, p, '<');
    BlanksSkipped(s, p);
    BlankOrNot(s, p);
    hide TextEnd, SkipBlanks;
    var q := SkipBlanks(s, p);
    assert q < t;
    assert !IsSpace(s[p..t][q - p]);
  }

  /** The first thing from `p` on is a tag right there. */
  ghost predicate TagFirst(items: seq<Item>, tail: Tail) {
    if items != [] then items[0].Tag? && items[0].open.lead == [] else tail.EndedBy? && tail.close.lead == []
  }

  lemma ListCons(s: cstring, p: nat, i: Item, items: seq<Item>, tail: Tail)
    requires ItemOk(i) && Stands(s, p, ItemText(i)) && Lists(s, p + |ItemText(i)|, items, tail)
    requires i.Data? ==> TagFirst(items, tail)
    ensures Lists(s, p, [i] + items, tail)
  {
    hide ItemText, ItemOk, OpeningOk, Blank, TailText;
    var more := [i] + items;
    assert more[1..] == items;
    assert ItemsText(more) == ItemText(i) + ItemsText(items);
    StandsJoin(s, p, ItemText(i), ItemsText(items) + TailText(tail));
    assert ItemText(i) + (ItemsText(items) + TailText(tail)) == ItemsText(more) + TailText(tail);
    forall k | 0 <= k < |more| - 1 && more[k].Data? ensures more[k + 1].Tag? && more[k + 1].open.lead == [] {
      assert k > 0 ==> more[k] == items[k - 1];
      assert more[k + 1] == items[k];
    }
  }

  lemma EmptyTagIs(o: Opening)
    requires OpeningOk(o)
    ensures var i := Tag(o, Empty); ItemOk(i) && ItemText(i) == o.lead + (Head(o) + Closer(true))
  {
    hide OpeningOk, Head;
  }

  lemma FullTagIs(o: Opening, items: seq<Item>, c: Opening)
    requires OpeningOk(o) && !o.slash && OpeningOk(c) && c.slash && c.name == o.name && ItemsOk(items, c.lead)
    ensures var i := Tag(o, Inside(items, c));
            && ItemOk(i)
            && ItemText(i) == o.lead + ((Head(o) + Closer(false)) + (ItemsText(items) + TailText(EndedBy(c))))
  {
    hide OpeningOk, Head, ItemsText, ItemsOk;
  }

  lemma WithLead(o: Opening, lead: cstring)
    requires OpeningOk(o) && Blank(lead)
    ensures OpeningOk(o.(lead := lead)) && Head(o.(lead := lead)) == Head(o)
  {
  }

  /** A tag, with the blanks in front of it. */
  lemma LedTagFound(s: cstring, p: nat) returns (o: Opening, empty: bool)
    requires p <= |s| && At(s, SkipBlanks(s, p)) == '<' && !ParseElement(s, SkipBlanks(s, p) + 1).ElementStop?
    ensures OpeningOk(o) && o.lead == s[p..SkipBlanks(s, p)]
    ensures var open := o.lead + (Head(o) + Closer(empty)); var next := p + |open|;
            && Stands(s, p, open) && p < next <= |s|
            && ParseElement(s, SkipBlanks(s, p) + 1)
               == Onward(s, o.slash, o.name, AttributesMeaning(o.attrs), empty, next)
  {
    hide SkipBlanks, ParseElement, OpeningOk, Head, Onward, Stands, AttributesMeaning;
    var q := SkipBlanks(s, p);
    var bare;
    bare, empty := OpeningFound(s, q);
    GapIsBlank(s, p);
    WithLead(bare, s[p..q]);
    o := bare.(lead := s[p..q]);
    SliceStands(s, p, q);
    StandsJoin(s, p, o.lead, Head(o) + Closer(empty));
  }

  /** What is inside the element whose tag ends at `e`. */
  lemma OnwardFurther(s: cstring, o: Opening, attrs: seq<Attr>, e: nat)
    requires e <= |s| && Onward(s, o.slash, o.name, attrs, false, e).Whole?
    ensures !o.slash && ParseNodes(s, e, []).Closed? && ParseNodes(s, e, []).name == o.name
    ensures Onward(s, o.slash, o.name, attrs, false, e).next == ParseNodes(s, e, []).next
  {
    hide ParseNodes;
  }

  lemma ClosedTail(s: cstring, p: nat, items: seq<Item>, tail: Tail, acc: seq<Node>)
    requires p <= |s| && Lists(s, p, items, tail) && ParseNodes(s, p, acc).Closed?
    ensures tail.EndedBy? && OpeningOk(tail.close) && tail.close.slash && ItemsOk(items, tail.close.lead)
    ensures var t := ItemsText(items) + TailText(tail);
            Stands(s, p, t) && ParseNodes(s, p, acc).name == tail.close.name && ParseNodes(s, p, acc).next == p + |t|
  {
    hide ParseNodes, OpeningOk, ItemsOk, ItemsText, TailText, Stands, ItemsMeaning, Blank;
    ListRead(s, p, items, tail, acc);
  }

  /** An element, with the blanks in front of it. */
  lemma {:induction false} ElementFound(s: cstring, p: nat) returns (i: Item)
    requires p <= |s| && At(s, SkipBlanks(s, p)) == '<' && ParseElement(s, SkipBlanks(s, p) + 1).Whole?
    ensures i.Tag? && i.open.lead == s[p..SkipBlanks(s, p)] && ItemOk(i) && Stands(s, p, ItemText(i))
    ensures p < p + |ItemText(i)| <= |s| && ParseElement(s, SkipBlanks(s, p) + 1).next == p + |ItemText(i)|
    decreases |s| - p, 0
  {
    hide *;
    var o, empty := LedTagFound(s, p);
    var open := o.lead + (Head(o) + Closer(empty));
    var e := p + |open|;
    if empty {
      EmptyTagIs(o);
      OnwardEmpty(s, o, AttributesMeaning(o.attrs), e);
      i := Tag(o, Empty);
    } else {
      OnwardFurther(s, o, AttributesMeaning(o.attrs), e);
      var items, tail := ListFound(s, e, []);
      ClosedTail(s, e, items, tail, []);
      FullTagIs(o, items, tail.close);
      i := Tag(o, Inside(items, tail.close));
      var inner := ItemsText(items) + TailText(tail);
      StandsJoin(s, p, open, inner);
      assert open + inner == o.lead + ((Head(o) + Closer(false)) + inner);
    }
  }

  lemma OnwardEmpty(s: cstring, o: Opening, attrs: seq<Attr>, e: nat)
    requires e <= |s|
    ensures Onward(s, o.slash, o.name, attrs, true, e) == Whole(Element(o.name, attrs, []), e)
  {
  }

  /** Nothing but blanks is left. */
  lemma NothingFound(s: cstring, p: nat) returns (tail: Tail)
    requires p <= |s| && At(s, SkipBlanks(s, p)) == NUL
    ensures Lists(s, p, [], tail) && At(s, p) != '<'
  {
    BlankOrNot(s, p);
    GapIsBlank(s, p);
    SliceStands(s, p, SkipBlanks(s, p));
    tail := EndOfText(s[p..SkipBlanks(s, p)]);
    assert ItemsText([]) + TailText(tail) == TailText(tail);
  }

  /** An end tag. */
  lemma EndFound(s: cstring, p: nat) returns (tail: Tail)
    requires p <= |s| && At(s, SkipBlanks(s, p)) == '<' && ParseElement(s, SkipBlanks(s, p) + 1).EndTag?
    ensures Lists(s, p, [], tail) && tail.EndedBy? && tail.close.lead == s[p..SkipBlanks(s, p)]
  {
    hide *;
    var o, empty := LedTagFound(s, p);
    OnwardTag(s, o, AttributesMeaning(o.attrs), empty, p + |o.lead + (Head(o) + Closer(empty))|);
    tail := EndedBy(o);
    EndText(o);
    EndLists(s, p, o);
  }

  lemma OnwardTag(s: cstring, o: Opening, attrs: seq<Attr>, empty: bool, e: nat)
    requires e <= |s| && Onward(s, o.slash, o.name, attrs, empty, e).EndTag?
    ensures o.slash && !empty
  {
    hide ParseNodes;
  }

  lemma EndLists(s: cstring, p: nat, o: Opening)
    requires OpeningOk(o) && o.slash && Stands(s, p, TailText(EndedBy(o)))
    ensures Lists(s, p, [], EndedBy(o))
  {
    hide OpeningOk, TailText;
    assert ItemsText([]) + TailText(EndedBy(o)) == TailText(EndedBy(o));
  }

  lemma FurtherKind(s: cstring, acc: seq<Node>, r: ElementResult)
    requires r.Whole? ==> r.next <= |s|
    requires !r.ElementStop?
    ensures r.Whole? ==> Further(s, acc, r) == ParseNodes(s, r.next, acc + [r.node])
    ensures !r.Whole? ==> r.EndTag?
  {
    hide ParseNodes;
  }

  lemma DataFirst(w: seq<Chunk>, s: cstring, p: nat)
    requires DataOk(w) && Stands(s, p, ChunksText(w)) && ChunksText(w) != []
    ensures ItemOk(Data(w)) && ItemText(Data(w)) == ChunksText(w) && At(s, p) != '<'
  {
    StandsAt(s, p, ChunksText(w), 0);
  }

  lemma NoLead(s: cstring, p: nat)
    requires p <= |s| && At(s, p) == '<'
    ensures s[p..SkipBlanks(s, p)] == []
  {
  }

  lemma {:induction false} ListFound(s: cstring, p: nat, acc: seq<Node>) returns (items: seq<Item>, tail: Tail)
    requires p <= |s| && !ParseNodes(s, p, acc).NodesStop?
    ensures Lists(s, p, items, tail)
    ensures At(s, p) == '<' ==> TagFirst(items, tail)
    decreases |s| - p, 1
  {
    hide SkipBlanks, ParseElement, Stands, ItemText, ItemOk, ParseNodes, Lists, Further, DataOk, ChunksText;
    var q := SkipBlanks(s, p);
    if At(s, p) == '<' {
      NoLead(s, p);
    }
    if At(s, q) == NUL {
      items := [];
      tail := NothingFound(s, p);
    } else if At(s, q) == '<' {
      TagFurther(s, p, acc);
      var r := ParseElement(s, q + 1);
      FurtherKind(s, acc, r);
      if r.Whole? {
        var i := ElementFound(s, p);
        var rest;
        rest, tail := ListFound(s, p + |ItemText(i)|, acc + [r.node]);
        items := [i] + rest;
        ListCons(s, p, i, rest, tail);
      } else {
        items := [];
        tail := EndFound(s, p);
      }
    } else {
      var w := TextFound(s, p, acc);
      DataFirst(w, s, p);
      var rest;
      rest, tail := ListFound(s, p + |ChunksText(w)|, acc + [Text(ChunksValue(w))]);
      items := [Data(w)] + rest;
      ListCons(s, p, Data(w), rest, tail);
    }
  }

  // ---------- The language ----------

  /** A document: the text up to its end, or to a stray end tag, is a list of items; and it is not blank. */
  ghost predicate Written(s: cstring, items: seq<Item>, tail: Tail) {
    Lists(s, 0, items, tail) && (items != [] || tail.EndedBy?)
  }

  lemma NothingRead(s: cstring)
    ensures (At(s, 0) == NUL || At(s, SkipBlanks(s, 0)) == NUL) ==> ParseNodes(s, 0, []) == AtEnd([])
    ensures At(s, 0) == NUL ==> At(s, SkipBlanks(s, 0)) == NUL
  {
  }

  lemma MeaningNotEmpty(items: seq<Item>)
    ensures ItemsMeaning(items) == [] ==> items == []
  {
  }

  lemma WrittenNotBlank(s: cstring, items: seq<Item>, tail: Tail)
    requires Written(s, items, tail)
    ensures At(s, 0) != NUL && At(s, SkipBlanks(s, 0)) != NUL
  {
    hide ParseNodes, Lists, ItemsMeaning, SkipBlanks;
    ListRead(s, 0, items, tail, []);
    NothingRead(s);
    MeaningNotEmpty(items);
  }

  lemma BlankList(s: cstring, tail: Tail)
    requires Lists(s, 0, [], tail) && tail.EndOfText?
    ensures At(s, SkipBlanks(s, 0)) == NUL
  {
    assert ItemsText([]) + tail.gap == tail.gap;
    BlankRead(s, 0, tail.gap);
  }

  /** The parser accepts exactly the texts written in this way, and returns exactly the nodes written there; it
      takes exactly the blank texts for empty documents. */
  lemma ParseExactly(s: cstring, nodes: seq<Node>)
    ensures Parse(s) == Parsed(nodes)
       <==> exists items, tail :: Written(s, items, tail) && ItemsMeaning(items) == nodes
    ensures Parse(s) == EmptyDocument <==> exists tail: Tail :: tail.EndOfText? && Lists(s, 0, [], tail)
  {
    hide ParseNodes, Lists, ItemsMeaning, SkipBlanks;
    forall items, tail | Written(s, items, tail) ensures Parse(s) == Parsed(ItemsMeaning(items)) {
      ListRead(s, 0, items, tail, []);
      WrittenNotBlank(s, items, tail);
      assert [] + ItemsMeaning(items) == ItemsMeaning(items);
    }
    forall tail: Tail | tail.EndOfText? && Lists(s, 0, [], tail) ensures Parse(s) == EmptyDocument {
      BlankList(s, tail);
    }
    if Parse(s).Parsed? {
      var items, tail := ListFound(s, 0, []);
      assert Written(s, items, tail);
    } else if Parse(s) == EmptyDocument {
      NothingRead(s);
      var tail := NothingFound(s, 0);
      MeaningNotEmpty([]);
      if tail.EndedBy? {
        WrittenNotBlank(s, [], tail);
      }
    }
  }

  // ---------- Line ends in text and in attribute values ----------

  lemma {:induction false} JoinedAvoids(lines: seq<cstring>, sep: cstring, c: cchar)
    requires AnyLineEnd(sep) && c != '\r' && c != '\n' && forall i :: 0 <= i < |lines| ==> Avoids(lines[i], c)
    ensures Avoids(JoinLines(lines, sep), c)
  {
    if |lines| > 1 {
      JoinedAvoids(lines[1..], sep, c);
    }
  }

  lemma {:induction false} JoinedNotBlank(lines: seq<cstring>, sep: cstring, k: nat)
    requires k < |lines| && NotBlank(lines[k])
    ensures NotBlank(JoinLines(lines, sep))
  {
    var t := JoinLines(lines, sep);
    if k == 0 {
      var i :| 0 <= i < |lines[0]| && !IsSpace(lines[0][i]);
      assert t[i] == lines[0][i];
    } else {
      var rest := JoinLines(lines[1..], sep);
      JoinedNotBlank(lines[1..], sep, k - 1);
      var i :| 0 <= i < |rest| && !IsSpace(rest[i]);
      assert t[|lines[0]| + |sep| + i] == rest[i];
    }
  }

  /** Lines without CR, LF and ampersands, as chunks. */
  lemma JoinedChunks(lines: seq<cstring>, sep: cstring) returns (w: seq<Chunk>)
    requires AnyLineEnd(sep) && forall i :: 0 <= i < |lines| ==> PlainLine(lines[i])
    ensures Spells(w, JoinLines(lines, sep)) && ChunksValue(w) == JoinLines(lines, ['\n'])
  {
    hide *;
    LineEndsRead(lines, sep);
    w := ChunksFound(JoinLines(lines, sep));
    ChunksMean(w, JoinLines(lines, sep));
  }

  lemma ChunksMean(w: seq<Chunk>, s: cstring)
    requires Spells(w, s)
    ensures Decode(s) == Some(ChunksValue(w))
  {
    hide Decode, ChunksOk, ChunksText, ChunksValue;
    ChunksRead(w);
  }

  /** An attribute value of several lines: whichever line end stands between them, it is read with line feeds. */
  lemma LinesInAttribute(s: cstring, p: nat, name: cstring, before: cstring, after: cstring, quote: cchar,
                         lines: seq<cstring>, sep: cstring)
    requires Name(name) && Letter(name[0]) && Blank(before) && Blank(after) && (quote == '"' || quote == '\'')
    requires AnyLineEnd(sep)
    requires forall i :: 0 <= i < |lines| ==>
               PlainLine(lines[i]) && Avoids(lines[i], NUL) && Avoids(lines[i], quote)
    requires Stands(s, p, (name + (before + ['='])) + (after + ([quote] + (JoinLines(lines, sep) + [quote]))))
    ensures ParseAttr(s, p)
         == OneAttr(Attr(name, JoinLines(lines, ['\n'])),
                    p + |name| + |before| + 1 + |after| + 2 + |JoinLines(lines, sep)|)
  {
    var w := JoinedChunks(lines, sep);
    JoinedAvoids(lines, sep, NUL);
    JoinedAvoids(lines, sep, quote);
    hide ParseAttr, JoinLines, ChunksOk, ChunksText, ChunksValue, PlainLine, Name, Blank, Stands;
    AttributeRead(s, p, Attribute([], name, before, after, quote, w));
  }

  /** Text of several lines between tags. */
  lemma LinesInText(s: cstring, p: nat, lines: seq<cstring>, sep: cstring, k: nat, acc: seq<Node>)
    requires AnyLineEnd(sep) && k < |lines| && NotBlank(lines[k])
    requires forall i :: 0 <= i < |lines| ==> PlainLine(lines[i]) && Avoids(lines[i], NUL) && Avoids(lines[i], '<')
    requires Stands(s, p, JoinLines(lines, sep))
    requires var q := p + |JoinLines(lines, sep)|; q < |s| && s[q] == '<' && At(s, q + 1) != NUL
    ensures ParseNodes(s, p, acc)
         == ParseNodes(s, p + |JoinLines(lines, sep)|, acc + [Text(JoinLines(lines, ['\n']))])
  {
    var w := JoinedChunks(lines, sep);
    JoinedAvoids(lines, sep, NUL);
    JoinedAvoids(lines, sep, '<');
    JoinedNotBlank(lines, sep, k);
    hide ParseNodes, JoinLines, ChunksOk, ChunksText, ChunksValue, PlainLine, Stands;
    DataRead(s, p, w, acc);
  }
}
