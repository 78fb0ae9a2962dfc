/** The language of sdssplitargs (sds.c:808-943), told without its reader: which lines it accepts, and what it
    makes of each. */
module QuotingGrammar {
  import opened CStrings
  import opened Quoting
  import opened Wrappers

  // ---------- Between quotes ----------

  datatype Item = Byte(c: cchar) | Escaped(c: cchar) | Hex(hi: cchar, lo: cchar)

  function ItemText(i: Item): cstring {
    match i
    case Byte(c) => [c]
    case Escaped(c) => ['\\', c]
    case Hex(hi, lo) => ['\\', 'x', hi, lo]
  }

  function ItemValue(i: Item): cchar {
    match i
    case Byte(c) => c
    case Escaped(c) =>
      if c == 'n' then 10 as char
      else if c == 'r' then 13 as char
      else if c == 't' then 9 as char
      else if c == 'b' then 8 as char
      else if c == 'a' then 7 as char
      else c
    case Hex(hi, lo) => (HexValue(hi) * 16 + HexValue(lo)) as char
  }

  const HEX_DIGITS := "0123456789abcdef"
  const HEX_CAPITALS := "0123456789ABCDEF"

  /** Hexadecimal digits, in either case, and their values. */
  lemma HexTable(c: cchar, v: nat)
    requires v < 16
    ensures IsHexDigit(c) && HexValue(c) == v <==> c == HEX_DIGITS[v] || c == HEX_CAPITALS[v]
  {
  }

  predicate HexPairAhead(rest: cstring) {
    |rest| >= 2 && IsHexDigit(rest[0]) && IsHexDigit(rest[1])
  }

  /** What may be written between quotes of the kind `q`, with `rest` behind it. */
  predicate ItemOk(q: cchar, i: Item, rest: cstring) {
    match i
    case Byte(c) =>
      if q == '"' then c != '"' && c != '\\' && c != NUL
      else c != '\'' && c != NUL && !(c == '\\' && rest != [] && rest[0] == '\'')
    case Escaped(c) =>
      if q == '"' then c != NUL && !(c == 'x' && HexPairAhead(rest)) else c == '\''
    case Hex(hi, lo) => q == '"' && IsHexDigit(hi) && IsHexDigit(lo)
  }

  function ItemsText(items: seq<Item>): cstring {
    if items == [] then [] else ItemText(items[0]) + ItemsText(items[1..])
  }

  function ItemsValue(items: seq<Item>): cstring {
    if items == [] then [] else [ItemValue(items[0])] + ItemsValue(items[1..])
  }

  predicate ItemsOk(q: cchar, items: seq<Item>) {
    items == [] || (ItemOk(q, items[0], ItemsText(items[1..]) + [q]) && ItemsOk(q, items[1..]))
  }

  // ---------- Arguments and lines ----------

  datatype Quote = Unquoted | InQuotes(q: cchar, items: seq<Item>)

  /** An argument: bare characters, and then perhaps a quoted part, which ends it. */
  datatype Form = Form(bare: cstring, quote: Quote)

  function FormText(f: Form): cstring {
    f.bare + match f.quote case Unquoted => [] case InQuotes(q, items) => [q] + ItemsText(items) + [q]
  }

  function FormValue(f: Form): cstring {
    f.bare + match f.quote case Unquoted => [] case InQuotes(_, items) => ItemsValue(items)
  }

  predicate QuoteOk(quote: Quote) {
    match quote
    case Unquoted => true
    case InQuotes(q, items) => (q == '"' || q == '\'') && ItemsOk(q, items)
  }

  ghost predicate FormOk(f: Form) {
    && QuoteOk(f.quote)
    && (forall i :: 0 <= i < |f.bare| ==> BareChar(f.bare[i]))
    && (f.quote.Unquoted? ==> f.bare != [])
    && (f.bare != [] ==> f.bare[0] != VTAB && f.bare[0] != FORMFEED)
  }

  predicate Ends(quote: Quote, c: cchar) {
    if quote.Unquoted? then c == ' ' || c == '\t' || c == '\n' || c == '\r' else c as int == 32 || 9 <= c as int <= 13
  }

  datatype Segment = Segment(form: Form, gap: cstring)

  ghost predicate SegmentOk(s: Segment, last: bool) {
    FormOk(s.form) && Gap(s.gap) && (if s.gap == [] then last else Ends(s.form.quote, s.gap[0]))
  }

  /** A line: white space, and arguments with white space behind them, which only the last may lack. */
  datatype Line = Line(lead: cstring, segments: seq<Segment>)

  ghost predicate SegmentsOk(segments: seq<Segment>) {
    forall i :: 0 <= i < |segments| ==> SegmentOk(segments[i], i == |segments| - 1)
  }

  function SegmentsText(segments: seq<Segment>): cstring {
    if segments == [] then []
    else FormText(segments[0].form) + segments[0].gap + SegmentsText(segments[1..])
  }

  function SegmentsValues(segments: seq<Segment>): seq<cstring> {
    seq(|segments|, i requires 0 <= i < |segments| => FormValue(segments[i].form))
  }

  /** From `p` to its end the line is what `w` says. */
  ghost predicate Writes(line: cstring, p: nat, w: Line) {
    && Gap(w.lead) && SegmentsOk(w.segments)
    && Stands(line, p, w.lead + SegmentsText(w.segments))
    && At(line, p + |w.lead + SegmentsText(w.segments)|) == NUL
  }

  // ---------- What is in the language is read ----------

  function ModeOf(q: cchar): Mode {
    if q == '"' then InDouble else InSingle
  }

  lemma ItemRead(line: cstring, p: nat, q: cchar, i: Item, rest: cstring, current: cstring)
    requires (q == '"' || q == '\'') && rest != [] && (rest == [q] || |rest| >= 2) && ItemOk(q, i, rest)
    requires Stands(line, p, ItemText(i) + rest)
    ensures ReadToken(line, p, ModeOf(q), current)
         == ReadToken(line, p + |ItemText(i)|, ModeOf(q), current + [ItemValue(i)])
  {
    var t := ItemText(i);
    StandsSplit(line, p, t, rest);
    StandsAt(line, p, t, 0);
    StandsAt(line, p + |t|, rest, 0);
    if |rest| >= 2 {
      StandsAt(line, p + |t|, rest, 1);
    }
    if |t| > 1 {
      StandsAt(line, p, t, 1);
    }
    if |t| == 4 {
      StandsAt(line, p, t, 2);
      StandsAt(line, p, t, 3);
    }
  }

  lemma QuoteEnds(line: cstring, p: nat, q: cchar, current: cstring)
    requires (q == '"' || q == '\'') && p < |line| && line[p] == q
    ensures ReadToken(line, p, ModeOf(q), current) == if MayEnd(line, p + 1) then Some((current, p + 1)) else None
  {
  }

  lemma {:induction false} ItemsRead(line: cstring, p: nat, q: cchar, items: seq<Item>, current: cstring)
    requires (q == '"' || q == '\'') && ItemsOk(q, items)
    requires Stands(line, p, ItemsText(items) + [q]) && MayEnd(line, p + |ItemsText(items)| + 1)
    ensures ReadToken(line, p, ModeOf(q), current)
         == Some((current + ItemsValue(items), p + |ItemsText(items)| + 1))
    decreases |items|
  {
    hide ReadToken, ItemOk, ItemText, ItemValue;
    if items == [] {
      assert ItemsText(items) + [q] == [q];
      StandsAt(line, p, [q], 0);
      QuoteEnds(line, p, q, current);
      assert current + ItemsValue(items) == current;
    } else {
      var t, rest := ItemText(items[0]), ItemsText(items[1..]) + [q];
      assert ItemsText(items) + [q] == t + rest;
      assert ItemsText(items[1..]) == [] ==> rest == [q];
      ItemRead(line, p, q, items[0], rest, current);
      StandsSplit(line, p, t, rest);
      ItemsRead(line, p + |t|, q, items[1..], current + [ItemValue(items[0])]);
      assert current + [ItemValue(items[0])] + ItemsValue(items[1..]) == current + ItemsValue(items);
    }
  }

  /** The character behind an argument, or the end of the line. */
  predicate EndsAt(line: cstring, p: nat, quote: Quote)
    requires p <= |line|
  {
    At(line, p) == NUL || Ends(quote, At(line, p))
  }

  /** Reading goes on behind the character that ends a bare argument. */
  function Onward(line: cstring, p: nat, quote: Quote): nat
    requires p <= |line|
  {
    if quote.Unquoted? && At(line, p) != NUL then p + 1 else p
  }

  lemma QuoteRead(line: cstring, p: nat, q: cchar, items: seq<Item>, current: cstring)
    requires QuoteOk(InQuotes(q, items))
    requires Stands(line, p, [q] + ItemsText(items) + [q]) && MayEnd(line, p + |ItemsText(items)| + 2)
    ensures ReadToken(line, p, Plain, current)
         == Some((current + ItemsValue(items), p + |ItemsText(items)| + 2))
  {
    var inner := ItemsText(items) + [q];
    assert [q] + ItemsText(items) + [q] == [q] + inner;
    StandsSplit(line, p, [q], inner);
    StandsAt(line, p, [q], 0);
    ItemsRead(line, p + 1, q, items, current);
  }

  lemma FormRead(line: cstring, p: nat, f: Form)
    requires FormOk(f) && Stands(line, p, FormText(f)) && EndsAt(line, p + |FormText(f)|, f.quote)
    ensures !IsSpace(At(line, p)) && At(line, p) != NUL
    ensures var e := p + |FormText(f)|; ReadToken(line, p, Plain, []) == Some((FormValue(f), Onward(line, e, f.quote)))
  {
    hide ReadToken, ItemsText, ItemsValue, ItemsOk;
    StandsAt(line, p, FormText(f), 0);
    assert f.bare != [] ==> BareChar(f.bare[0]);
    match f.quote
    case Unquoted =>
      assert FormText(f) == f.bare && FormValue(f) == [] + f.bare;
      ReadBare(line, p, f.bare, []);
      ReadPlainEnd(line, p + |f.bare|, [] + f.bare);
    case InQuotes(q, items) =>
      var quoted := [q] + ItemsText(items) + [q];
      StandsSplit(line, p, f.bare, quoted);
      ReadBare(line, p, f.bare, []);
      QuoteRead(line, p + |f.bare|, q, items, [] + f.bare);
      assert [] + f.bare + ItemsValue(items) == FormValue(f);
  }

  function Cons(token: cstring, rest: Option<seq<cstring>>): Option<seq<cstring>> {
    match rest case None => None case Some(tokens) => Some([token] + tokens)
  }

  lemma ArgsCons(line: cstring, p: nat, token: cstring, next: nat)
    requires p <= |line| && !IsSpace(At(line, p)) && At(line, p) != NUL
    requires ReadToken(line, p, Plain, []) == Some((token, next))
    ensures next <= |line| && ArgsFrom(line, p) == Cons(token, ArgsFrom(line, next))
  {
    hide ReadToken;
  }

  /** The gap behind an argument is skipped, the character that ended it included. */
  lemma GapRead(line: cstring, e: nat, quote: Quote, gap: cstring)
    requires Stands(line, e, gap) && Gap(gap) && (if gap == [] then At(line, e) == NUL else Ends(quote, gap[0]))
    ensures EndsAt(line, e, quote) && ArgsFrom(line, Onward(line, e, quote)) == ArgsFrom(line, e + |gap|)
  {
    hide ArgsFrom;
    SkipGap(line, e, gap);
    if gap != [] {
      StandsAt(line, e, gap, 0);
      assert gap == [gap[0]] + gap[1..];
      StandsSplit(line, e, [gap[0]], gap[1..]);
      SkipGap(line, e + 1, gap[1..]);
    }
  }

  lemma SegmentRead(line: cstring, p: nat, s: Segment)
    requires SegmentOk(s, true) && Stands(line, p, FormText(s.form) + s.gap)
    requires s.gap == [] ==> At(line, p + |FormText(s.form)|) == NUL
    ensures ArgsFrom(line, p) == Cons(FormValue(s.form), ArgsFrom(line, p + |FormText(s.form)| + |s.gap|))
  {
    hide ReadToken, FormOk, FormText, FormValue, ArgsFrom, Gap, Ends;
    var t := FormText(s.form);
    StandsSplit(line, p, t, s.gap);
    GapRead(line, p + |t|, s.form.quote, s.gap);
    FormRead(line, p, s.form);
    ArgsCons(line, p, FormValue(s.form), Onward(line, p + |t|, s.form.quote));
  }

  lemma {:induction false} SegmentsRead(line: cstring, p: nat, segments: seq<Segment>)
    requires SegmentsOk(segments) && Stands(line, p, SegmentsText(segments))
    requires At(line, p + |SegmentsText(segments)|) == NUL
    ensures ArgsFrom(line, p) == Some(SegmentsValues(segments))
    decreases |segments|
  {
    hide ReadToken, FormOk, FormText, FormValue;
    if segments == [] {
      assert SegmentsValues(segments) == [];
    } else {
      var s, rest := segments[0], segments[1..];
      StandsSplit(line, p, FormText(s.form) + s.gap, SegmentsText(rest));
      assert SegmentOk(s, rest == []);
      assert s.gap == [] ==> rest == [] && SegmentsText(rest) == [];
      SegmentRead(line, p, s);
      assert SegmentsOk(rest);
      SegmentsRead(line, p + |FormText(s.form)| + |s.gap|, rest);
      assert SegmentsValues(segments) == [FormValue(s.form)] + SegmentsValues(rest);
    }
  }

  // ---------- What is read is in the language ----------

  lemma StandsCons(line: cstring, p: nat, t: cstring, u: cstring)
    requires Stands(line, p, t) && Stands(line, p + |t|, u)
    ensures Stands(line, p, t + u)
  {
    assert line[p..p + |t + u|] == line[p..p + |t|] + line[p + |t|..p + |t| + |u|];
  }

  /** The item that the reader sees at `p`, if it does not see the closing quote. */
  function ItemAt(line: cstring, p: nat, q: cchar): Item
    requires p < |line|
  {
    if q == '"' && AtHexEscape(line, p) then Hex(line[p + 2], line[p + 3])
    else if q == '"' && AtEscape(line, p) then Escaped(line[p + 1])
    else if q == '\'' && line[p] == '\\' && At(line, p + 1) == '\'' then Escaped('\'')
    else Byte(line[p])
  }

  lemma ItemFound(line: cstring, p: nat, q: cchar, current: cstring) returns (i: Item)
    requires (q == '"' || q == '\'') && p <= |line| && At(line, p) != q
    requires ReadToken(line, p, ModeOf(q), current).Some?
    ensures Stands(line, p, ItemText(i)) && ItemText(i) != []
    ensures forall rest :: Stands(line, p + |ItemText(i)|, rest + [q]) ==> ItemOk(q, i, rest + [q])
    ensures ReadToken(line, p, ModeOf(q), current)
         == ReadToken(line, p + |ItemText(i)|, ModeOf(q), current + [ItemValue(i)])
  {
    i := ItemAt(line, p, q);
    assert line[p..p + 1] == [line[p]];
    assert Stands(line, p, ItemText(i));
    var t := ItemText(i);
    forall rest | Stands(line, p + |t|, rest + [q]) ensures ItemOk(q, i, rest + [q]) {
      StandsAt(line, p + |t|, rest + [q], 0);
      if rest != [] {
        StandsAt(line, p + |t|, rest + [q], 1);
      }
    }
  }

  lemma {:induction false} ItemsFound(line: cstring, p: nat, q: cchar, current: cstring) returns (items: seq<Item>)
    requires (q == '"' || q == '\'') && p <= |line| && ReadToken(line, p, ModeOf(q), current).Some?
    ensures ItemsOk(q, items) && Stands(line, p, ItemsText(items) + [q])
    ensures MayEnd(line, p + |ItemsText(items)| + 1)
    ensures ReadToken(line, p, ModeOf(q), current)
         == Some((current + ItemsValue(items), p + |ItemsText(items)| + 1))
    decreases |line| - p
  {
    hide ReadToken, ItemOk, ItemValue, ItemText;
    if At(line, p) == q {
      items := [];
      assert ItemsText(items) + [q] == line[p..p + 1];
      QuoteEnds(line, p, q, current);
      assert current + ItemsValue(items) == current;
    } else {
      var i := ItemFound(line, p, q, current);
      var t := ItemText(i);
      var rest := ItemsFound(line, p + |t|, q, current + [ItemValue(i)]);
      items := [i] + rest;
      assert items[1..] == rest;
      StandsCons(line, p, t, ItemsText(rest) + [q]);
      assert t + (ItemsText(rest) + [q]) == ItemsText(items) + [q];
      assert current + [ItemValue(i)] + ItemsValue(rest) == current + ItemsValue(items);
    }
  }

  lemma QuoteFound(line: cstring, p: nat, current: cstring) returns (quote: Quote)
    requires p < |line| && (line[p] == '"' || line[p] == '\'') && ReadToken(line, p, Plain, current).Some?
    ensures QuoteOk(quote) && quote.InQuotes? && Stands(line, p, FormText(Form([], quote)))
    ensures var e := p + |FormText(Form([], quote))|;
            EndsAt(line, e, quote) && ReadToken(line, p, Plain, current) == Some((current + ItemsValue(quote.items), e))
  {
    hide ItemsText, ItemsValue, ItemsOk;
    var q := line[p];
    assert ReadToken(line, p, Plain, current) == ReadToken(line, p + 1, ModeOf(q), current);
    hide ReadToken;
    var items := ItemsFound(line, p + 1, q, current);
    quote := InQuotes(q, items);
    assert line[p..p + 1] == [q];
    StandsCons(line, p, [q], ItemsText(items) + [q]);
    assert [q] + (ItemsText(items) + [q]) == FormText(Form([], quote));
  }

  lemma PlainStep(line: cstring, p: nat, current: cstring)
    requires p <= |line| && BareChar(At(line, p))
    ensures ReadToken(line, p, Plain, current) == ReadToken(line, p + 1, Plain, current + [At(line, p)])
  {
  }

  /** The rest of an argument: all of it is found, but it may be nothing. */
  lemma {:induction false} FormFound(line: cstring, p: nat, current: cstring) returns (f: Form)
    requires p <= |line| && ReadToken(line, p, Plain, current).Some?
    ensures QuoteOk(f.quote) && (forall i :: 0 <= i < |f.bare| ==> BareChar(f.bare[i]))
    ensures Stands(line, p, FormText(f)) && EndsAt(line, p + |FormText(f)|, f.quote)
    ensures var e := p + |FormText(f)|;
            ReadToken(line, p, Plain, current) == Some((current + FormValue(f), Onward(line, e, f.quote)))
    decreases |line| - p
  {
    hide ReadToken, ItemsText, ItemsValue, ItemsOk;
    if EndsPlain(At(line, p)) {
      f := Form([], Unquoted);
      assert FormText(f) == [] && FormValue(f) == [] && current + [] == current;
      ReadPlainEnd(line, p, current);
    } else if At(line, p) == '"' || At(line, p) == '\'' {
      var quote := QuoteFound(line, p, current);
      f := Form([], quote);
      assert FormValue(f) == ItemsValue(quote.items);
    } else {
      var c := line[p];
      PlainStep(line, p, current);
      var rest := FormFound(line, p + 1, current + [c]);
      f := Form([c] + rest.bare, rest.quote);
      assert FormText(f) == [c] + FormText(rest) && FormValue(f) == [c] + FormValue(rest);
      assert line[p..p + 1] == [c];
      StandsCons(line, p, [c], FormText(rest));
      assert current + [c] + FormValue(rest) == current + FormValue(f);
    }
  }

  lemma {:induction false} BlanksAreGap(line: cstring, p: nat)
    requires p <= |line|
    ensures Gap(line[p..SkipBlanks(line, p)])
    decreases |line| - p
  {
    if IsSpace(At(line, p)) {
      BlanksAreGap(line, p + 1);
      assert line[p..SkipBlanks(line, p)] == [line[p]] + line[p + 1..SkipBlanks(line, p)];
    }
  }

  /** An argument where the reader starts one. */
  lemma ArgumentFound(line: cstring, p: nat) returns (f: Form)
    requires p <= |line| && At(line, p) != NUL && !IsSpace(At(line, p)) && ReadToken(line, p, Plain, []).Some?
    ensures FormOk(f) && Stands(line, p, FormText(f)) && EndsAt(line, p + |FormText(f)|, f.quote)
    ensures var e := p + |FormText(f)|; ReadToken(line, p, Plain, []) == Some((FormValue(f), Onward(line, e, f.quote)))
  {
    hide ReadToken, ItemsText, ItemsValue, ItemsOk;
    f := FormFound(line, p, []);
    assert [] + FormValue(f) == FormValue(f);
    if FormText(f) != [] {
      StandsAt(line, p, FormText(f), 0);
    }
  }

  /** White space from `p` on belongs to the gap behind the argument that ended there. */
  lemma GapFound(line: cstring, e: nat, quote: Quote, w: Line) returns (gap: cstring)
    requires e <= |line| && EndsAt(line, e, quote) && Writes(line, Onward(line, e, quote), w)
    requires w.lead == line[Onward(line, e, quote)..SkipBlanks(line, Onward(line, e, quote))]
    ensures Gap(gap) && Stands(line, e, gap + SegmentsText(w.segments))
    ensures At(line, e + |gap + SegmentsText(w.segments)|) == NUL
    ensures if gap == [] then At(line, e) == NUL else Ends(quote, gap[0])
  {
    hide SegmentsOk, SegmentsText;
    var t := SegmentsText(w.segments);
    if Onward(line, e, quote) == e {
      gap := w.lead;
      if At(line, e) != NUL {
        assert gap != [] && gap[0] == line[e];
      }
    } else {
      gap := [line[e]] + w.lead;
      assert line[e..e + 1] == [line[e]];
      StandsCons(line, e, [line[e]], w.lead + t);
      assert [line[e]] + (w.lead + t) == gap + t;
    }
  }

  /** One more argument in front. */
  lemma SegmentsCons(line: cstring, q: nat, s: Segment, segments: seq<Segment>)
    requires FormOk(s.form) && Gap(s.gap) && SegmentsOk(segments)
    requires if s.gap == [] then segments == [] else Ends(s.form.quote, s.gap[0])
    requires Stands(line, q, FormText(s.form)) && Stands(line, q + |FormText(s.form)|, s.gap + SegmentsText(segments))
    ensures var more := [s] + segments;
            && SegmentsOk(more) && Stands(line, q, SegmentsText(more))
            && |SegmentsText(more)| == |FormText(s.form)| + |s.gap + SegmentsText(segments)|
            && SegmentsValues(more) == [FormValue(s.form)] + SegmentsValues(segments)
  {
    hide FormOk, FormText, FormValue, Gap, Ends;
    var more := [s] + segments;
    assert more[1..] == segments;
    var t := SegmentsText(segments);
    StandsCons(line, q, FormText(s.form), s.gap + t);
    assert FormText(s.form) + (s.gap + t) == SegmentsText(more);
  }

  lemma BlanksThenArgs(line: cstring, p: nat)
    requires p <= |line|
    ensures ArgsFrom(line, p) == ArgsFrom(line, SkipBlanks(line, p))
  {
  }

  /** `w` is the line from `p` on, and is what the reader makes of it. */
  ghost predicate Found(line: cstring, p: nat, w: Line)
    requires p <= |line|
  {
    && Writes(line, p, w) && w.lead == line[p..SkipBlanks(line, p)]
    && ArgsFrom(line, p) == Some(SegmentsValues(w.segments))
    && (At(line, p) == NUL ==> w.segments == [])
  }

  lemma NothingFound(line: cstring, p: nat) returns (w: Line)
    requires p <= |line| && At(line, SkipBlanks(line, p)) == NUL
    ensures Found(line, p, w)
  {
    hide ReadToken, Gap;
    BlanksAreGap(line, p);
    w := Line(line[p..SkipBlanks(line, p)], []);
    assert w.lead + SegmentsText([]) == w.lead && SegmentsValues([]) == [];
  }

  /** One argument was found, and the rest of the line behind it. */
  lemma MoreFound(line: cstring, p: nat, f: Form, rest: Line) returns (w: Line)
    requires p <= |line| && At(line, SkipBlanks(line, p)) != NUL
    requires var q := SkipBlanks(line, p); var e := q + |FormText(f)|;
             && FormOk(f) && Stands(line, q, FormText(f)) && EndsAt(line, e, f.quote)
             && ReadToken(line, q, Plain, []) == Some((FormValue(f), Onward(line, e, f.quote)))
             && Found(line, Onward(line, e, f.quote), rest)
    ensures Found(line, p, w)
  {
    hide ReadToken, FormOk, FormText, FormValue, Gap, Ends, SegmentsText, SegmentsValues, SegmentsOk;
    var q := SkipBlanks(line, p);
    var e := q + |FormText(f)|;
    BlanksAreGap(line, p);
    BlanksThenArgs(line, p);
    ArgsCons(line, q, FormValue(f), Onward(line, e, f.quote));
    hide ArgsFrom;
    var gap := GapFound(line, e, f.quote, rest);
    SegmentsCons(line, q, Segment(f, gap), rest.segments);
    var segments := [Segment(f, gap)] + rest.segments;
    w := Line(line[p..q], segments);
    StandsCons(line, p, w.lead, SegmentsText(segments));
  }

  lemma {:induction false} LineFound(line: cstring, p: nat) returns (w: Line)
    requires p <= |line| && ArgsFrom(line, p).Some?
    ensures Found(line, p, w)
    decreases |line| - p
  {
    hide ReadToken, FormOk, FormText, FormValue, Found, Ends;
    if At(line, SkipBlanks(line, p)) == NUL {
      w := NothingFound(line, p);
    } else {
      var q := SkipBlanks(line, p);
      BlanksThenArgs(line, p);
      var f := ArgumentFound(line, q);
      var next := Onward(line, q + |FormText(f)|, f.quote);
      ArgsCons(line, q, FormValue(f), next);
      var rest := LineFound(line, next);
      w := MoreFound(line, p, f, rest);
    }
  }

  // ---------- The language ----------

  /** sdssplitargs accepts exactly the lines of this form, and returns exactly the values written there. */
  lemma SplitArgsExactly(line: cstring, values: seq<cstring>)
    ensures SplitArgs(line) == Some(values)
       <==> exists w: Line :: Writes(line, 0, w) && SegmentsValues(w.segments) == values
    ensures SplitArgs(line) == None <==> !exists w: Line :: Writes(line, 0, w)
  {
    hide SegmentsText, SegmentsValues, SegmentsOk;
    forall w: Line | Writes(line, 0, w) ensures SplitArgs(line) == Some(SegmentsValues(w.segments)) {
      StandsSplit(line, 0, w.lead, SegmentsText(w.segments));
      SkipGap(line, 0, w.lead);
      SegmentsRead(line, |w.lead|, w.segments);
    }
    if SplitArgs(line).Some? {
      var w := LineFound(line, 0);
      assert Writes(line, 0, w);
    }
  }

  // ---------- What the printer chooses ----------

  /** How sdscatrepr writes a byte: as an item that the reader takes for that byte. */
  function Chosen(c: cchar): (i: Item)
    ensures ItemText(i) == ReprChar(c) && ItemValue(i) == c && ItemOk('"', i, ['"'])
    ensures forall k :: 0 <= k < |ItemText(i)| ==> ' ' <= ItemText(i)[k] <= '~'
  {
    var t := ReprChar(c);
    if |t| == 1 then Byte(c)
    else if |t| == 2 then Escaped(t[1])
    else
      assert c as int == c as int / 16 * 16 + c as int % 16;
      Hex(t[2], t[3])
  }

  /** No other way of writing it in printable characters is shorter, and one as long differs in nothing but capital
      hexadecimal digits. */
  lemma ReprShortest(c: cchar, i: Item)
    requires ItemValue(i) == c && ItemOk('"', i, ['"'])
    requires forall k :: 0 <= k < |ItemText(i)| ==> ' ' <= ItemText(i)[k] <= '~'
    ensures |ReprChar(c)| <= |ItemText(i)|
    ensures |ReprChar(c)| == |ItemText(i)| ==> ReprChar(c) == if i.Hex? then Lower(ItemText(i)) else ItemText(i)
  {
    var t := ItemText(i);
    match i
    case Byte(b) => assert t[0] == b;
    case Escaped(b) => assert t[1] == b;
    case Hex(hi, lo) =>
      HexOf(hi);
      HexOf(lo);
      assert c as int / 16 == HexValue(hi) && c as int % 16 == HexValue(lo);
  }

  lemma HexOf(c: cchar)
    requires IsHexDigit(c)
    ensures HexDigit(HexValue(c)) == ToLower(c)
  {
  }
}
