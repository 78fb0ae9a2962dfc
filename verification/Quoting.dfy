/** sdscatrepr and sdssplitargs of sds.c: the printer and the parser of quoted arguments. */
module Quoting {
  import opened CStrings
  import opened SdsStrings
  import opened Wrappers

  // ---------- The printer ----------

  function ReprChar(c: cchar): (r: cstring)
    ensures |r| >= 1
  {
    if c == '\\' || c == '"' then ['\\', c]
    else if c == '\n' then ['\\', 'n']
    else if c == '\r' then ['\\', 'r']
    else if c == '\t' then ['\\', 't']
    else if c == BELL then ['\\', 'a']
    else if c == BACKSPACE then ['\\', 'b']
    else if IsPrint(c) then [c]
    else ['\\', 'x', HexDigit(c as int / 16), HexDigit(c as int % 16)]
  }

  function ReprBody(s: cstring): cstring {
    if s == [] then [] else ReprChar(s[0]) + ReprBody(s[1..])
  }

  function Repr(s: cstring): cstring {
    ['"'] + ReprBody(s) + ['"']
  }

  lemma {:induction false} ReprBodySnoc(s: cstring, c: cchar)
    ensures ReprBody(s + [c]) == ReprBody(s) + ReprChar(c)
  {
    hide ReprChar;
    if s == [] {
      assert s + [c] == [c];
      assert ReprBody([c]) == ReprChar(c) + ReprBody([c][1..]);
    } else {
      ReprBodySnoc(s[1..], c);
      assert (s + [c])[1..] == s[1..] + [c];
    }
  }

  /** The switch of sdscatrepr. */
  method CatReprChar(s: Sds, c: cchar)
    requires s.Valid()
    modifies s, s.buf
    ensures s.Valid() && (s.buf == old(s.buf) || fresh(s.buf))
    ensures s.Contents() == old(s.Contents()) + ReprChar(c)
  {
    hide Sds.Valid;
    if c == '\\' || c == '"' {
      s.CatLen(['\\', c]);
    } else if c == '\n' {
      s.CatLen(['\\', 'n']);
    } else if c == '\r' {
      s.CatLen(['\\', 'r']);
    } else if c == '\t' {
      s.CatLen(['\\', 't']);
    } else if c == BELL {
      s.CatLen(['\\', 'a']);
    } else if c == BACKSPACE {
      s.CatLen(['\\', 'b']);
    } else if IsPrint(c) {
      s.CatLen([c]);
    } else {
      s.CatLen(['\\', 'x', HexDigit(c as int / 16), HexDigit(c as int % 16)]);
    }
  }

  /** sdscatrepr: one escape per iteration, appended to what the string already holds. */
  method CatRepr(s: Sds, p: cstring)
    requires s.Valid()
    modifies s, s.buf
    ensures s.Valid() && (s.buf == old(s.buf) || fresh(s.buf))
    ensures s.Contents() == old(s.Contents()) + Repr(p)
  {
    hide ReprBody, ReprChar, Sds.Valid;
    ReprBodyNil();
    ghost var before := s.Contents();
    s.CatLen(['"']);
    for i := 0 to |p|
      invariant s.Valid() && (s.buf == old(s.buf) || fresh(s.buf))
      invariant s.Contents() == before + (['"'] + ReprBody(p[..i]))
    {
      assert p[..i + 1] == p[..i] + [p[i]];
      ReprBodySnoc(p[..i], p[i]);
      CatReprChar(s, p[i]);
    }
    assert p[..|p|] == p;
    s.CatLen(['"']);
  }

  lemma ReprBodyNil()
    ensures ReprBody([]) == []
  {
  }

  // ---------- The parser ----------

  datatype Mode = Plain | InDouble | InSingle

  function Unescape(c: cchar): cchar {
    if c == 'n' then '\n'
    else if c == 'r' then '\r'
    else if c == 't' then '\t'
    else if c == 'b' then BACKSPACE
    else if c == 'a' then BELL
    else c
  }

  function HexPair(hi: cchar, lo: cchar): cchar {
    (HexValue(hi) * 16 + HexValue(lo)) as char
  }

  predicate AtHexEscape(line: cstring, p: nat)
    requires p <= |line|
    ensures AtHexEscape(line, p) ==> p + 4 <= |line|
  {
    At(line, p) == '\\' && At(line, p + 1) == 'x' && IsHexDigit(At(line, p + 2)) && IsHexDigit(At(line, p + 3))
  }

  predicate AtEscape(line: cstring, p: nat)
    requires p <= |line|
    ensures AtEscape(line, p) ==> p + 2 <= |line|
  {
    At(line, p) == '\\' && At(line, p + 1) != NUL
  }

  /** A closing quote must be followed by a space or by nothing at all. */
  predicate MayEnd(line: cstring, p: nat)
    requires p <= |line|
  {
    At(line, p) == NUL || IsSpace(At(line, p))
  }

  predicate EndsPlain(c: cchar) {
    c == ' ' || c == '\n' || c == '\r' || c == '\t' || c == NUL
  }

  /** Reads the rest of a token from `p` on; None for unbalanced quotes. */
  function ReadToken(line: cstring, p: nat, mode: Mode, current: cstring): (r: Option<(cstring, nat)>)
    requires p <= |line|
    ensures r.Some? ==> p <= r.value.1 <= |line|
    ensures r.Some? && At(line, p) != NUL ==> p < r.value.1
    decreases |line| - p
  {
    var c := At(line, p);
    match mode
    case InDouble =>
      if AtHexEscape(line, p) then
        ReadToken(line, p + 4, InDouble, current + [HexPair(At(line, p + 2), At(line, p + 3))])
      else if AtEscape(line, p) then
        ReadToken(line, p + 2, InDouble, current + [Unescape(At(line, p + 1))])
      else if c == '"' then
        if MayEnd(line, p + 1) then Some((current, p + 1)) else None
      else if c == NUL then None
      else ReadToken(line, p + 1, InDouble, current + [c])
    case InSingle =>
      if c == '\\' && At(line, p + 1) == '\'' then
        ReadToken(line, p + 2, InSingle, current + ['\''])
      else if c == '\'' then
        if MayEnd(line, p + 1) then Some((current, p + 1)) else None
      else if c == NUL then None
      else ReadToken(line, p + 1, InSingle, current + [c])
    case Plain =>
      if EndsPlain(c) then Some((current, if c == NUL then p else p + 1))
      else if c == '"' then ReadToken(line, p + 1, InDouble, current)
      else if c == '\'' then ReadToken(line, p + 1, InSingle, current)
      else ReadToken(line, p + 1, Plain, current + [c])
  }

  /** The arguments from position `p` to the end of the line. */
  function ArgsFrom(line: cstring, p: nat): Option<seq<cstring>>
    requires p <= |line|
    decreases |line| - p
  {
    var q := SkipBlanks(line, p);
    if At(line, q) == NUL then Some([])
    else
      match ReadToken(line, q, Plain, [])
      case None => None
      case Some((token, next)) =>
        match ArgsFrom(line, next)
        case None => None
        case Some(rest) => Some([token] + rest)
  }

  function SplitArgs(line: cstring): Option<seq<cstring>> {
    ArgsFrom(line, 0)
  }

  // ---------- sdssplitargs itself ----------

  function Prepend(vector: seq<cstring>, rest: Option<seq<cstring>>): Option<seq<cstring>> {
    match rest
    case None => None
    case Some(args) => Some(vector + args)
  }

  /** The inner `while(!done)` loop with its flags `inq` and `insq`. */
  method NextToken(line: cstring, start: nat) returns (ok: bool, current: cstring, p: nat)
    requires start <= |line|
    ensures p <= |line|
    ensures ReadToken(line, start, Plain, []) == if ok then Some((current, p)) else None
  {
    p, current := start, [];
    var inq, insq, done := false, false, false;
    while !done
      invariant p <= |line| && !(inq && insq)
      invariant !done ==>
                  ReadToken(line, start, Plain, [])
                  == ReadToken(line, p, if inq then InDouble else if insq then InSingle else Plain, current)
      invariant done ==> ReadToken(line, start, Plain, []) == Some((current, p))
      decreases !done, |line| - p
    {
      var c := At(line, p);
      if inq {
        if c == '\\' && At(line, p + 1) == 'x' && IsHexDigit(At(line, p + 2)) && IsHexDigit(At(line, p + 3)) {
          current := current + [HexPair(At(line, p + 2), At(line, p + 3))];
          p := p + 3;
        } else if c == '\\' && At(line, p + 1) != NUL {
          p := p + 1;
          current := current + [Unescape(At(line, p))];
        } else if c == '"' {
          if At(line, p + 1) != NUL && !IsSpace(At(line, p + 1)) {
            return false, current, p;
          }
          done := true;
        } else if c == NUL {
          return false, current, p;
        } else {
          current := current + [c];
        }
      } else if insq {
        if c == '\\' && At(line, p + 1) == '\'' {
          p := p + 1;
          current := current + ['\''];
        } else if c == '\'' {
          if At(line, p + 1) != NUL && !IsSpace(At(line, p + 1)) {
            return false, current, p;
          }
          done := true;
        } else if c == NUL {
          return false, current, p;
        } else {
          current := current + [c];
        }
      } else {
        if c == ' ' || c == '\n' || c == '\r' || c == '\t' || c == NUL {
          done := true;
        } else if c == '"' {
          inq := true;
        } else if c == '\'' {
          insq := true;
        } else {
          current := current + [c];
        }
      }
      if At(line, p) != NUL {
        p := p + 1;
      }
    }
    ok := true;
  }

  lemma PrependStep(vector: seq<cstring>, token: cstring, rest: Option<seq<cstring>>)
    ensures Prepend(vector + [token], rest) == Prepend(vector, Prepend([token], rest))
    ensures Prepend([], rest) == rest
    ensures Prepend(vector, Some([])) == Some(vector)
  {
    assert vector + [] == vector;
    match rest
    case None =>
    case Some(args) =>
      assert vector + [token] + args == vector + ([token] + args);
      assert [] + args == args;
  }

  method SdsSplitArgs(line: cstring) returns (r: Option<seq<cstring>>)
    ensures r == SplitArgs(line)
  {
    var p, vector := 0, [];
    PrependStep([], [], SplitArgs(line));
    while true
      invariant p <= |line|
      invariant SplitArgs(line) == Prepend(vector, ArgsFrom(line, p))
      decreases |line| - p
    {
      ghost var before := p;
      while At(line, p) != NUL && IsSpace(At(line, p))
        invariant before <= p <= |line| && SkipBlanks(line, before) == SkipBlanks(line, p)
        decreases |line| - p
      {
        p := p + 1;
      }
      if At(line, p) == NUL {
        PrependStep(vector, [], Some([]));
        return Some(vector);
      }
      var ok, current, next := NextToken(line, p);
      if !ok {
        return None;
      }
      PrependStep(vector, current, ArgsFrom(line, next));
      p, vector := next, vector + [current];
    }
  }

  // ---------- Printing and parsing are inverse ----------

  /** One escaped character read back, whatever follows it. */
  lemma ReadReprChar(line: cstring, p: nat, c: cchar, current: cstring)
    requires Stands(line, p, ReprChar(c))
    ensures ReadToken(line, p, InDouble, current)
         == ReadToken(line, p + |ReprChar(c)|, InDouble, current + [c])
  {
    var t := ReprChar(c);
    StandsAt(line, p, t, 0);
    if |t| > 1 {
      StandsAt(line, p, t, 1);
    }
    if |t| == 4 {
      StandsAt(line, p, t, 2);
      StandsAt(line, p, t, 3);
      assert c as int == c as int / 16 * 16 + c as int % 16;
      assert HexPair(t[2], t[3]) == c;
    }
  }

  lemma ReadDoubleEnd(line: cstring, p: nat, current: cstring)
    requires p < |line| && line[p] == '"' && MayEnd(line, p + 1)
    ensures ReadToken(line, p, InDouble, current) == Some((current, p + 1))
  {
  }

  lemma {:induction false} ReadReprBody(line: cstring, p: nat, s: cstring, current: cstring)
    requires Stands(line, p, ReprBody(s) + ['"'])
    requires MayEnd(line, p + |ReprBody(s)| + 1)
    ensures ReadToken(line, p, InDouble, current) == Some((current + s, p + |ReprBody(s)| + 1))
    decreases |s|
  {
    hide ReadToken, ReprChar;
    if s == [] {
      assert ReprBody(s) + ['"'] == ['"'];
      StandsAt(line, p, ['"'], 0);
      ReadDoubleEnd(line, p, current);
      assert current + s == current;
    } else {
      var t, u := ReprChar(s[0]), ReprBody(s[1..]) + ['"'];
      assert ReprBody(s) + ['"'] == t + u;
      StandsSplit(line, p, t, u);
      ReadReprChar(line, p, s[0], current);
      ReadReprBody(line, p + |t|, s[1..], current + [s[0]]);
      assert current + [s[0]] + s[1..] == current + s;
    }
  }

  /** How an argument may be written: in either kind of quotes, or bare when it holds nothing special. */
  datatype Arg = Quoted(value: cstring) | Single(value: cstring) | Bare(value: cstring)

  predicate BareChar(c: cchar) {
    c != ' ' && c != '\t' && c != '\n' && c != '\r' && c != '\0' && c != '"' && c != '\''
  }

  ghost predicate ValidArg(a: Arg) {
    match a
    case Quoted(_) => true
    case Single(s) => NoNul(s) && (s != [] ==> s[|s| - 1] != '\\')
    case Bare(s) =>
      && (s != [] && s[0] != VTAB && s[0] != FORMFEED)
      && forall i :: 0 <= i < |s| ==> BareChar(s[i])
  }

  /** Inside single quotes only the quote itself is escaped. */
  function SingleChar(c: cchar): cstring {
    if c == '\'' then ['\\', '\''] else [c]
  }

  function SingleBody(s: cstring): cstring {
    if s == [] then [] else SingleChar(s[0]) + SingleBody(s[1..])
  }

  function Text(a: Arg): cstring {
    match a
    case Quoted(s) => Repr(s)
    case Single(s) => ['\''] + SingleBody(s) + ['\'']
    case Bare(s) => s
  }

  function Values(args: seq<Arg>): seq<cstring> {
    seq(|args|, i requires 0 <= i < |args| => args[i].value)
  }

  function JoinArgs(args: seq<Arg>): cstring {
    if args == [] then []
    else if |args| == 1 then Text(args[0])
    else Text(args[0]) + [' '] + JoinArgs(args[1..])
  }

  lemma {:induction false} ReadBare(line: cstring, p: nat, s: cstring, current: cstring)
    requires Stands(line, p, s) && forall i :: 0 <= i < |s| ==> BareChar(s[i])
    ensures ReadToken(line, p, Plain, current) == ReadToken(line, p + |s|, Plain, current + s)
    decreases |s|
  {
    if s == [] {
      assert current + s == current;
    } else {
      StandsAt(line, p, s, 0);
      assert s == [s[0]] + s[1..];
      StandsSplit(line, p, [s[0]], s[1..]);
      ReadBare(line, p + 1, s[1..], current + [s[0]]);
      assert current + [s[0]] + s[1..] == current + s;
    }
  }

  lemma ReadPlainEnd(line: cstring, p: nat, current: cstring)
    requires p <= |line| && EndsPlain(At(line, p))
    ensures ReadToken(line, p, Plain, current) == Some((current, if At(line, p) == NUL then p else p + 1))
  {
  }

  lemma ReadQuoted(line: cstring, p: nat, s: cstring)
    requires Stands(line, p, Repr(s)) && MayEnd(line, p + |Repr(s)|)
    ensures At(line, p) == '"'
    ensures ReadToken(line, p, Plain, []) == Some((s, p + |Repr(s)|))
  {
    StandsAt(line, p, Repr(s), 0);
    assert Repr(s) == ['"'] + (ReprBody(s) + ['"']);
    StandsSplit(line, p, ['"'], ReprBody(s) + ['"']);
    ReadReprBody(line, p + 1, s, []);
    assert [] + s == s;
  }

  lemma ReadSingleChar(line: cstring, p: nat, c: cchar, u: cstring, current: cstring)
    requires c != NUL && u != [] && (c == '\\' ==> u[0] != '\'')
    requires Stands(line, p, SingleChar(c) + u)
    ensures ReadToken(line, p, InSingle, current)
         == ReadToken(line, p + |SingleChar(c)|, InSingle, current + [c])
  {
    var t := SingleChar(c);
    StandsSplit(line, p, t, u);
    StandsAt(line, p, t, 0);
    StandsAt(line, p + |t|, u, 0);
    if |t| == 2 {
      StandsAt(line, p, t, 1);
    }
  }

  lemma ReadSingleEnd(line: cstring, p: nat, current: cstring)
    requires p < |line| && line[p] == '\'' && MayEnd(line, p + 1)
    ensures ReadToken(line, p, InSingle, current) == Some((current, p + 1))
  {
  }

  lemma {:induction false} ReadSingleBody(line: cstring, p: nat, s: cstring, current: cstring)
    requires Stands(line, p, SingleBody(s) + ['\''])
    requires NoNul(s) && (s != [] ==> s[|s| - 1] != '\\')
    requires MayEnd(line, p + |SingleBody(s)| + 1)
    ensures ReadToken(line, p, InSingle, current) == Some((current + s, p + |SingleBody(s)| + 1))
    decreases |s|
  {
    hide ReadToken, SingleChar;
    if s == [] {
      assert SingleBody(s) + ['\''] == ['\''];
      StandsAt(line, p, ['\''], 0);
      ReadSingleEnd(line, p, current);
      assert current + s == current;
    } else {
      var u := SingleBody(s[1..]) + ['\''];
      assert SingleBody(s) + ['\''] == SingleChar(s[0]) + u;
      SingleBodyHead(s[1..]);
      ReadSingleChar(line, p, s[0], u, current);
      StandsSplit(line, p, SingleChar(s[0]), u);
      ReadSingleBody(line, p + |SingleChar(s[0])|, s[1..], current + [s[0]]);
      assert current + [s[0]] + s[1..] == current + s;
    }
  }

  /** A backslash is never taken for the start of an escape unless a quote was escaped. */
  lemma SingleBodyHead(s: cstring)
    ensures s != [] ==> SingleBody(s) != [] && SingleBody(s)[0] != '\''
  {
  }

  lemma ReadSingle(line: cstring, p: nat, s: cstring)
    requires ValidArg(Single(s)) && Stands(line, p, Text(Single(s))) && MayEnd(line, p + |Text(Single(s))|)
    ensures At(line, p) == '\''
    ensures ReadToken(line, p, Plain, []) == Some((s, p + |Text(Single(s))|))
  {
    hide SingleBody;
    var t := Text(Single(s));
    StandsAt(line, p, t, 0);
    assert t == ['\''] + (SingleBody(s) + ['\'']);
    StandsSplit(line, p, ['\''], SingleBody(s) + ['\'']);
    ReadSingleBody(line, p + 1, s, []);
    assert [] + s == s;
  }

  /** What ends an argument: one of four characters behind a bare one, any white space behind a quote. */
  predicate Breaks(a: Arg, c: cchar) {
    if a.Bare? then c == ' ' || c == '\t' || c == '\n' || c == '\r' else c as int == 32 || 9 <= c as int <= 13
  }

  /** White space: space, tab, line feed, vertical tab, form feed and carriage return. */
  ghost predicate Gap(g: cstring) {
    forall i :: 0 <= i < |g| ==> g[i] as int == 32 || 9 <= g[i] as int <= 13
  }

  lemma ReadBareArg(line: cstring, p: nat, s: cstring)
    requires ValidArg(Bare(s)) && Stands(line, p, s)
    requires At(line, p + |s|) == NUL || Breaks(Bare(s), At(line, p + |s|))
    ensures !IsSpace(At(line, p)) && At(line, p) != NUL
    ensures ReadToken(line, p, Plain, []) == Some((s, if At(line, p + |s|) == NUL then p + |s| else p + |s| + 1))
  {
    hide ReadToken;
    StandsAt(line, p, s, 0);
    assert BareChar(s[0]);
    assert [] + s == s;
    ReadBare(line, p, s, []);
    ReadPlainEnd(line, p + |s|, s);
  }

  /** Reads one argument written in any of the three ways. */
  lemma ReadArg(line: cstring, p: nat, a: Arg)
    requires ValidArg(a) && Stands(line, p, Text(a))
    requires At(line, p + |Text(a)|) == NUL || Breaks(a, At(line, p + |Text(a)|))
    ensures SkipBlanks(line, p) == p && At(line, p) != NUL
    ensures var q := p + |Text(a)|;
            ReadToken(line, p, Plain, [])
            == Some((a.value, if a.Bare? && At(line, q) != NUL then q + 1 else q))
  {
    hide ReadToken, ReprBody, SingleBody;
    match a
    case Quoted(s) => ReadQuoted(line, p, s);
    case Single(s) => ReadSingle(line, p, s);
    case Bare(s) => ReadBareArg(line, p, s);
  }

  lemma {:induction false} SkipGap(line: cstring, p: nat, g: cstring)
    requires Stands(line, p, g) && Gap(g)
    ensures ArgsFrom(line, p) == ArgsFrom(line, p + |g|)
    decreases |g|
  {
    if g != [] {
      StandsAt(line, p, g, 0);
      assert g == [g[0]] + g[1..];
      StandsSplit(line, p, [g[0]], g[1..]);
      SkipGap(line, p + 1, g[1..]);
    }
  }

  /** An argument and the white space behind it. */
  datatype Spaced = Spaced(arg: Arg, gap: cstring)

  ghost predicate Separated(args: seq<Spaced>) {
    forall i :: 0 <= i < |args| ==>
      && ValidArg(args[i].arg) && Gap(args[i].gap)
      && (i < |args| - 1 ==> args[i].gap != [])
      && (args[i].gap != [] ==> Breaks(args[i].arg, args[i].gap[0]))
  }

  function SpacedText(args: seq<Spaced>): cstring {
    if args == [] then [] else Text(args[0].arg) + args[0].gap + SpacedText(args[1..])
  }

  function SpacedValues(args: seq<Spaced>): seq<cstring> {
    seq(|args|, i requires 0 <= i < |args| => args[i].arg.value)
  }

  /** One argument and the gap behind it are read, and reading goes on with the next. */
  lemma ReadSpaced(line: cstring, p: nat, a: Arg, gap: cstring)
    requires ValidArg(a) && Gap(gap) && (gap != [] ==> Breaks(a, gap[0]))
    requires Stands(line, p, Text(a) + gap)
    requires gap == [] ==> p + |Text(a)| == |line|
    ensures var n := p + |Text(a)| + |gap|;
            && n <= |line|
            && ArgsFrom(line, p) == match ArgsFrom(line, n) case None => None case Some(rest) => Some([a.value] + rest)
  {
    hide ReadToken, ValidArg, Text;
    StandsSplit(line, p, Text(a), gap);
    var q := p + |Text(a)|;
    if gap != [] {
      StandsAt(line, q, gap, 0);
      assert gap == [gap[0]] + gap[1..];
      StandsSplit(line, q, [gap[0]], gap[1..]);
      SkipGap(line, q + 1, gap[1..]);
    }
    ReadArg(line, p, a);
    SkipGap(line, q, gap);
  }

  lemma {:induction false} SplitSpaced(line: cstring, p: nat, args: seq<Spaced>)
    requires Separated(args)
    requires Stands(line, p, SpacedText(args)) && p + |SpacedText(args)| == |line|
    ensures ArgsFrom(line, p) == Some(SpacedValues(args))
    decreases |args|
  {
    hide ReadToken, Text, ValidArg;
    if args == [] {
      assert SpacedValues(args) == [];
    } else {
      var a, gap, rest := args[0].arg, args[0].gap, args[1..];
      StandsSplit(line, p, Text(a) + gap, SpacedText(rest));
      assert gap == [] ==> rest == [];
      ReadSpaced(line, p, a, gap);
      SplitSpaced(line, p + |Text(a)| + |gap|, rest);
      assert SpacedValues(args) == [a.value] + SpacedValues(rest);
    }
  }

  /** Arguments are read back exactly, in whichever way each is written and whatever white space stands before,
      between and behind them. */
  lemma SplitSeparated(lead: cstring, args: seq<Spaced>)
    requires Gap(lead) && Separated(args)
    ensures SplitArgs(lead + SpacedText(args)) == Some(SpacedValues(args))
  {
    hide Separated, SpacedText, ArgsFrom;
    var line := lead + SpacedText(args);
    StandsSplit(line, 0, lead, SpacedText(args));
    SkipGap(line, 0, lead);
    SplitSpaced(line, |lead|, args);
  }

  /** Single spaces between the arguments. */
  function Singly(args: seq<Arg>): (r: seq<Spaced>)
    ensures |r| == |args|
  {
    seq(|args|, i requires 0 <= i < |args| => Spaced(args[i], if i < |args| - 1 then [' '] else []))
  }

  lemma {:induction false} JoinIsSpaced(args: seq<Arg>)
    ensures JoinArgs(args) == SpacedText(Singly(args))
  {
    hide Text;
    if args != [] {
      JoinIsSpaced(args[1..]);
      assert Singly(args)[1..] == Singly(args[1..]);
    }
  }

  /** Arguments written one after the other are read back exactly. */
  lemma ArgsRoundTrip(args: seq<Arg>)
    requires forall i :: 0 <= i < |args| ==> ValidArg(args[i])
    ensures SplitArgs(JoinArgs(args)) == Some(Values(args))
  {
    hide Text, ValidArg, SplitArgs, JoinArgs, SpacedText;
    JoinIsSpaced(args);
    SplitSeparated([], Singly(args));
    assert [] + JoinArgs(args) == JoinArgs(args);
    assert SpacedValues(Singly(args)) == Values(args);
  }

  // ---------- The promise of sdscatrepr ----------

  function JoinReprs(values: seq<cstring>): cstring {
    if values == [] then []
    else if |values| == 1 then Repr(values[0])
    else Repr(values[0]) + [' '] + JoinReprs(values[1..])
  }

  lemma {:induction false} JoinReprsIsJoinArgs(values: seq<cstring>)
    ensures JoinReprs(values) == JoinArgs(seq(|values|, i requires 0 <= i < |values| => Quoted(values[i])))
  {
    var args := seq(|values|, i requires 0 <= i < |values| => Quoted(values[i]));
    if |values| > 1 {
      JoinReprsIsJoinArgs(values[1..]);
      assert args[1..] == seq(|values[1..]|, i requires 0 <= i < |values[1..]| => Quoted(values[1..][i]));
    }
  }

  /** Any list of byte strings - NUL, quotes, backslashes, text that looks like an escape - survives. */
  lemma QuotingRoundTrip(values: seq<cstring>)
    ensures SplitArgs(JoinReprs(values)) == Some(values)
  {
    var args := seq(|values|, i requires 0 <= i < |values| => Quoted(values[i]));
    JoinReprsIsJoinArgs(values);
    ArgsRoundTrip(args);
    assert Values(args) == values;
  }
}
