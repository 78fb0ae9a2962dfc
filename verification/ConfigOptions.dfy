/** Options by kind: how each is written by CONFIG REWRITE and read by the configuration loader
    (config.c:101-122, 137-186, 230-240, 1504-1589). */
module ConfigOptions {
  import opened CStrings
  import opened Quoting
  import opened Wrappers
  import opened ConfigLines
  import opened ConfigRewrite
  import Decimal

  datatype Kind =
    | StringKind(default: Option<cstring>)
    | YesNoKind(on: bool)
    | NumericKind(number: int, lo: int, hi: int)
    | EnumKind(choice: int, table: seq<(cstring, int)>)
    | SaveKind

  datatype Value =
    | Str(text: Option<cstring>)
    | Flag(on: bool)
    | Num(number: int)
    | Choice(choice: int)
    | Save(points: seq<(int, int)>)

  datatype Opt = Opt(name: cstring, kind: Kind, value: Value)

  const YES: cstring := "yes"
  const NO: cstring := "no"
  const UNKNOWN: cstring := "unknown"

  /** The value before any directive is read. */
  function Default(k: Kind): Value {
    match k
    case StringKind(d) => Str(d)
    case YesNoKind(d) => Flag(d)
    case NumericKind(d, _, _) => Num(d)
    case EnumKind(d, _) => Choice(d)
    case SaveKind => Save([])
  }

  // ---------- Enumerations ----------

  /** configEnumGetName, with "unknown" for NULL: configEnumGetNameOrUnknown. */
  function EnumName(table: seq<(cstring, int)>, v: int): cstring {
    if table == [] then UNKNOWN
    else if table[0].1 == v then table[0].0
    else EnumName(table[1..], v)
  }

  /** configEnumGetValue: names are compared without regard to case. */
  function EnumValue(table: seq<(cstring, int)>, name: cstring): Option<int> {
    if table == [] then None
    else if Lower(table[0].0) == Lower(name) then Some(table[0].1)
    else EnumValue(table[1..], name)
  }

  ghost predicate InTable(table: seq<(cstring, int)>, v: int) {
    exists i :: 0 <= i < |table| && table[i].1 == v
  }

  ghost predicate DistinctNames(table: seq<(cstring, int)>) {
    forall i, j :: 0 <= i < j < |table| ==> Lower(table[i].0) != Lower(table[j].0)
  }

  lemma {:induction false} EnumNameInTable(table: seq<(cstring, int)>, v: int) returns (i: nat)
    requires InTable(table, v)
    ensures i < |table| && EnumName(table, v) == table[i].0 && table[i].1 == v
  {
    if table[0].1 == v {
      i := 0;
    } else {
      var j :| 0 <= j < |table| && table[j].1 == v;
      assert table[1..][j - 1] == table[j];
      i := EnumNameInTable(table[1..], v);
      i := i + 1;
    }
  }

  lemma {:induction false} EnumRoundTrip(table: seq<(cstring, int)>, v: int)
    requires InTable(table, v) && DistinctNames(table)
    ensures EnumValue(table, EnumName(table, v)) == Some(v)
  {
    if table[0].1 != v {
      var j :| 0 <= j < |table| && table[j].1 == v;
      assert table[1..][j - 1] == table[j];
      var i := EnumNameInTable(table[1..], v);
      assert Lower(table[0].0) != Lower(table[i + 1].0);
      EnumRoundTrip(table[1..], v);
    }
  }

  // ---------- Reading one directive ----------

  function YesNo(s: cstring): Option<bool> {
    if Lower(s) == YES then Some(true)
    else if Lower(s) == NO then Some(false)
    else None
  }

  /** One directive applied to the value its option had; None is a load error. */
  function Directive(k: Kind, v: Value, argv: seq<cstring>): Option<Value> {
    match k
    case StringKind(_) =>
      if |argv| == 2 then Some(Str(Some(CStr(argv[1])))) else None
    case YesNoKind(_) =>
      if |argv| == 2 && YesNo(CStr(argv[1])).Some? then Some(Flag(YesNo(CStr(argv[1])).value)) else None
    case NumericKind(_, lo, hi) =>
      if |argv| == 2 && lo <= Decimal.Atoi(argv[1]) <= hi then Some(Num(Decimal.Atoi(argv[1]))) else None
    case EnumKind(_, table) =>
      if |argv| == 2 && EnumValue(table, CStr(argv[1])).Some?
      then Some(Choice(EnumValue(table, CStr(argv[1])).value)) else None
    case SaveKind =>
      if |argv| == 3 then
        var seconds, changes := Decimal.Atoi(argv[1]), Decimal.Atoi(argv[2]);
        if seconds < 1 || changes < 0 then None
        else Some(Save((if v.Save? then v.points else []) + [(seconds, changes)]))
      else if |argv| == 2 && CStr(argv[1]) == [] then Some(Save([]))
      else Some(v)
  }

  function Arguments(line: cstring): seq<cstring> {
    match SplitArgs(line)
    case None => []
    case Some(args) => args
  }

  /** All lines of one option, applied in order. */
  function Fold(k: Kind, v: Value, lines: seq<cstring>): Option<Value> {
    if lines == [] then Some(v)
    else
      match Fold(k, v, lines[..|lines| - 1])
      case None => None
      case Some(v') => Directive(k, v', Arguments(lines[|lines| - 1]))
  }

  // ---------- Writing one option ----------

  function SaveText(p: (int, int)): cstring {
    Decimal.Text(p.0) + [' '] + Decimal.Text(p.1)
  }

  function SaveCalls(name: cstring, points: seq<(int, int)>): seq<Call> {
    if points == [] then []
    else SaveCalls(name, points[..|points| - 1])
         + [Rewrite(name, name + [' '] + SaveText(points[|points| - 1]), true)]
  }

  /** The calls a writer makes for one option. */
  function Calls(o: Opt): seq<Call> {
    var pre := o.name + [' '];
    match (o.kind, o.value)
    case (StringKind(d), Str(s)) =>
      if s == None then [Mark(o.name)]
      else [Rewrite(o.name, pre + Repr(s.value), !(d == s))]
    case (YesNoKind(d), Flag(b)) => [Rewrite(o.name, pre + (if b then YES else NO), b != d)]
    case (NumericKind(d, _, _), Num(n)) => [Rewrite(o.name, pre + Decimal.Text(n), n != d)]
    case (EnumKind(d, table), Choice(e)) => [Rewrite(o.name, pre + EnumName(table, e), e != d)]
    case (SaveKind, Save(points)) => SaveCalls(o.name, points) + [Mark(o.name)]
    case _ => []
  }

  // ---------- Domains ----------

  /** Printable, without blanks or quotes. */
  predicate Word(s: cstring) {
    s != [] && forall i :: 0 <= i < |s| ==> IsPrint(s[i]) && s[i] != ' ' && s[i] != '"' && s[i] != '\''
  }

  predicate ValidName(name: cstring) {
    Word(name) && name[0] != '#' && Lower(name) == name
  }

  /** Values the running server can have: C strings, numbers the loader accepts, listed choices. */
  ghost predicate ValidValue(k: Kind, v: Value) {
    match (k, v)
    case (StringKind(_), Str(s)) => s.Some? ==> NoNul(s.value)
    case (YesNoKind(_), Flag(_)) => true
    case (NumericKind(_, lo, hi), Num(n)) => lo <= n <= hi
    case (EnumKind(_, table), Choice(e)) =>
      InTable(table, e) && DistinctNames(table) && forall i :: 0 <= i < |table| ==> Word(table[i].0)
    case (SaveKind, Save(points)) => forall i :: 0 <= i < |points| ==> points[i].0 >= 1 && points[i].1 >= 0
    case _ => false
  }

  ghost predicate ValidOpt(o: Opt) {
    ValidName(o.name) && ValidValue(o.kind, o.value)
  }

  // ---------- Written lines are well-formed ----------

  ghost predicate Printable(s: cstring) {
    forall i :: 0 <= i < |s| ==> IsPrint(s[i])
  }

  lemma {:induction false} ReprBodyPrintable(s: cstring)
    ensures Printable(ReprBody(s))
  {
    if s != [] {
      ReprBodyPrintable(s[1..]);
      assert Printable(ReprChar(s[0]));
    }
  }

  lemma {:induction false} DigitsWord(n: nat)
    ensures Word(Decimal.Digits(n))
  {
    if n >= 10 {
      DigitsWord(n / 10);
    }
  }

  lemma NumberWord(v: int)
    ensures Word(Decimal.Text(v))
  {
    DigitsWord(if v < 0 then -v else v);
  }

  lemma WordArg(s: cstring)
    requires Word(s)
    ensures ValidArg(Bare(s)) && Printable(s) && NoNul(s) && CStr(s) == s
  {
    CStrNoNul(s);
  }

  lemma PrintableClean(line: cstring)
    requires Printable(line) && (line != [] ==> line[0] != ' ' && line[|line| - 1] != ' ')
    ensures Clean(line)
  {
    assert BLANKS == [' ', '\t', '\r', '\n'];
  }

  /** A name followed by arguments is a clean line of that option with those arguments. */
  lemma WrittenLine(name: cstring, args: seq<Arg>, line: cstring)
    requires ValidName(name) && args != []
    requires forall i :: 0 <= i < |args| ==> ValidArg(args[i])
    requires line == name + [' '] + JoinArgs(args)
    requires Printable(JoinArgs(args)) && JoinArgs(args) != [] && JoinArgs(args)[|JoinArgs(args)| - 1] != ' '
    ensures OptionOf(line) == Some(name) && Clean(line)
    ensures Arguments(line) == [name] + Values(args)
  {
    hide JoinArgs, Values, SplitArgs;
    WordArg(name);
    var all := [Bare(name)] + args;
    assert JoinArgs(all) == line by { JoinArgsCons(Bare(name), args); }
    assert Values(all) == [name] + Values(args) by { ValuesCons(Bare(name), args); }
    ArgsRoundTrip(all);
    assert line[0] == name[0];
    PrintableClean(line);
  }

  lemma JoinArgsCons(a: Arg, args: seq<Arg>)
    requires args != []
    ensures JoinArgs([a] + args) == Quoting.Text(a) + [' '] + JoinArgs(args)
  {
    assert ([a] + args)[1..] == args;
  }

  lemma ValuesCons(a: Arg, args: seq<Arg>)
    ensures Values([a] + args) == [a.value] + Values(args)
    ensures Values([a]) == [a.value]
  {
  }

  lemma WrittenWord(name: cstring, word: cstring)
    requires ValidName(name) && Word(word)
    ensures var line := name + [' '] + word;
            OptionOf(line) == Some(name) && Clean(line) && Arguments(line) == [name, word]
  {
    WordArg(word);
    hide OptionOf, Clean, Arguments;
    assert JoinArgs([Bare(word)]) == word;
    WrittenLine(name, [Bare(word)], name + [' '] + word);
    ValuesCons(Bare(word), []);
  }

  lemma WrittenString(name: cstring, s: cstring)
    requires ValidName(name)
    ensures var line := name + [' '] + Repr(s);
            OptionOf(line) == Some(name) && Clean(line) && Arguments(line) == [name, s]
  {
    ReprBodyPrintable(s);
    hide OptionOf, Clean, Arguments, ReprBody;
    assert JoinArgs([Quoted(s)]) == Repr(s);
    WrittenLine(name, [Quoted(s)], name + [' '] + Repr(s));
    ValuesCons(Quoted(s), []);
  }

  lemma WrittenSave(name: cstring, p: (int, int))
    requires ValidName(name)
    ensures var line := name + [' '] + SaveText(p);
            OptionOf(line) == Some(name) && Clean(line)
            && Arguments(line) == [name, Decimal.Text(p.0), Decimal.Text(p.1)]
  {
    var x, y := Decimal.Text(p.0), Decimal.Text(p.1);
    NumberWord(p.0);
    NumberWord(p.1);
    WordArg(x);
    WordArg(y);
    hide OptionOf, Clean, Arguments, Decimal.Text;
    var args := [Bare(x)] + [Bare(y)];
    JoinArgsCons(Bare(x), [Bare(y)]);
    assert JoinArgs([Bare(y)]) == y;
    assert JoinArgs(args) == SaveText(p);
    WrittenLine(name, args, name + [' '] + SaveText(p));
    ValuesCons(Bare(x), [Bare(y)]);
    ValuesCons(Bare(y), []);
  }
}
