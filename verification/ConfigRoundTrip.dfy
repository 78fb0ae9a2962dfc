/** The writers of CONFIG REWRITE, and the theorem they exist for: when loading the rewritten file
    gives back the running configuration, for any old file. */
module ConfigRoundTrip {
  import opened CStrings
  import opened Quoting
  import opened Wrappers
  import opened ConfigLines
  import opened ConfigRewrite
  import opened ConfigAccounting
  import opened ConfigMerge
  import opened ConfigOptions
  import opened ConfigReload
  import Decimal

  // ---------- One option ----------

  lemma {:induction false} SaveCallsValid(name: cstring, points: seq<(int, int)>)
    requires ValidName(name)
    ensures ValidCalls(SaveCalls(name, points))
    ensures forall i :: 0 <= i < |SaveCalls(name, points)| ==> SaveCalls(name, points)[i].option == name
  {
    hide OptionOf, Clean;
    if points != [] {
      SaveCallsValid(name, points[..|points| - 1]);
      WrittenSave(name, points[|points| - 1]);
    }
  }

  /** What a single writer call emits, and what reading it back gives. */
  lemma EmittedSingle(name: cstring, line: cstring, force: bool, n: nat)
    ensures Emitted([Rewrite(name, line, force)], name, n) == if n > 0 || force then [line] else []
    ensures Emitted([Mark(name)], name, n) == [] && Emitted([], name, n) == []
  {
    assert [Rewrite(name, line, force)][..0] == [] && [Mark(name)][..0] == [];
  }

  lemma FoldSingle(k: Kind, v: Value, line: cstring)
    ensures Fold(k, v, [line]) == Directive(k, v, Arguments(line))
    ensures Fold(k, v, []) == Some(v)
  {
    assert [line][..0] == [];
  }

  /** A line that sets its option to `v`, dropped only when `v` is the default, reads back as `v`. */
  lemma SingleRoundTrip(o: Opt, line: cstring, force: bool, v: Value, n: nat)
    requires Directive(o.kind, Default(o.kind), Arguments(line)) == Some(v)
    requires !force ==> v == Default(o.kind)
    ensures Fold(o.kind, Default(o.kind), Emitted([Rewrite(o.name, line, force)], o.name, n)) == Some(v)
  {
    hide Directive, Arguments, Emitted, Fold;
    EmittedSingle(o.name, line, force, n);
    FoldSingle(o.kind, Default(o.kind), line);
  }

  lemma EmittedSnoc(calls: seq<Call>, c: Call, option: cstring, n: nat)
    ensures var prior := Emitted(calls, option, n);
            Emitted(calls + [c], option, n)
            == if c.Rewrite? && c.option == option && (|prior| < n || c.force) then prior + [c.line] else prior
  {
    assert (calls + [c])[..|calls|] == calls;
  }

  /** The save points come back in order, starting from none. */
  lemma {:induction false} SaveRoundTrip(name: cstring, points: seq<(int, int)>, n: nat)
    requires ValidName(name) && ValidValue(SaveKind, Save(points))
    ensures Fold(SaveKind, Save([]), Emitted(SaveCalls(name, points), name, n)) == Some(Save(points))
  {
    hide OptionOf, Clean, Arguments, Decimal.Atoi, Decimal.Text, Fold, Emitted, Directive, SaveText;
    if points == [] {
      EmittedSingle(name, [], true, n);
      FoldSingle(SaveKind, Save([]), []);
    } else {
      var front, p := points[..|points| - 1], points[|points| - 1];
      var line := name + [' '] + SaveText(p);
      SaveRoundTrip(name, front, n);
      WrittenSave(name, p);
      EmittedSnoc(SaveCalls(name, front), Rewrite(name, line, true), name, n);
      FoldSnoc(SaveKind, Save([]), Emitted(SaveCalls(name, front), name, n), line);
      assert points == front + [p];
      SavePointRead(name, front, p);
    }
  }

  lemma SavePointRead(name: cstring, front: seq<(int, int)>, p: (int, int))
    requires ValidName(name) && ValidValue(SaveKind, Save(front + [p]))
    ensures Directive(SaveKind, Save(front), Arguments(name + [' '] + SaveText(p))) == Some(Save(front + [p]))
  {
    hide OptionOf, Clean, Arguments, Decimal.Atoi, Decimal.Text;
    assert (front + [p])[|front|] == p;
    WrittenSave(name, p);
    Decimal.AtoiText(p.0);
    Decimal.AtoiText(p.1);
  }

  /** The value after a reload: a NULL string is not written, so the default comes back. */
  function Reloaded(o: Opt): Value {
    if o.value == Str(None) then Default(o.kind) else o.value
  }

  /** The value in the running server. */
  function Current(o: Opt): Value {
    o.value
  }

  lemma YesNoWords(b: bool)
    ensures var w := if b then YES else NO; Word(w) && CStr(w) == w && YesNo(w) == Some(b)
  {
    var w := if b then YES else NO;
    assert YES == ['y', 'e', 's'] && NO == ['n', 'o'];
    assert Word(w);
    WordArg(w);
    assert Lower(w) == w;
  }

  lemma CallsValid(o: Opt)
    requires ValidOpt(o)
    ensures ValidCalls(Calls(o))
    ensures forall i :: 0 <= i < |Calls(o)| ==> Calls(o)[i].option == o.name
  {
    hide OptionOf, Clean, Repr, Decimal.Text, Arguments, Word;
    assert Lower(o.name) == o.name;
    match (o.kind, o.value)
    case (StringKind(d), Str(s)) =>
      if s.Some? {
        WrittenString(o.name, s.value);
      }
    case (YesNoKind(d), Flag(b)) =>
      YesNoWords(b);
      WrittenWord(o.name, if b then YES else NO);
    case (NumericKind(d, _, _), Num(n)) =>
      NumberWord(n);
      WrittenWord(o.name, Decimal.Text(n));
    case (EnumKind(d, table), Choice(e)) =>
      var i := EnumNameInTable(table, e);
      WrittenWord(o.name, EnumName(table, e));
    case (SaveKind, Save(points)) =>
      SaveCallsValid(o.name, points);
    case _ =>
  }

  /** The cases of OptionRoundTrip in which the value is one word of text. */
  lemma WordRoundTrip(o: Opt, w: cstring, force: bool, n: nat)
    requires ValidName(o.name) && Word(w)
    requires Directive(o.kind, Default(o.kind), [o.name, w]) == Some(o.value)
    requires !force ==> o.value == Default(o.kind)
    ensures Fold(o.kind, Default(o.kind), Emitted([Rewrite(o.name, o.name + [' '] + w, force)], o.name, n))
         == Some(o.value)
  {
    WrittenWord(o.name, w);
    hide Directive, Arguments, Word, Fold, Emitted;
    SingleRoundTrip(o, o.name + [' '] + w, force, o.value, n);
  }

  /** Writing an option and reading its lines back, however many lines the old file had for it. */
  lemma OptionRoundTrip(o: Opt, n: nat)
    requires ValidOpt(o)
    ensures Fold(o.kind, Default(o.kind), Emitted(Calls(o), o.name, n)) == Some(Reloaded(o))
  {
    hide OptionOf, Clean, Repr, Decimal.Text, Arguments, Word, Fold, Emitted, ValidName;
    match (o.kind, o.value)
    case (StringKind(d), Str(s)) =>
      if s.Some? {
        WrittenString(o.name, s.value);
        CStrNoNul(s.value);
        SingleRoundTrip(o, o.name + [' '] + Repr(s.value), !(d == s), o.value, n);
      } else {
        EmittedSingle(o.name, [], false, n);
        FoldSingle(o.kind, Default(o.kind), []);
      }
    case (YesNoKind(d), Flag(b)) =>
      YesNoWords(b);
      WordRoundTrip(o, if b then YES else NO, b != d, n);
    case (NumericKind(d, _, _), Num(v)) =>
      NumberWord(v);
      Decimal.AtoiText(v);
      WordRoundTrip(o, Decimal.Text(v), v != d, n);
    case (EnumKind(d, table), Choice(e)) =>
      var i := EnumNameInTable(table, e);
      WordArg(EnumName(table, e));
      EnumRoundTrip(table, e);
      WordRoundTrip(o, EnumName(table, e), e != d, n);
    case (SaveKind, Save(points)) =>
      SaveRoundTrip(o.name, points, n);
      EmittedSnoc(SaveCalls(o.name, points), Mark(o.name), o.name, n);
    case _ =>
  }

  // ---------- All options ----------

  function AllCalls(opts: seq<Opt>): seq<Call> {
    if opts == [] then [] else AllCalls(opts[..|opts| - 1]) + Calls(opts[|opts| - 1])
  }

  ghost predicate ValidOpts(opts: seq<Opt>) {
    && (forall i :: 0 <= i < |opts| ==> ValidOpt(opts[i]))
    && (forall i, j :: 0 <= i < j < |opts| ==> opts[i].name != opts[j].name)
  }

  ghost predicate FreeOf(calls: seq<Call>, option: cstring) {
    forall i :: 0 <= i < |calls| ==> calls[i].option != option
  }

  lemma {:induction false} EmittedOfOthers(a: seq<Call>, b: seq<Call>, option: cstring, n: nat)
    requires FreeOf(b, option)
    ensures Emitted(a + b, option, n) == Emitted(a, option, n)
    decreases |b|
  {
    if b == [] {
      assert a + b == a;
    } else {
      var m := |b| - 1;
      EmittedOfOthers(a, b[..m], option, n);
      assert a + b == (a + b[..m]) + [b[m]];
      EmittedSnoc(a + b[..m], b[m], option, n);
    }
  }

  lemma {:induction false} EmittedAfterOthers(a: seq<Call>, b: seq<Call>, option: cstring, n: nat)
    requires FreeOf(a, option)
    ensures Emitted(a + b, option, n) == Emitted(b, option, n)
    decreases |b|
  {
    if b == [] {
      EmittedOfOthers([], a, option, n);
      assert [] + a == a && a + b == a;
    } else {
      var m := |b| - 1;
      EmittedAfterOthers(a, b[..m], option, n);
      assert a + b == (a + b[..m]) + [b[m]];
      assert b == b[..m] + [b[m]];
      EmittedSnoc(a + b[..m], b[m], option, n);
      EmittedSnoc(b[..m], b[m], option, n);
    }
  }

  lemma {:induction false} AllCallsFree(opts: seq<Opt>, option: cstring)
    requires ValidOpts(opts) && forall i :: 0 <= i < |opts| ==> opts[i].name != option
    ensures FreeOf(AllCalls(opts), option)
  {
    hide ValidOpt, Calls;
    if opts != [] {
      AllCallsFree(opts[..|opts| - 1], option);
      CallsValid(opts[|opts| - 1]);
    }
  }

  /** The calls of other options do not matter. */
  lemma {:induction false} EmittedByOne(opts: seq<Opt>, i: nat, n: nat)
    requires ValidOpts(opts) && i < |opts|
    ensures Emitted(AllCalls(opts), opts[i].name, n) == Emitted(Calls(opts[i]), opts[i].name, n)
    decreases |opts|
  {
    hide ValidOpt, Calls, Emitted;
    var front, last := opts[..|opts| - 1], opts[|opts| - 1];
    CallsValid(last);
    if i == |opts| - 1 {
      AllCallsFree(front, last.name);
      EmittedAfterOthers(AllCalls(front), Calls(last), last.name, n);
    } else {
      EmittedByOne(front, i, n);
      EmittedOfOthers(AllCalls(front), Calls(last), opts[i].name, n);
    }
  }

  lemma {:induction false} AllCallsValid(opts: seq<Opt>)
    requires ValidOpts(opts)
    ensures ValidCalls(AllCalls(opts))
    ensures forall i :: 0 <= i < |opts| ==> opts[i].name in Processed(AllCalls(opts))
  {
    hide ValidOpt, Calls, ValidCall;
    if opts != [] {
      var front, last := opts[..|opts| - 1], opts[|opts| - 1];
      AllCallsValid(front);
      CallsValid(last);
      CallsNonEmpty(last);
      ProcessedConcat(AllCalls(front), Calls(last));
      assert Calls(last)[0].option in Processed(Calls(last));
    }
  }

  lemma CallsNonEmpty(o: Opt)
    requires ValidOpt(o)
    ensures Calls(o) != []
  {
  }

  lemma ProcessedConcat(a: seq<Call>, b: seq<Call>)
    ensures Processed(a + b) == Processed(a) + Processed(b)
  {
    forall x | x in Processed(b) ensures x in Processed(a + b) {
      var i :| 0 <= i < |b| && b[i].option == x;
      assert (a + b)[|a| + i].option == x;
    }
    forall x | x in Processed(a) ensures x in Processed(a + b) {
      var i :| 0 <= i < |a| && a[i].option == x;
      assert (a + b)[i].option == x;
    }
  }

  // ---------- Lines stay loadable ----------

  ghost predicate Loadable(line: cstring) {
    Clean(line) && Parsable(line)
  }

  lemma SignatureLoadable()
    ensures Loadable(SIGNATURE) && Loadable([])
  {
    assert SIGNATURE[0] == '#' && SIGNATURE[|SIGNATURE| - 1] == 'E';
    assert Printable(SIGNATURE);
    PrintableClean(SIGNATURE);
  }

  lemma StoredParsable(chunk: cstring)
    requires HasName(chunk)
    ensures Parsable(Stored(chunk))
  {
    assert UNPARSABLE[0] == '#';
  }

  lemma {:induction false} RunLoadable(st: State, calls: seq<Call>)
    requires st.Wf() && ValidCalls(calls) && forall i :: 0 <= i < |st.lines| ==> Loadable(st.lines[i])
    ensures forall i :: 0 <= i < |Run(st, calls).lines| ==> Loadable(Run(st, calls).lines[i])
    decreases |calls|
  {
    hide Clean, Parsable, State.Wf, Loadable;
    if calls != [] {
      var front, c := calls[..|calls| - 1], calls[|calls| - 1];
      RunLoadable(st, front);
      SignatureLoadable();
      if c.Rewrite? {
        OwnedLoadable(c.line, c.option);
      }
      assert Run(st, front).Wf();
      ApplyLoadable(Run(st, front), c);
    }
  }

  lemma OwnedLoadable(line: cstring, option: cstring)
    requires OptionOf(line) == Some(option) && Clean(line)
    ensures Loadable(line)
  {
  }

  lemma ApplyLoadable(st: State, c: Call)
    requires st.Wf() && (forall i :: 0 <= i < |st.lines| ==> Loadable(st.lines[i]))
    requires Loadable(SIGNATURE) && (c.Rewrite? ==> Loadable(c.line))
    ensures forall i :: 0 <= i < |Apply(st, c).lines| ==> Loadable(Apply(st, c).lines[i])
  {
    hide Loadable;
  }

  // ---------- The theorem ----------

  function SchemaOf(opts: seq<Opt>): (m: Schema)
    ensures forall o :: o in m <==> exists i :: 0 <= i < |opts| && opts[i].name == o
  {
    if opts == [] then map[] else SchemaOf(opts[..|opts| - 1])[opts[|opts| - 1].name := opts[|opts| - 1].kind]
  }

  function DefaultsOf(opts: seq<Opt>): (m: Config)
    ensures m.Keys == SchemaOf(opts).Keys
  {
    if opts == [] then map[]
    else DefaultsOf(opts[..|opts| - 1])[opts[|opts| - 1].name := Default(opts[|opts| - 1].kind)]
  }

  /** `config` gives every option the value `f` picks for it. */
  ghost predicate Gives(config: Config, opts: seq<Opt>, f: Opt -> Value) {
    config.Keys == SchemaOf(opts).Keys
    && forall i :: 0 <= i < |opts| ==> opts[i].name in config && config[opts[i].name] == f(opts[i])
  }

  lemma {:induction false} SchemaAt(opts: seq<Opt>, i: nat)
    requires ValidOpts(opts) && i < |opts|
    ensures var o := opts[i];
            && o.name in SchemaOf(opts) && SchemaOf(opts)[o.name] == o.kind
            && o.name in DefaultsOf(opts) && DefaultsOf(opts)[o.name] == Default(o.kind)
    decreases |opts|
  {
    hide ValidOpt;
    if i < |opts| - 1 {
      SchemaAt(opts[..|opts| - 1], i);
    }
  }

  /** The content CONFIG REWRITE produces from a freshly read file. */
  ghost function NewContent(st: State, calls: seq<Call>): cstring
    requires st.Wf()
  {
    Glue(Collapse(WithoutOrphans(Run(st, calls)), false))
  }

  lemma FinalLoadable(st: State, calls: seq<Call>)
    requires Initial(st) && st.Wf() && ValidCalls(calls)
    requires forall i :: 0 <= i < |st.lines| ==> Parsable(st.lines[i])
    ensures forall i :: 0 <= i < |WithoutOrphans(Run(st, calls))| ==> Loadable(WithoutOrphans(Run(st, calls))[i])
  {
    RunLoadable(st, calls);
    hide Loadable, ValidCall, Run, Orphan, State.Wf;
    SignatureLoadable();
  }

  lemma OptionReloaded(st: State, opts: seq<Opt>, i: nat)
    requires Initial(st) && st.Wf() && ValidOpts(opts) && i < |opts|
    ensures var o, schema, config := opts[i], SchemaOf(opts), DefaultsOf(opts);
            && o.name in schema && o.name in config
            && schema[o.name] == o.kind && config[o.name] == Default(o.kind)
            && Fold(schema[o.name], config[o.name], Owned(WithoutOrphans(Run(st, AllCalls(opts))), o.name))
               == Some(Reloaded(o))
  {
    hide ValidOpt, Run, AllCalls, WithoutOrphans, Owned, Fold, Emitted, State.Wf, Initial, DefaultsOf, SchemaOf;
    hide Default;
    hide Reloaded, Calls, OptionOf, ValidCall;
    var o, n := opts[i], |Owned(st.lines, opts[i].name)|;
    SchemaAt(opts, i);
    AllCallsValid(opts);
    RewriteAccounting(st, AllCalls(opts), o.name);
    EmittedByOne(opts, i, n);
    OptionRoundTrip(o, n);
  }

  // ---------- What lines say ----------

  predicate Good(k: Kind, line: cstring) {
    Directive(k, Default(k), Arguments(line)).Some?
  }

  predicate AllGood(k: Kind, lines: seq<cstring>) {
    forall i :: 0 <= i < |lines| ==> Good(k, lines[i])
  }

  /** `save ""` drops the points before it. */
  predicate Clears(line: cstring) {
    |Arguments(line)| == 2 && CStr(Arguments(line)[1]) == []
  }

  function AfterLastClear(lines: seq<cstring>): seq<cstring> {
    if lines == [] || Clears(lines[|lines| - 1]) then []
    else AfterLastClear(lines[..|lines| - 1]) + [lines[|lines| - 1]]
  }

  function Points(lines: seq<cstring>): seq<(int, int)> {
    if lines == [] then []
    else
      var args := Arguments(lines[|lines| - 1]);
      Points(lines[..|lines| - 1]) + if |args| == 3 then [(Decimal.Atoi(args[1]), Decimal.Atoi(args[2]))] else []
  }

  /** What good lines for an option say: the last one wins, but save points after the last clearing add up. */
  function Said(k: Kind, lines: seq<cstring>): Value
    requires AllGood(k, lines)
  {
    if k.SaveKind? then Save(Points(AfterLastClear(lines)))
    else if lines == [] then Default(k)
    else Directive(k, Default(k), Arguments(lines[|lines| - 1])).value
  }

  lemma PointsSnoc(lines: seq<cstring>, line: cstring)
    ensures var args := Arguments(line);
            Points(lines + [line])
            == Points(lines) + if |args| == 3 then [(Decimal.Atoi(args[1]), Decimal.Atoi(args[2]))] else []
  {
    hide Arguments, Decimal.Atoi;
    assert (lines + [line])[..|lines|] == lines;
  }

  lemma {:induction false} FoldIsSaid(k: Kind, lines: seq<cstring>)
    ensures Fold(k, Default(k), lines) == if AllGood(k, lines) then Some(Said(k, lines)) else None
  {
    hide Arguments, Decimal.Atoi, EnumValue, YesNo;
    if lines != [] {
      var front, line := lines[..|lines| - 1], lines[|lines| - 1];
      FoldIsSaid(k, front);
      assert AllGood(k, lines) <==> AllGood(k, front) && Good(k, line);
      if k.SaveKind? {
        PointsSnoc(AfterLastClear(front), line);
        SaveStep(Points(AfterLastClear(front)), line);
        hide Directive, Points, Clears;
      }
    }
  }

  lemma SaveStep(points: seq<(int, int)>, line: cstring)
    ensures var args := Arguments(line);
            Directive(SaveKind, Save(points), args)
            == if !Good(SaveKind, line) then None
               else Some(Save(if Clears(line) then []
                              else points +
                                   if |args| == 3 then [(Decimal.Atoi(args[1]), Decimal.Atoi(args[2]))] else []))
  {
    hide Arguments, Decimal.Atoi;
    assert points + [] == points;
  }

  // ---------- The lines the rewrite keeps ----------

  lemma {:induction false} ProcessedNames(opts: seq<Opt>)
    requires ValidOpts(opts)
    ensures Processed(AllCalls(opts)) == SchemaOf(opts).Keys
  {
    hide ValidOpt;
    AllCallsValid(opts);
    forall x | x in Processed(AllCalls(opts)) ensures x in SchemaOf(opts) {
      if x !in SchemaOf(opts) {
        AllCallsFree(opts, x);
      }
    }
  }

  /** A directive that no option of the schema owns. */
  predicate Foreign(schema: Schema, line: cstring) {
    OptionOf(line).Some? && OptionOf(line).value !in schema
  }

  /** The rewritten file has the foreign directives of the old one and no others. */
  lemma ForeignKept(st: State, opts: seq<Opt>, line: cstring)
    requires Initial(st) && st.Wf() && ValidOpts(opts) && Foreign(SchemaOf(opts), line)
    ensures line in st.lines <==> line in WithoutOrphans(Run(st, AllCalls(opts)))
  {
    var calls := AllCalls(opts);
    AllCallsValid(opts);
    ProcessedNames(opts);
    RunExtends(st, calls);
    FinalExtends(st, calls);
    OptionOfEmpty();
    hide OptionOf, Run, AllCalls, WithoutOrphans, State.Wf, Initial, ValidOpt, ValidCall, SchemaOf;
    var lines := WithoutOrphans(Run(st, calls));
    if line in st.lines {
      var i :| 0 <= i < |st.lines| && st.lines[i] == line;
      assert lines[i] == line;
    }
    if line in lines {
      var i :| 0 <= i < |lines| && lines[i] == line;
      assert Run(st, calls).lines[i] == line;
      assert i < |st.lines| && !Belongs(st.lines[i], Processed(calls));
    }
  }

  /** No line that, cut at NUL, names an option of the schema is about anything else. */
  ghost predicate NoShadow(schema: Schema, lines: seq<cstring>) {
    forall l :: l in lines && NameOf(l).Some? && NameOf(l).value in schema ==> OptionOf(l) == NameOf(l)
  }

  lemma NamesUncut(opts: seq<Opt>, name: cstring)
    requires ValidOpts(opts) && name in SchemaOf(opts)
    ensures CStr(name) == name
  {
    var i :| 0 <= i < |opts| && opts[i].name == name;
    assert ValidOpt(opts[i]);
    WordArg(name);
  }

  /** Whether the loader takes the foreign directives, and whether one of them passes for an option,
      can be told from the old file. */
  lemma ForeignAsBefore(accepts: Accepts, st: State, opts: seq<Opt>)
    requires Initial(st) && st.Wf() && ValidOpts(opts)
    ensures var lines, schema := WithoutOrphans(Run(st, AllCalls(opts))), SchemaOf(opts);
            && (AllAccepted(accepts, schema, lines) <==> AllAccepted(accepts, schema, st.lines))
            && (NoShadow(schema, lines) <==> NoShadow(schema, st.lines))
  {
    hide OptionOf, Run, AllCalls, WithoutOrphans, State.Wf, Initial, ValidOpt, SchemaOf, Arguments, CStr;
    var lines, schema := WithoutOrphans(Run(st, AllCalls(opts))), SchemaOf(opts);
    forall l
      ensures !Foreign(schema, l) ==>
        Accepted(accepts, schema, l) && (OptionOf(l).Some? ==> OptionOf(l) == NameOf(l))
      ensures Foreign(schema, l) ==> (l in st.lines <==> l in lines)
    {
      if Foreign(schema, l) {
        ForeignKept(st, opts, l);
      } else if OptionOf(l).Some? {
        NamesUncut(opts, OptionOf(l).value);
      }
    }
  }

  // ---------- Which lines the loader applies ----------

  /** The lines the loader takes for the option say the value it has. */
  ghost predicate Restored(o: Opt, named: seq<cstring>) {
    AllGood(o.kind, named) && Said(o.kind, named) == o.value
  }

  /** The lines the loader will take for the option once the file with the lines `before` is rewritten. */
  function LinesFor(before: seq<cstring>, o: Opt): seq<cstring> {
    Merge(before, o.name, Emitted(Calls(o), o.name, |Owned(before, o.name)|))
  }

  lemma NamedIsLinesFor(st: State, opts: seq<Opt>, i: nat)
    requires Initial(st) && st.Wf() && ValidOpts(opts) && i < |opts|
    ensures Named(WithoutOrphans(Run(st, AllCalls(opts))), opts[i].name) == LinesFor(st.lines, opts[i])
  {
    hide ValidOpt, Run, AllCalls, WithoutOrphans, State.Wf, Initial, SchemaOf, Emitted, Owned, Named, Merge, CStr;
    hide ValidCall;
    AllCallsValid(opts);
    ProcessedNames(opts);
    SchemaAt(opts, i);
    forall x | x in Processed(AllCalls(opts)) ensures CStr(x) == x {
      NamesUncut(opts, x);
    }
    NamedIsMerge(st, AllCalls(opts), opts[i].name);
    EmittedByOne(opts, i, |Owned(st.lines, opts[i].name)|);
  }

  /** What can be told from the old file: the loader takes its foreign directives, and the lines that
      will stand for each option say its value. */
  ghost predicate Reloadable(accepts: Accepts, opts: seq<Opt>, before: seq<cstring>) {
    && AllAccepted(accepts, SchemaOf(opts), before)
    && forall i :: 0 <= i < |opts| ==> Restored(opts[i], LinesFor(before, opts[i]))
  }

  lemma {:induction false} NamedIsOwned(schema: Schema, lines: seq<cstring>, name: cstring)
    requires NoShadow(schema, lines) && name in schema && CStr(name) == name
    ensures Named(lines, name) == Owned(lines, name)
  {
    hide OptionOf, CStr;
    if lines != [] {
      var i := |lines| - 1;
      assert lines[i] in lines && forall l :: l in lines[..i] ==> l in lines;
      NamedIsOwned(schema, lines[..i], name);
    }
  }

  /** Loading `content` from the defaults gives every option the value `f` picks for it. */
  ghost predicate LoadGives(accepts: Accepts, opts: seq<Opt>, content: cstring, f: Opt -> Value) {
    var r := Load(accepts, SchemaOf(opts), DefaultsOf(opts), content);
    r.Some? && Gives(r.value, opts, f)
  }

  ghost predicate AllRestored(opts: seq<Opt>, lines: seq<cstring>) {
    forall i :: 0 <= i < |opts| ==> Restored(opts[i], Named(lines, opts[i].name))
  }

  lemma LinesGive(accepts: Accepts, opts: seq<Opt>, lines: seq<cstring>)
    requires ValidOpts(opts) && forall i :: 0 <= i < |lines| ==> Loadable(lines[i])
    ensures LoadGives(accepts, opts, Glue(Collapse(lines, false)), Current)
       <==> AllAccepted(accepts, SchemaOf(opts), lines) && AllRestored(opts, lines)
  {
    hide Load, Parsable, ValidOpt, Collapse, Glue, Named, Fold, DefaultsOf, SchemaOf, Clean, Default;
    hide Accepted, AllAccepted, AllFold, FoldsTo, Gives, AllRestored, RestoredByFold;
    var schema, config := SchemaOf(opts), DefaultsOf(opts);
    forall i | 0 <= i < |opts| ensures RestoredByFold(opts, i, lines) {
      RestoredIsFold(opts, i, lines);
    }
    LoadContent(accepts, schema, config, lines);
    var r := Load(accepts, schema, config, Glue(Collapse(lines, false)));
    FoldsGive(opts, lines, r, AllAccepted(accepts, schema, lines));
  }

  /** For any old file and any running configuration: loading the rewritten file gives back the
      configuration exactly if the loader takes every foreign directive of the old file, and for each
      option the old lines that pass for it, merged with those written for it, say its value. */
  lemma ReloadExactly(accepts: Accepts, st: State, opts: seq<Opt>)
    requires Initial(st) && st.Wf() && ValidOpts(opts)
    requires forall i :: 0 <= i < |st.lines| ==> Parsable(st.lines[i])
    ensures LoadGives(accepts, opts, NewContent(st, AllCalls(opts)), Current) <==> Reloadable(accepts, opts, st.lines)
  {
    AllCallsValid(opts);
    FinalLoadable(st, AllCalls(opts));
    ForeignAsBefore(accepts, st, opts);
    hide LoadGives, Loadable, Parsable, ValidOpt, Run, AllCalls, WithoutOrphans, State.Wf, Initial, SchemaOf;
    hide AllAccepted, Restored, NoShadow, Named, LinesFor;
    var lines := WithoutOrphans(Run(st, AllCalls(opts)));
    LinesGive(accepts, opts, lines);
    forall i | 0 <= i < |opts| ensures Named(lines, opts[i].name) == LinesFor(st.lines, opts[i]) {
      NamedIsLinesFor(st, opts, i);
    }
  }

  ghost predicate RestoredByFold(opts: seq<Opt>, i: nat, lines: seq<cstring>)
    requires i < |opts|
  {
    var o, schema, config := opts[i], SchemaOf(opts), DefaultsOf(opts);
    && o.name in schema && o.name in config
    && (Restored(o, Named(lines, o.name))
        <==> Fold(schema[o.name], config[o.name], Named(lines, o.name)) == Some(o.value))
  }

  lemma RestoredIsFold(opts: seq<Opt>, i: nat, lines: seq<cstring>)
    requires ValidOpts(opts) && i < |opts|
    ensures RestoredByFold(opts, i, lines)
  {
    hide Said, AllGood, Fold, Named, ValidOpt;
    SchemaAt(opts, i);
    FoldIsSaid(opts[i].kind, Named(lines, opts[i].name));
  }

  lemma FoldsGiveOne(opts: seq<Opt>, lines: seq<cstring>, c: Config, i: nat)
    requires i < |opts| && RestoredByFold(opts, i, lines) && FoldsTo(SchemaOf(opts), DefaultsOf(opts), lines, c)
    ensures opts[i].name in c && (c[opts[i].name] == opts[i].value <==> Restored(opts[i], Named(lines, opts[i].name)))
  {
    hide Restored, Fold, Named, SchemaOf, DefaultsOf;
  }

  lemma RestoredFolds(opts: seq<Opt>, lines: seq<cstring>)
    requires AllRestored(opts, lines) && forall i :: 0 <= i < |opts| ==> RestoredByFold(opts, i, lines)
    ensures AllFold(SchemaOf(opts), DefaultsOf(opts), lines)
  {
    hide Restored, Fold, Named, DefaultsOf;
    var schema, config := SchemaOf(opts), DefaultsOf(opts);
    forall o | o in schema ensures Fold(schema[o], config[o], Named(lines, o)).Some? {
      var i :| 0 <= i < |opts| && opts[i].name == o;
      assert RestoredByFold(opts, i, lines);
    }
  }

  /** From the folds of all lines to the values of the options. */
  lemma FoldsGive(opts: seq<Opt>, lines: seq<cstring>, r: Option<Config>, accepted: bool)
    requires var schema, config := SchemaOf(opts), DefaultsOf(opts);
             && (forall i :: 0 <= i < |opts| ==> RestoredByFold(opts, i, lines))
             && (r.Some? <==> accepted && AllFold(schema, config, lines))
             && (r.Some? ==> FoldsTo(schema, config, lines, r.value))
    ensures (r.Some? && Gives(r.value, opts, Current)) <==> accepted && AllRestored(opts, lines)
  {
    hide Restored, RestoredByFold, AllFold, SchemaOf, DefaultsOf, Named;
    if AllRestored(opts, lines) {
      RestoredFolds(opts, lines);
    }
    if r.Some? {
      FoldsKeys(opts, lines, r.value);
      hide FoldsTo;
      forall i | 0 <= i < |opts|
        ensures opts[i].name in r.value
        ensures r.value[opts[i].name] == opts[i].value <==> Restored(opts[i], Named(lines, opts[i].name))
      {
        FoldsGiveOne(opts, lines, r.value, i);
      }
    }
  }

  lemma FoldsKeys(opts: seq<Opt>, lines: seq<cstring>, c: Config)
    requires FoldsTo(SchemaOf(opts), DefaultsOf(opts), lines, c)
    ensures c.Keys == SchemaOf(opts).Keys
  {
  }

  /** If no foreign line of the old file passes for an option, loading the rewritten file gives every
      option its value, or its default if it is a NULL string, exactly if the foreign directives are taken. */
  lemma ReloadGivesValues(accepts: Accepts, st: State, opts: seq<Opt>)
    requires Initial(st) && st.Wf() && ValidOpts(opts) && NoShadow(SchemaOf(opts), st.lines)
    requires forall i :: 0 <= i < |st.lines| ==> Parsable(st.lines[i])
    ensures LoadGives(accepts, opts, NewContent(st, AllCalls(opts)), Reloaded)
       <==> AllAccepted(accepts, SchemaOf(opts), st.lines)
  {
    AllCallsValid(opts);
    FinalLoadable(st, AllCalls(opts));
    ForeignAsBefore(accepts, st, opts);
    hide Load, Parsable, ValidOpt, Run, AllCalls, WithoutOrphans, Collapse, Glue, Owned, Named, Fold, Emitted, State.Wf;
    hide DefaultsOf, SchemaOf, Clean, Default, Reloaded, Initial, Accepted, AllAccepted, NoShadow;
    var schema, config := SchemaOf(opts), DefaultsOf(opts);
    var lines := WithoutOrphans(Run(st, AllCalls(opts)));
    forall i | 0 <= i < |opts|
      ensures opts[i].name in schema && opts[i].name in config
      ensures Fold(schema[opts[i].name], config[opts[i].name], Named(lines, opts[i].name)) == Some(Reloaded(opts[i]))
    {
      OptionReloaded(st, opts, i);
      NamesUncut(opts, opts[i].name);
      NamedIsOwned(schema, lines, opts[i].name);
    }
    LoadContent(accepts, schema, config, lines);
  }

  /** One foreign directive that is not taken stops the loader. */
  lemma RejectedFails(accepts: Accepts, st: State, opts: seq<Opt>)
    requires Initial(st) && st.Wf() && ValidOpts(opts) && !AllAccepted(accepts, SchemaOf(opts), st.lines)
    requires forall i :: 0 <= i < |st.lines| ==> Parsable(st.lines[i])
    ensures Load(accepts, SchemaOf(opts), DefaultsOf(opts), NewContent(st, AllCalls(opts))) == None
  {
    AllCallsValid(opts);
    FinalLoadable(st, AllCalls(opts));
    ForeignAsBefore(accepts, st, opts);
    hide Load, Parsable, ValidOpt, Run, AllCalls, WithoutOrphans, Collapse, Glue, State.Wf, Initial;
    hide DefaultsOf, SchemaOf, Clean, AllAccepted, AllFold, FoldsTo, NoShadow;
    LoadContent(accepts, SchemaOf(opts), DefaultsOf(opts), WithoutOrphans(Run(st, AllCalls(opts))));
  }

  ghost predicate NoStringLost(opts: seq<Opt>) {
    forall i :: 0 <= i < |opts| && opts[i].value == Str(None) ==> Default(opts[i].kind) == Str(None)
  }

  lemma ReloadTakes(accepts: Accepts, st: State, opts: seq<Opt>)
    requires Initial(st) && st.Wf() && ValidOpts(opts)
    requires forall i :: 0 <= i < |st.lines| ==> Parsable(st.lines[i])
    ensures LoadGives(accepts, opts, NewContent(st, AllCalls(opts)), Current)
        ==> AllAccepted(accepts, SchemaOf(opts), st.lines)
  {
    ReloadExactly(accepts, st, opts);
  }

  /** So the running configuration comes back exactly if the foreign directives are taken and no string
      option is NULL whose default is not. */
  lemma ReloadRoundTrip(accepts: Accepts, st: State, opts: seq<Opt>)
    requires Initial(st) && st.Wf() && ValidOpts(opts) && NoShadow(SchemaOf(opts), st.lines)
    requires forall i :: 0 <= i < |st.lines| ==> Parsable(st.lines[i])
    ensures LoadGives(accepts, opts, NewContent(st, AllCalls(opts)), Current)
       <==> AllAccepted(accepts, SchemaOf(opts), st.lines) && NoStringLost(opts)
  {
    ReloadGivesValues(accepts, st, opts);
    ReloadTakes(accepts, st, opts);
    hide Load, Parsable, ValidOpt, NewContent, AllCalls, State.Wf, Initial, SchemaOf, Default, NoShadow, Restored;
    hide WithoutOrphans, AllAccepted;
    if AllAccepted(accepts, SchemaOf(opts), st.lines) {
      var r := Load(accepts, SchemaOf(opts), DefaultsOf(opts), NewContent(st, AllCalls(opts))).value;
      forall i | 0 <= i < |opts|
        ensures r[opts[i].name] == opts[i].value
           <==> (opts[i].value == Str(None) ==> Default(opts[i].kind) == Str(None))
      {
        assert r[opts[i].name] == Reloaded(opts[i]);
      }
    }
  }

  // ---------- Lines that pass for an option ----------

  /** The line sets the option to the value it has. */
  predicate Sets(o: Opt, line: cstring) {
    Directive(o.kind, Default(o.kind), Arguments(line)) == Some(o.value)
  }

  lemma OwnLineSets(o: Opt, n: nat, line: cstring)
    requires ValidOpt(o) && !o.kind.SaveKind? && line in Emitted(Calls(o), o.name, n)
    ensures Sets(o, line)
  {
    OptionRoundTrip(o, 1);
    hide Directive, Arguments, Emitted, Fold, ValidValue, ValidName;
    if Calls(o)[0].Mark? {
      EmittedSingle(o.name, [], true, n);
      assert false;
    } else {
      var c := Calls(o)[0];
      assert Calls(o) == [Rewrite(o.name, c.line, c.force)];
      EmittedSingle(o.name, c.line, c.force, n);
      EmittedSingle(o.name, c.line, c.force, 1);
      FoldSingle(o.kind, Default(o.kind), c.line);
    }
  }

  /** What the lines of a merge must be for the option to come back: lines that only pass for it can be
      read, and the last line is the option's own or says the same; with no line, it has its default.
      Save points are those on the lines after the last clearing. */
  ghost predicate SaidLast(o: Opt, named: seq<cstring>) {
    && (forall k :: 0 <= k < |named| && OptionOf(named[k]) != Some(o.name) ==> Good(o.kind, named[k]))
    && if o.kind.SaveKind? then o.value == Save(Points(AfterLastClear(named)))
       else if named == [] then o.value == Default(o.kind)
       else OptionOf(named[|named| - 1]) == Some(o.name) || Sets(o, named[|named| - 1])
  }

  lemma OwnLinesGood(o: Opt, n: nat)
    requires ValidOpt(o)
    ensures AllGood(o.kind, Emitted(Calls(o), o.name, n))
  {
    hide Good, Calls, Emitted, ValidOpt, Said;
    OptionRoundTrip(o, n);
    FoldIsSaid(o.kind, Emitted(Calls(o), o.name, n));
  }

  /** When an option comes back, told from the old file. */
  lemma RestoredByLast(before: seq<cstring>, o: Opt)
    requires ValidOpt(o)
    ensures Restored(o, LinesFor(before, o)) <==> SaidLast(o, LinesFor(before, o))
  {
    hide ValidOpt, Calls, OptionOf, Emitted, Directive, Arguments, NameOf, Merge;
    var n := |Owned(before, o.name)|;
    var own, named := Emitted(Calls(o), o.name, n), LinesFor(before, o);
    MergeMembers(before, o.name, own);
    OwnLinesGood(o, n);
    forall k | 0 <= k < |named| && OptionOf(named[k]) == Some(o.name)
      ensures Good(o.kind, named[k]) && (!o.kind.SaveKind? ==> Sets(o, named[k]))
    {
      assert named[k] in named;
      if !o.kind.SaveKind? {
        OwnLineSets(o, n, named[k]);
      }
    }
    hide Default;
  }
}
