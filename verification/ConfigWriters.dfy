/** The writers of config.c:1504-1589 acting on the rewrite state, and rewriteConfig as a whole. */
module ConfigWriters {
  import opened CStrings
  import opened Quoting
  import opened SdsStrings
  import opened Wrappers
  import opened ConfigLines
  import opened ConfigRewrite
  import opened ConfigOptions
  import opened ConfigReload
  import opened ConfigRoundTrip
  import Decimal

  lemma RunOne(st: State, c: Call)
    requires st.Wf()
    ensures Run(st, [c]) == Apply(st, c) && Run(st, []) == st
  {
    assert [c][..0] == [];
  }

  lemma {:induction false} RunConcat(st: State, a: seq<Call>, b: seq<Call>)
    requires st.Wf()
    ensures Run(st, a + b) == Run(Run(st, a), b)
    decreases |b|
  {
    hide Apply, State.Wf;
    if b == [] {
      assert a + b == a;
    } else {
      var m := |b| - 1;
      RunConcat(st, a, b[..m]);
      assert (a + b)[..|a + b| - 1] == a + b[..m];
    }
  }

  /** rewriteConfigYesNoOption */
  method RewriteYesNo(state: RewriteState, option: cstring, value: bool, defvalue: bool)
    requires state.Abs().Wf() && Lower(option) == option
    modifies state
    ensures state.Abs().Wf()
    ensures state.Abs() == Run(old(state.Abs()), Calls(Opt(option, YesNoKind(defvalue), Flag(value))))
  {
    var force := value != defvalue;
    var line := option + [' '] + (if value then YES else NO);
    RunOne(state.Abs(), Rewrite(option, line, force));
    state.RewriteLine(option, line, force);
  }

  /** rewriteConfigStringOption */
  method RewriteString(state: RewriteState, option: cstring, value: Option<cstring>, defvalue: Option<cstring>)
    requires state.Abs().Wf() && Lower(option) == option
    modifies state
    ensures state.Abs().Wf()
    ensures state.Abs() == Run(old(state.Abs()), Calls(Opt(option, StringKind(defvalue), Str(value))))
  {
    if value == None {
      RunOne(state.Abs(), Mark(option));
      state.MarkAsProcessed(option);
      return;
    }
    var force := true;
    if defvalue.Some? && value.value == defvalue.value {
      force := false;
    }
    var s := new Sds(option);
    s.CatLen([' ']);
    CatRepr(s, value.value);
    var line := s.Contents();
    RunOne(state.Abs(), Rewrite(option, line, force));
    state.RewriteLine(option, line, force);
  }

  /** rewriteConfigNumericalOption */
  method RewriteNumerical(state: RewriteState, option: cstring, value: int, defvalue: int, lo: int, hi: int)
    requires state.Abs().Wf() && Lower(option) == option
    modifies state
    ensures state.Abs().Wf()
    ensures state.Abs() == Run(old(state.Abs()), Calls(Opt(option, NumericKind(defvalue, lo, hi), Num(value))))
  {
    var force := value != defvalue;
    var line := option + [' '] + Decimal.Text(value);
    RunOne(state.Abs(), Rewrite(option, line, force));
    state.RewriteLine(option, line, force);
  }

  /** configEnumGetNameOrUnknown */
  method EnumGetNameOrUnknown(ce: seq<(cstring, int)>, val: int) returns (name: cstring)
    ensures name == EnumName(ce, val)
  {
    assert ce[0..] == ce;
    for i := 0 to |ce|
      invariant EnumName(ce, val) == EnumName(ce[i..], val)
    {
      if ce[i].1 == val {
        return ce[i].0;
      }
      assert ce[i..][1..] == ce[i + 1..];
    }
    name := UNKNOWN;
  }

  /** rewriteConfigEnumOption */
  method RewriteEnum(state: RewriteState, option: cstring, value: int, ce: seq<(cstring, int)>, defval: int)
    requires state.Abs().Wf() && Lower(option) == option
    modifies state
    ensures state.Abs().Wf()
    ensures state.Abs() == Run(old(state.Abs()), Calls(Opt(option, EnumKind(defval, ce), Choice(value))))
  {
    var name := EnumGetNameOrUnknown(ce, value);
    var force := value != defval;
    var line := option + [' '] + name;
    RunOne(state.Abs(), Rewrite(option, line, force));
    state.RewriteLine(option, line, force);
  }

  /** rewriteConfigSaveOption */
  method RewriteSave(state: RewriteState, option: cstring, saveparams: seq<(int, int)>)
    requires state.Abs().Wf() && Lower(option) == option
    modifies state
    ensures state.Abs().Wf()
    ensures state.Abs() == Run(old(state.Abs()), Calls(Opt(option, SaveKind, Save(saveparams))))
  {
    hide Apply, State.Wf, SaveText;
    ghost var st := state.Abs();
    RunOne(st, Mark(option));
    for j := 0 to |saveparams|
      invariant state.Abs().Wf()
      invariant state.Abs() == Run(st, SaveCalls(option, saveparams[..j]))
    {
      var line := option + [' '] + SaveText(saveparams[j]);
      ghost var c := Rewrite(option, line, true);
      assert saveparams[..j + 1][..j] == saveparams[..j];
      RunConcat(st, SaveCalls(option, saveparams[..j]), [c]);
      RunOne(state.Abs(), c);
      state.RewriteLine(option, line, true);
    }
    assert saveparams[..|saveparams|] == saveparams;
    RunConcat(st, SaveCalls(option, saveparams), [Mark(option)]);
    RunOne(state.Abs(), Mark(option));
    MarkApplies(state.Abs(), option);
    state.MarkAsProcessed(option);
  }

  lemma MarkApplies(st: State, option: cstring)
    requires st.Wf()
    ensures Apply(st, Mark(option)) == st.(rewritten := st.rewritten + {option})
  {
  }

  /** The writer for one option. */
  method RewriteOption(state: RewriteState, o: Opt)
    requires state.Abs().Wf() && ValidOpt(o)
    modifies state
    ensures state.Abs().Wf()
    ensures state.Abs() == Run(old(state.Abs()), Calls(o))
  {
    hide Run, Calls, State.Wf;
    match (o.kind, o.value)
    case (StringKind(d), Str(s)) => RewriteString(state, o.name, s, d);
    case (YesNoKind(d), Flag(b)) => RewriteYesNo(state, o.name, b, d);
    case (NumericKind(d, lo, hi), Num(n)) => RewriteNumerical(state, o.name, n, d, lo, hi);
    case (EnumKind(d, table), Choice(e)) => RewriteEnum(state, o.name, e, table, d);
    case (SaveKind, Save(points)) => RewriteSave(state, o.name, points);
    case _ => assert false;
  }

  /** Step 2 of rewriteConfig: every option, one after the other. */
  method RewriteAll(state: RewriteState, opts: seq<Opt>)
    requires state.Abs().Wf() && ValidOpts(opts)
    modifies state
    ensures state.Abs().Wf()
    ensures state.Abs() == Run(old(state.Abs()), AllCalls(opts))
  {
    hide Calls, State.Wf, ValidOpt;
    for i := 0 to |opts|
      invariant state.Abs().Wf()
      invariant state.Abs() == Run(old(state.Abs()), AllCalls(opts[..i]))
    {
      assert opts[..i + 1][..i] == opts[..i];
      RunConcat(old(state.Abs()), AllCalls(opts[..i]), Calls(opts[i]));
      RewriteOption(state, opts[i]);
    }
    assert opts[..|opts|] == opts;
  }

  lemma NewContentNoNul(st: State, calls: seq<Call>)
    requires Initial(st) && st.Wf() && ValidCalls(calls)
    requires forall i :: 0 <= i < |st.lines| ==> Parsable(st.lines[i])
    ensures NoNul(NewContent(st, calls))
  {
    FinalLoadable(st, calls);
    hide WithoutOrphans, Collapse, Glue, Trimmed;
    var lines := WithoutOrphans(Run(st, calls));
    CollapseMembers(lines, false);
    var kept := Collapse(lines, false);
    forall i | 0 <= i < |kept| ensures NoNul(kept[i]) {
      assert kept[i] in lines;
    }
    GlueNoNul(kept);
  }

  /** The content CONFIG REWRITE makes of a file. */
  ghost function Rewritten(file: cstring, opts: seq<Opt>): cstring {
    StateOfInitial(file);
    NewContent(StateOf(file), AllCalls(opts))
  }

  /** What is read from a file can be parsed, as each of its lines has a name. */
  lemma ReadParsable(file: cstring)
    requires forall i :: 0 <= i < |Chunks(file)| ==> HasName(Chunks(file)[i])
    ensures var lines := StoredLines(Chunks(file)); forall i :: 0 <= i < |lines| ==> Parsable(lines[i])
  {
    forall i | 0 <= i < |Chunks(file)| ensures Parsable(Stored(Chunks(file)[i])) {
      StoredParsable(Chunks(file)[i]);
    }
  }

  /** rewriteConfig up to the new content.  Loading that content from the defaults gives back the running
      configuration exactly if the old file is Reloadable.  If no line of it passes for an option, every
      option gets its value, or its default if it is a string that is NULL, exactly if the loader takes
      the foreign directives of the file. */
  method RewriteConfig(file: cstring, opts: seq<Opt>, ghost accepts: Accepts) returns (newcontent: cstring)
    requires forall i :: 0 <= i < |Chunks(file)| ==> HasName(Chunks(file)[i])
    requires ValidOpts(opts)
    ensures newcontent == Rewritten(file, opts) && NoNul(newcontent)
    ensures Reloads(accepts, opts, StoredLines(Chunks(file)), newcontent)
  {
    var state := new RewriteState.ReadOldFile(file);
    ghost var st := state.Abs();
    StateOfInitial(file);
    InitialIsStateOf(st, file);
    ReadParsable(file);
    AllCallsValid(opts);
    NewContentNoNul(st, AllCalls(opts));
    ReloadsAsToldBefore(accepts, st, opts);
    hide Initial, State.Wf, ValidOpt, Parsable, Load, Run, AllCalls, StateOf, StoredLines, Reloads;
    RewriteAll(state, opts);
    state.RemoveOrphaned();
    newcontent := GetContent(state.lines);
    assert newcontent == NewContent(st, AllCalls(opts));
  }

  /** What the lines of the old file tell about loading the content. */
  ghost predicate Reloads(accepts: Accepts, opts: seq<Opt>, before: seq<cstring>, content: cstring) {
    && (LoadGives(accepts, opts, content, Current) <==> Reloadable(accepts, opts, before))
    && (NoShadow(SchemaOf(opts), before) ==>
          (LoadGives(accepts, opts, content, Reloaded) <==> AllAccepted(accepts, SchemaOf(opts), before)))
  }

  lemma ReloadsAsToldBefore(accepts: Accepts, st: State, opts: seq<Opt>)
    requires Initial(st) && st.Wf() && ValidOpts(opts)
    requires forall i :: 0 <= i < |st.lines| ==> Parsable(st.lines[i])
    ensures Reloads(accepts, opts, st.lines, NewContent(st, AllCalls(opts)))
  {
    ReloadExactly(accepts, st, opts);
    if NoShadow(SchemaOf(opts), st.lines) {
      ReloadGivesValues(accepts, st, opts);
    }
  }
}
