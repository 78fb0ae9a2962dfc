/** Two old files that do not let the running configuration come back: a directive that the loader takes
    for another because its name has a NUL (config.c:203), and one that it does not know (config.c:647). */
module ConfigShadows {
  import opened CStrings
  import opened Quoting
  import opened SdsStrings
  import opened Wrappers
  import opened ConfigLines
  import opened ConfigRewrite
  import opened ConfigAccounting
  import opened ConfigOptions
  import opened ConfigReload
  import opened ConfigRoundTrip
  import opened ConfigIdempotence
  import opened ConfigWriters
  import Decimal

  /** A file of one clean line. */
  lemma OneLineFile(line: cstring)
    requires Loadable(line)
    ensures var file := line + ['\n'];
            && StateOf(file).lines == [line]
            && forall i :: 0 <= i < |Chunks(file)| ==> HasName(Chunks(file)[i])
  {
    var file := line + ['\n'];
    StateOfInitial(file);
    assert Glue([line]) == file;
    ReadBack([line]);
  }

  /** Options that the old line does not name and that have their defaults leave the file as it is. */
  lemma LineStays(st: State, opt: Opt, line: cstring)
    requires Initial(st) && st.Wf() && st.lines == [line] && OptionOf(line) != Some(opt.name)
    requires ValidOpts([opt]) && Emitted(AllCalls([opt]), opt.name, 0) == []
    ensures WithoutOrphans(Run(st, AllCalls([opt]))) == [line]
  {
    var calls := AllCalls([opt]);
    AllCallsValid([opt]);
    AllCallsOf(opt);
    OwnedOne(line, opt.name);
    OwnedAt(st.lines, opt.name);
    hide OptionOf, Run, AllCalls, Emitted, Owned, Positions, Initial, State.Wf, ValidCall, WithoutOrphans;
    forall i | 0 <= i < |calls| ensures Settled(st, calls, calls[i].option) {
    }
    SettledFinal(st, calls);
  }

  lemma AllCallsOf(opt: Opt)
    requires ValidOpt(opt)
    ensures AllCalls([opt]) == Calls(opt)
    ensures forall i :: 0 <= i < |AllCalls([opt])| ==> AllCalls([opt])[i].option == opt.name
  {
    CallsValid(opt);
    assert [opt][..0] == [];
    assert [] + Calls(opt) == Calls(opt);
  }

  const PORT: cstring := "port"
  const PORT_NUL: cstring := "port" + [NUL]
  const SHADOW: cstring := "\"port\\x00\" 1234"

  lemma PortName()
    ensures ValidName(PORT) && NoNul(PORT) && Lower(PORT_NUL) == PORT_NUL && CStr(PORT_NUL) == PORT
  {
    assert PORT == ['p', 'o', 'r', 't'];
    CStrStops(PORT, []);
    assert PORT_NUL == PORT + [NUL] + [];
  }

  /** Letters are printed as they are. */
  lemma {:induction false} LettersRepr(s: cstring)
    requires forall i :: 0 <= i < |s| ==> 'a' <= s[i] <= 'z'
    ensures ReprBody(s) == s
  {
    if s != [] {
      LettersRepr(s[1..]);
    }
  }

  const NUMBER: cstring := "1234"
  const SHADOW_ARGS := [Quoted(PORT_NUL)] + [Bare(NUMBER)]

  lemma NumberText()
    ensures NUMBER == ['1', '2', '3', '4'] && Decimal.Text(1234) == NUMBER && Decimal.Atoi(NUMBER) == 1234
  {
    assert Decimal.Digits(1) == ['1'];
    assert Decimal.Digits(12) == ['1', '2'];
    assert Decimal.Digits(123) == ['1', '2', '3'];
    Decimal.AtoiText(1234);
  }

  lemma PortRepr()
    ensures Repr(PORT_NUL) == ['"', 'p', 'o', 'r', 't', '\\', 'x', '0', '0', '"']
  {
    assert PORT == ['p', 'o', 'r', 't'];
    LettersRepr(PORT);
    ReprBodySnoc(PORT, NUL);
    assert ReprChar(NUL) == ['\\', 'x', '0', '0'];
    hide ReprBody, ReprChar;
  }

  lemma ShadowText()
    ensures JoinArgs(SHADOW_ARGS) == SHADOW
  {
    PortRepr();
    NumberText();
    JoinArgsCons(Quoted(PORT_NUL), [Bare(NUMBER)]);
    assert JoinArgs([Bare(NUMBER)]) == NUMBER;
    hide JoinArgs, Repr;
    assert SHADOW == Repr(PORT_NUL) + [' '] + NUMBER;
  }

  lemma ShadowArguments()
    ensures Arguments(SHADOW) == [PORT_NUL, NUMBER] && SplitArgs(SHADOW) == Some([PORT_NUL, NUMBER])
  {
    ShadowText();
    NumberText();
    assert ValidArg(Bare(NUMBER)) && ValidArg(Quoted(PORT_NUL));
    hide SplitArgs, JoinArgs, ValidArg;
    ArgsRoundTrip(SHADOW_ARGS);
    ValuesCons(Quoted(PORT_NUL), [Bare(NUMBER)]);
    ValuesCons(Bare(NUMBER), []);
  }

  /** The line is a clean directive, of the option "port\0" for the rewrite and of "port" for the loader. */
  lemma ShadowLine()
    ensures Loadable(SHADOW) && OptionOf(SHADOW) == Some(PORT_NUL) && NameOf(SHADOW) == Some(PORT)
  {
    PortName();
    ShadowArguments();
    hide SplitArgs, CStr;
    assert SHADOW[0] == '"' && SHADOW[|SHADOW| - 1] == '4';
    PrintableClean(SHADOW);
  }

  const PORT_OPTION := Opt(PORT, NumericKind(6379, 0, 65535), Num(6379))

  lemma PortOption()
    ensures ValidOpts([PORT_OPTION]) && Emitted(AllCalls([PORT_OPTION]), PORT, 0) == []
    ensures SchemaOf([PORT_OPTION]) == map[PORT := PORT_OPTION.kind]
    ensures DefaultsOf([PORT_OPTION]) == map[PORT := Num(6379)]
  {
    PortName();
    assert [PORT_OPTION][..0] == [];
    AllCallsOf(PORT_OPTION);
    var c := Calls(PORT_OPTION)[0];
    assert Calls(PORT_OPTION) == [Rewrite(PORT, c.line, false)];
    EmittedSingle(PORT, c.line, false, 0);
  }

  /** No option has the whole name of the line, so it stays. */
  lemma ShadowStays()
    ensures Rewritten(SHADOW + ['\n'], [PORT_OPTION]) == Glue(Collapse([SHADOW], false))
  {
    ShadowLine();
    OneLineFile(SHADOW);
    PortOption();
    StateOfInitial(SHADOW + ['\n']);
    hide StateOf, Glue, Collapse, WithoutOrphans, Run, AllCalls, Initial, State.Wf, ValidOpts, Emitted, OptionOf;
    LineStays(StateOf(SHADOW + ['\n']), PORT_OPTION, SHADOW);
  }

  lemma ShadowFold()
    ensures Fold(PORT_OPTION.kind, Num(6379), Named([SHADOW], PORT)) == Some(Num(1234))
  {
    ShadowLine();
    ShadowArguments();
    NumberText();
    hide OptionOf, SplitArgs, CStr, Decimal.Atoi;
    NamedOne(SHADOW, PORT);
    FoldSingle(PORT_OPTION.kind, Num(6379), SHADOW);
  }

  /** And the loader sets the port from it. */
  lemma ShadowLoads(accepts: Accepts)
    ensures Load(accepts, map[PORT := PORT_OPTION.kind], map[PORT := Num(6379)], Glue(Collapse([SHADOW], false)))
         == Some(map[PORT := Num(1234)])
  {
    ShadowFold();
    ShadowLine();
    hide Load, Glue, Collapse, Named, Fold, OptionOf, NameOf, Arguments, SplitArgs, CStr, Trimmed, NoNul, Avoids;
    LoadContent(accepts, map[PORT := PORT_OPTION.kind], map[PORT := Num(6379)], [SHADOW]);
    OnlyOne(PORT, Num(1234));
  }

  lemma OnlyOne(name: cstring, v: Value)
    ensures forall c: Config :: c.Keys == {name} && c[name] == v ==> c == map[name := v]
  {
  }

  /** The rewrite keeps the line and the loader then sets the port from it.  This rests on a dictionary of the
      rewrite that keeps "port\0" and "port" apart; its comparison, dictSdsKeyCaseCompare (config.c:1298, 1310),
      is not part of this model. */
  lemma NulNameShadows(accepts: Accepts)
    ensures var file, opts := SHADOW + ['\n'], [PORT_OPTION];
            && ValidOpts(opts) && (forall i :: 0 <= i < |Chunks(file)| ==> HasName(Chunks(file)[i]))
            && Load(accepts, SchemaOf(opts), DefaultsOf(opts), Rewritten(file, opts)) == Some(map[PORT := Num(1234)])
            && !LoadGives(accepts, opts, Rewritten(file, opts), Current)
  {
    ShadowLine();
    OneLineFile(SHADOW);
    PortOption();
    ShadowStays();
    ShadowLoads(accepts);
    hide Load, Rewritten, ValidOpts, Chunks, SchemaOf, DefaultsOf;
  }

  // ---------- A directive the loader does not know ----------

  const FOO: cstring := "foo"
  const BAR: cstring := "bar"

  lemma FooLine()
    ensures var line := FOO + [' '] + BAR;
            && Loadable(line) && Arguments(line) == [FOO, BAR]
            && OptionOf(line) == Some(FOO) && NameOf(line) == Some(FOO)
  {
    assert FOO == ['f', 'o', 'o'] && BAR == ['b', 'a', 'r'];
    assert Lower(FOO) == FOO && ValidName(FOO) && Word(BAR);
    WrittenWord(FOO, BAR);
    CStrNoNul(FOO);
    hide Arguments, Clean, CStr;
  }

  /** The rewrite keeps a line that it does not understand; a loader that does not either then fails. */
  lemma ForeignFails(accepts: Accepts, opts: seq<Opt>)
    requires ValidOpts(opts) && FOO !in SchemaOf(opts) && !accepts([FOO, BAR])
    ensures var file := FOO + [' '] + BAR + ['\n'];
            && (forall i :: 0 <= i < |Chunks(file)| ==> HasName(Chunks(file)[i]))
            && Load(accepts, SchemaOf(opts), DefaultsOf(opts), Rewritten(file, opts)) == None
  {
    var line := FOO + [' '] + BAR;
    FooLine();
    OneLineFile(line);
    StateOfInitial(line + ['\n']);
    var st := StateOf(line + ['\n']);
    assert line in st.lines && !Accepted(accepts, SchemaOf(opts), line);
    hide Load, ValidOpts, AllCalls, State.Wf, Initial, StateOf, Chunks, DefaultsOf, SchemaOf, OptionOf, NewContent;
    hide Clean;
    RejectedFails(accepts, st, opts);
  }
}
