/** Rewriting a file twice with the real writers: the options of this model settle at once, while
    client-output-buffer-limit (config.c:93-97, 1476-1491, 1633-1658) settles only sometimes. */
module ConfigTwice {
  import opened CStrings
  import opened Quoting
  import opened ConfigLines
  import opened ConfigRewrite
  import opened ConfigAccounting
  import opened ConfigOptions
  import opened ConfigRoundTrip
  import opened ConfigIdempotence
  import opened ConfigMemory
  import opened ConfigWriters
  import Decimal

  // ---------- The options of this model ----------

  lemma {:induction false} TriesConcat(a: seq<Call>, b: seq<Call>, option: cstring)
    ensures Tries(a + b, option) == Tries(a, option) + Tries(b, option)
    decreases |b|
  {
    if b == [] {
      assert a + b == a;
    } else {
      var m := |b| - 1;
      TriesConcat(a, b[..m], option);
      assert (a + b)[..|a + b| - 1] == a + b[..m];
    }
  }

  lemma {:induction false} TriesOfOthers(calls: seq<Call>, option: cstring)
    requires FreeOf(calls, option)
    ensures Tries(calls, option) == []
  {
    if calls != [] {
      TriesOfOthers(calls[..|calls| - 1], option);
    }
  }

  lemma TriesOfOne(c: Call, option: cstring)
    ensures Tries([c], option) == if c.Rewrite? && c.option == option then [(c.line, c.force)] else []
    ensures Tries([], option) == []
  {
    assert [c][..0] == [];
  }

  lemma {:induction false} SaveTriesForced(name: cstring, points: seq<(int, int)>)
    ensures AllForced(Tries(SaveCalls(name, points), name))
  {
    hide Tries, SaveText;
    if points == [] {
      TriesOfOne(Mark(name), name);
    } else {
      var front, p := points[..|points| - 1], points[|points| - 1];
      var c := Rewrite(name, name + [' '] + SaveText(p), true);
      SaveTriesForced(name, front);
      TriesConcat(SaveCalls(name, front), [c], name);
      TriesOfOne(c, name);
    }
  }

  ghost predicate AllForced(tries: seq<Try>) {
    forall i :: 0 <= i < |tries| ==> tries[i].1
  }

  /** Every writer makes one rewriting call, or forced ones only. */
  lemma CallsOneOrForced(o: Opt)
    requires ValidOpt(o)
    ensures OneOrForced(Tries(Calls(o), o.name))
  {
    hide Tries, ValidName;
    if o.kind.SaveKind? {
      var points := o.value.points;
      SaveTriesForced(o.name, points);
      TriesConcat(SaveCalls(o.name, points), [Mark(o.name)], o.name);
      TriesOfOne(Mark(o.name), o.name);
      assert Tries(Calls(o), o.name) == Tries(SaveCalls(o.name, points), o.name);
    } else {
      assert Calls(o) == [Calls(o)[0]];
      TriesOfOne(Calls(o)[0], o.name);
    }
  }

  /** And so do all writers together, for each option. */
  lemma {:induction false} AllCallsOneOrForced(opts: seq<Opt>, option: cstring)
    requires ValidOpts(opts)
    ensures OneOrForced(Tries(AllCalls(opts), option))
  {
    hide Tries, Calls, ValidOpt, OneOrForced;
    if opts == [] {
      TriesOfOthers([], option);
      NoTries();
    } else {
      var front, last := opts[..|opts| - 1], opts[|opts| - 1];
      CallsValid(last);
      TriesConcat(AllCalls(front), Calls(last), option);
      if last.name == option {
        AllCallsFree(front, option);
        TriesOfOthers(AllCalls(front), option);
        CallsOneOrForced(last);
        assert [] + Tries(Calls(last), option) == Tries(Calls(last), option);
      } else {
        AllCallsOneOrForced(front, option);
        TriesOfOthers(Calls(last), option);
        assert Tries(AllCalls(front), option) + [] == Tries(AllCalls(front), option);
      }
    }
  }

  lemma NoTries()
    ensures OneOrForced([])
  {
  }

  lemma StateLoadable(file: cstring)
    requires forall i :: 0 <= i < |Chunks(file)| ==> HasName(Chunks(file)[i])
    ensures AllLoadable(StateOf(file).lines)
  {
    StateOfInitial(file);
    ReadParsable(file);
  }

  /** Rewriting the rewritten file changes nothing. */
  lemma RewriteStable(file: cstring, opts: seq<Opt>)
    requires forall i :: 0 <= i < |Chunks(file)| ==> HasName(Chunks(file)[i])
    requires ValidOpts(opts)
    ensures Rewritten(Rewritten(file, opts), opts) == Rewritten(file, opts)
  {
    var st, calls := StateOf(file), AllCalls(opts);
    StateOfInitial(file);
    StateLoadable(file);
    AllCallsValid(opts);
    forall i | 0 <= i < |calls| ensures OneOrForced(Tries(calls, calls[i].option)) {
      AllCallsOneOrForced(opts, calls[i].option);
    }
    StateOfInitial(Rewritten(file, opts));
    hide Initial, State.Wf, ValidCall, NewContent, AllCalls, OneOrForced, Tries, StateOf, ValidOpts, AllLoadable;
    RewriteIdempotent(st, StateOf(Rewritten(file, opts)), calls);
  }

  /** The rewritten file can be read again. */
  lemma RewrittenHasNames(file: cstring, opts: seq<Opt>)
    requires forall i :: 0 <= i < |Chunks(file)| ==> HasName(Chunks(file)[i])
    requires ValidOpts(opts)
    ensures var chunks := Chunks(Rewritten(file, opts)); forall i :: 0 <= i < |chunks| ==> HasName(chunks[i])
  {
    var st, calls := StateOf(file), AllCalls(opts);
    StateOfInitial(file);
    StateLoadable(file);
    AllCallsValid(opts);
    hide Initial, State.Wf, ValidCall, AllCalls, StateOf, ValidOpts, Chunks, HasName, NewLines;
    NewLinesLoadable(st, calls);
    ReadBack(NewLines(st, calls));
  }

  /** CONFIG REWRITE, and CONFIG REWRITE once more. */
  method RewriteTwice(file: cstring, opts: seq<Opt>) returns (first: cstring, second: cstring)
    requires forall i :: 0 <= i < |Chunks(file)| ==> HasName(Chunks(file)[i])
    requires ValidOpts(opts)
    ensures first == Rewritten(file, opts) && second == first
  {
    RewriteStable(file, opts);
    RewrittenHasNames(file, opts);
    hide Rewritten, ValidOpts, HasName, Chunks;
    first := RewriteConfig(file, opts, _ => true);
    second := RewriteConfig(first, opts, _ => true);
  }

  // ---------- client-output-buffer-limit ----------

  datatype Limits = Limits(hard: nat, soft: nat, seconds: nat)

  const BUFFER_LIMIT: cstring := "client-output-buffer-limit"

  const CLASSES: seq<cstring> := ["normal", "slave", "pubsub"]
  const DEFAULTS := [Limits(0, 0, 0), Limits(256 * MB, 64 * MB, 60), Limits(32 * MB, 8 * MB, 60)]

  function LimitArgs(j: nat, l: Limits): seq<Arg>
    requires j < 3
  {
    [Bare(CLASSES[j])] + ([Bare(MemoryText(l.hard))] + ([Bare(MemoryText(l.soft))] + [Bare(Decimal.Text(l.seconds))]))
  }

  function LimitText(j: nat, l: Limits): cstring
    requires j < 3
  {
    CLASSES[j] + [' '] + (MemoryText(l.hard) + [' '] + (MemoryText(l.soft) + [' '] + Decimal.Text(l.seconds)))
  }

  function LimitCall(limits: seq<Limits>, j: nat): Call
    requires |limits| == 3 && j < 3
  {
    Rewrite(BUFFER_LIMIT, BUFFER_LIMIT + [' '] + LimitText(j, limits[j]), limits[j] != DEFAULTS[j])
  }

  /** The calls of rewriteConfigClientoutputbufferlimitOption. */
  function LimitCalls(limits: seq<Limits>): seq<Call>
    requires |limits| == 3
  {
    [LimitCall(limits, 0), LimitCall(limits, 1), LimitCall(limits, 2)]
  }

  lemma LimitArgsText(j: nat, l: Limits)
    requires j < 3
    ensures JoinArgs(LimitArgs(j, l)) == LimitText(j, l)
  {
    hide MemoryText, Decimal.Text;
    var d := [Bare(Decimal.Text(l.seconds))];
    var c := [Bare(MemoryText(l.soft))] + d;
    var b := [Bare(MemoryText(l.hard))] + c;
    assert JoinArgs(d) == Decimal.Text(l.seconds);
    JoinArgsCons(Bare(MemoryText(l.soft)), d);
    JoinArgsCons(Bare(MemoryText(l.hard)), c);
    JoinArgsCons(Bare(CLASSES[j]), b);
  }

  lemma ClassWord(j: nat)
    requires j < 3
    ensures Word(CLASSES[j])
  {
  }

  lemma PrintableTwo(a: cstring, b: cstring)
    requires Word(a) && Printable(b) && b != [] && b[|b| - 1] != ' '
    ensures var t := a + [' '] + b; Printable(t) && t != [] && t[|t| - 1] != ' '
  {
  }

  lemma LimitWords(j: nat, l: Limits)
    requires j < 3
    ensures Printable(LimitText(j, l)) && LimitText(j, l) != [] && LimitText(j, l)[|LimitText(j, l)| - 1] != ' '
  {
    ClassWord(j);
    MemoryWord(l.hard);
    MemoryWord(l.soft);
    NumberWord(l.seconds);
    LastNotBlank(Decimal.Text(l.seconds));
    WordArg(Decimal.Text(l.seconds));
    hide MemoryText, Decimal.Text, CStr, Word, Printable, ValidArg;
    var d := Decimal.Text(l.seconds);
    PrintableTwo(MemoryText(l.soft), d);
    PrintableTwo(MemoryText(l.hard), MemoryText(l.soft) + [' '] + d);
    PrintableTwo(CLASSES[j], MemoryText(l.hard) + [' '] + (MemoryText(l.soft) + [' '] + d));
  }

  lemma LimitArgsValid(j: nat, l: Limits)
    requires j < 3
    ensures var args := LimitArgs(j, l); |args| == 4 && forall i :: 0 <= i < |args| ==> ValidArg(args[i])
  {
    ClassWord(j);
    MemoryWord(l.hard);
    MemoryWord(l.soft);
    NumberWord(l.seconds);
    WordArg(CLASSES[j]);
    WordArg(MemoryText(l.hard));
    WordArg(MemoryText(l.soft));
    WordArg(Decimal.Text(l.seconds));
    hide MemoryText, Decimal.Text, CStr, Word, ValidArg;
  }

  lemma LastNotBlank(s: cstring)
    requires Word(s)
    ensures s != [] && s[|s| - 1] != ' '
  {
  }

  lemma LimitName()
    ensures ValidName(BUFFER_LIMIT)
  {
    assert forall i :: 0 <= i < |BUFFER_LIMIT| ==> BUFFER_LIMIT[i] == '-' || 'a' <= BUFFER_LIMIT[i] <= 'z';
    assert Lower(BUFFER_LIMIT) == BUFFER_LIMIT;
  }

  lemma LimitCallValid(limits: seq<Limits>, j: nat)
    requires |limits| == 3 && j < 3
    ensures ValidCall(LimitCall(limits, j)) && LimitCall(limits, j).option == BUFFER_LIMIT
  {
    LimitName();
    LimitArgsText(j, limits[j]);
    LimitWords(j, limits[j]);
    LimitArgsValid(j, limits[j]);
    hide LimitText, MemoryText, OptionOf, Clean, JoinArgs, Printable;
    WrittenLine(BUFFER_LIMIT, LimitArgs(j, limits[j]), BUFFER_LIMIT + [' '] + LimitText(j, limits[j]));
  }

  /** The lines differ in the first letter of the class. */
  lemma LimitLine(limits: seq<Limits>, j: nat)
    requires |limits| == 3 && j < 3
    ensures var line := LimitCall(limits, j).line; |line| > 27 && line[27] == CLASSES[j][0]
  {
    hide MemoryText, Decimal.Text;
  }

  lemma LimitTries(limits: seq<Limits>)
    requires |limits| == 3
    ensures var tries := Tries(LimitCalls(limits), BUFFER_LIMIT);
            && |tries| == 3 && DistinctTexts(tries)
            && forall j :: 0 <= j < 3 ==> tries[j] == (LimitCall(limits, j).line, limits[j] != DEFAULTS[j])
  {
    hide Tries, LimitText;
    var c0, c1, c2 := LimitCall(limits, 0), LimitCall(limits, 1), LimitCall(limits, 2);
    TriesOfOne(c0, BUFFER_LIMIT);
    TriesOfOne(c1, BUFFER_LIMIT);
    TriesOfOne(c2, BUFFER_LIMIT);
    TriesConcat([c0], [c1], BUFFER_LIMIT);
    TriesConcat([c0] + [c1], [c2], BUFFER_LIMIT);
    assert LimitCalls(limits) == [c0] + [c1] + [c2];
    LimitLine(limits, 0);
    LimitLine(limits, 1);
    LimitLine(limits, 2);
    assert CLASSES[0][0] == 'n' && CLASSES[1][0] == 's' && CLASSES[2][0] == 'p';
  }

  lemma LimitsSteady(limits: seq<Limits>, n: nat)
    requires |limits| == 3
    ensures Steady(Tries(LimitCalls(limits), BUFFER_LIMIT), n) <==> DefaultsLast(limits, n)
  {
    LimitTries(limits);
    hide Tries, LimitCall, LimitCalls, DistinctTexts;
  }

  /** From place `n` on, no class at its default comes before one that is not. */
  ghost predicate DefaultsLast(limits: seq<Limits>, n: nat)
    requires |limits| == 3
  {
    forall i, j :: n <= i < j < 3 && limits[j] != DEFAULTS[j] ==> limits[i] != DEFAULTS[i]
  }

  lemma LimitCallsValid(limits: seq<Limits>)
    requires |limits| == 3
    ensures ValidCalls(LimitCalls(limits)) && |LimitCalls(limits)| == 3
    ensures forall i :: 0 <= i < 3 ==> LimitCalls(limits)[i].option == BUFFER_LIMIT
  {
    hide ValidCall, LimitCall;
    forall t | 0 <= t < 3 ensures ValidCall(LimitCalls(limits)[t]) && LimitCalls(limits)[t].option == BUFFER_LIMIT {
      assert LimitCalls(limits)[t] == LimitCall(limits, t);
      LimitCallValid(limits, t);
    }
  }

  // ---------- All options and client-output-buffer-limit ----------

  /** The writers of rewriteConfig: `before`, then client-output-buffer-limit, then `after`. */
  function WholeCalls(before: seq<Opt>, limits: seq<Limits>, after: seq<Opt>): seq<Call>
    requires |limits| == 3
  {
    AllCalls(before) + LimitCalls(limits) + AllCalls(after)
  }

  ghost predicate ValidWhole(before: seq<Opt>, limits: seq<Limits>, after: seq<Opt>) {
    && |limits| == 3 && ValidOpts(before) && ValidOpts(after) && ValidOpts(before + after)
    && forall i :: 0 <= i < |before + after| ==> (before + after)[i].name != BUFFER_LIMIT
  }

  /** The content that rewriting them all makes of a file. */
  ghost function WholeRewritten(file: cstring, before: seq<Opt>, limits: seq<Limits>, after: seq<Opt>): cstring
    requires |limits| == 3
  {
    StateOfInitial(file);
    NewContent(StateOf(file), WholeCalls(before, limits, after))
  }

  lemma {:induction false} AllCallsConcat(a: seq<Opt>, b: seq<Opt>)
    ensures AllCalls(a + b) == AllCalls(a) + AllCalls(b)
    decreases |b|
  {
    hide Calls;
    if b == [] {
      assert a + b == a;
    } else {
      var m := |b| - 1;
      AllCallsConcat(a, b[..m]);
      assert (a + b)[..|a + b| - 1] == a + b[..m];
    }
  }

  lemma WholeFree(before: seq<Opt>, limits: seq<Limits>, after: seq<Opt>)
    requires ValidWhole(before, limits, after)
    ensures FreeOf(AllCalls(before), BUFFER_LIMIT) && FreeOf(AllCalls(after), BUFFER_LIMIT)
  {
    hide AllCalls, ValidOpt;
    assert forall i :: 0 <= i < |before| ==> (before + after)[i] == before[i];
    assert forall i :: 0 <= i < |after| ==> (before + after)[|before| + i] == after[i];
    AllCallsFree(before, BUFFER_LIMIT);
    AllCallsFree(after, BUFFER_LIMIT);
  }

  lemma TriesParts(a: seq<Call>, m: seq<Call>, b: seq<Call>, option: cstring)
    ensures Tries(a + m + b, option) == Tries(a, option) + Tries(m, option) + Tries(b, option)
    ensures FreeOf(a, option) && FreeOf(b, option) ==> Tries(a + m + b, option) == Tries(m, option)
    ensures FreeOf(m, option) ==> Tries(a + m + b, option) == Tries(a + b, option)
  {
    TriesConcat(a + m, b, option);
    TriesConcat(a, m, option);
    TriesConcat(a, b, option);
    hide Tries;
    if FreeOf(a, option) && FreeOf(b, option) {
      TriesOfOthers(a, option);
      TriesOfOthers(b, option);
      assert [] + Tries(m, option) + [] == Tries(m, option);
    }
    if FreeOf(m, option) {
      TriesOfOthers(m, option);
      assert Tries(a, option) + [] + Tries(b, option) == Tries(a, option) + Tries(b, option);
    }
  }

  lemma LimitCallsFree(limits: seq<Limits>, option: cstring)
    requires |limits| == 3 && option != BUFFER_LIMIT
    ensures FreeOf(LimitCalls(limits), option)
  {
    LimitCallsValid(limits);
    hide LimitCalls;
  }

  /** What each option is written with does not depend on the others. */
  lemma WholeTries(before: seq<Opt>, limits: seq<Limits>, after: seq<Opt>, option: cstring)
    requires ValidWhole(before, limits, after)
    ensures option == BUFFER_LIMIT ==>
      Tries(WholeCalls(before, limits, after), option) == Tries(LimitCalls(limits), option)
    ensures option != BUFFER_LIMIT ==> OneOrForced(Tries(WholeCalls(before, limits, after), option))
  {
    hide Tries, AllCalls, LimitCalls, OneOrForced, ValidOpts, FreeOf;
    TriesParts(AllCalls(before), LimitCalls(limits), AllCalls(after), option);
    WholeFree(before, limits, after);
    if option != BUFFER_LIMIT {
      LimitCallsFree(limits, option);
      AllCallsConcat(before, after);
      AllCallsOneOrForced(before + after, option);
    }
  }

  lemma WholeValid(before: seq<Opt>, limits: seq<Limits>, after: seq<Opt>)
    requires ValidWhole(before, limits, after)
    ensures var calls := WholeCalls(before, limits, after);
            ValidCalls(calls) && exists i :: 0 <= i < |calls| && calls[i].option == BUFFER_LIMIT
  {
    hide ValidCall, AllCalls, LimitCalls, ValidCalls, ValidOpt;
    AllCallsValid(before);
    AllCallsValid(after);
    LimitCallsValid(limits);
    ValidConcat(AllCalls(before), LimitCalls(limits));
    ValidConcat(AllCalls(before) + LimitCalls(limits), AllCalls(after));
    var calls := WholeCalls(before, limits, after);
    assert calls[|AllCalls(before)|] == LimitCalls(limits)[0];
  }

  lemma ValidConcat(a: seq<Call>, b: seq<Call>)
    requires ValidCalls(a) && ValidCalls(b)
    ensures ValidCalls(a + b)
  {
    hide ValidCall;
  }

  /** When one option of them all would keep the same lines again. */
  lemma WholeFixpoint(before: seq<Opt>, limits: seq<Limits>, after: seq<Opt>, option: cstring, n: nat)
    requires ValidWhole(before, limits, after)
    ensures var tries := Tries(WholeCalls(before, limits, after), option);
            Kept(tries, |Kept(tries, n)|) == Kept(tries, n) <==> (option == BUFFER_LIMIT ==> DefaultsLast(limits, n))
  {
    WholeTries(before, limits, after, option);
    LimitTries(limits);
    LimitsSteady(limits, n);
    hide Kept, Tries, WholeCalls, LimitCalls, Steady, DefaultsLast, OneOrForced, DistinctTexts, ValidWhole;
    var tries := Tries(WholeCalls(before, limits, after), option);
    if option == BUFFER_LIMIT {
      FixpointIsSteady(tries, n);
    } else {
      OneOrForcedSteady(tries, n);
      SteadyFixpoint(tries, n);
    }
  }

  /** Rewriting all options and client-output-buffer-limit a second time gives the same text exactly if, past
      the lines that the old file had for that option, no class at its default comes before one that is not. */
  lemma LimitsSettleWhen(file: cstring, before: seq<Opt>, limits: seq<Limits>, after: seq<Opt>)
    requires forall i :: 0 <= i < |Chunks(file)| ==> HasName(Chunks(file)[i])
    requires ValidWhole(before, limits, after)
    ensures WholeRewritten(WholeRewritten(file, before, limits, after), before, limits, after)
            == WholeRewritten(file, before, limits, after)
       <==> DefaultsLast(limits, OldCount(StateOf(file), BUFFER_LIMIT))
  {
    var st, calls := StateOf(file), WholeCalls(before, limits, after);
    var first := WholeRewritten(file, before, limits, after);
    StateOfInitial(file);
    StateLoadable(file);
    WholeValid(before, limits, after);
    StateOfInitial(first);
    hide Initial, State.Wf, ValidCall, NewContent, Tries, Kept, StateOf, AllLoadable, OldCount, WholeCalls;
    hide DefaultsLast;
    hide ValidWhole, HasName, Chunks;
    SecondRewrite(st, StateOf(first), calls);
    forall i | 0 <= i < |calls|
      ensures var tries, n := Tries(calls, calls[i].option), OldCount(st, calls[i].option);
              Kept(tries, |Kept(tries, n)|) == Kept(tries, n)
              <==> (calls[i].option == BUFFER_LIMIT ==> DefaultsLast(limits, n))
    {
      WholeFixpoint(before, limits, after, calls[i].option, OldCount(st, calls[i].option));
    }
  }

  /** With only the class "slave" off its default and no old line, the second rewrite changes the text,
      whatever else is written. */
  lemma BufferLimitsNotIdempotent(before: seq<Opt>, slave: Limits, after: seq<Opt>)
    requires slave != DEFAULTS[1] && ValidWhole(before, [DEFAULTS[0], slave, DEFAULTS[2]], after)
    ensures var limits := [DEFAULTS[0], slave, DEFAULTS[2]]; var first := WholeRewritten([], before, limits, after);
            WholeRewritten(first, before, limits, after) != first
  {
    var limits := [DEFAULTS[0], slave, DEFAULTS[2]];
    assert Chunks([]) == [] && OldCount(StateOf([]), BUFFER_LIMIT) == 0;
    hide StateOf, WholeRewritten, ValidWhole;
    LimitsSettleWhen([], before, limits, after);
    assert limits[1] != DEFAULTS[1] && limits[0] == DEFAULTS[0];
  }
}
