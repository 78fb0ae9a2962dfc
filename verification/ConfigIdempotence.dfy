/** Rewriting twice: when a second CONFIG REWRITE returns the text of the first. */
module ConfigIdempotence {
  import opened CStrings
  import opened Quoting
  import opened SdsStrings
  import opened ConfigLines
  import opened ConfigRewrite
  import opened ConfigAccounting
  import opened ConfigRoundTrip

  // ---------- The calls of one option ----------

  type Try = (cstring, bool)

  /** The lines and force flags of the rewriting calls of one option, in order. */
  function Tries(calls: seq<Call>, option: cstring): seq<Try> {
    if calls == [] then []
    else
      var prior, c := Tries(calls[..|calls| - 1], option), calls[|calls| - 1];
      if c.Rewrite? && c.option == option then prior + [(c.line, c.force)] else prior
  }

  function Kept(tries: seq<Try>, n: nat): seq<cstring> {
    if tries == [] then []
    else
      var prior, t := Kept(tries[..|tries| - 1], n), tries[|tries| - 1];
      if |prior| < n || t.1 then prior + [t.0] else prior
  }

  function Texts(tries: seq<Try>): (lines: seq<cstring>)
    ensures |lines| == |tries|
  {
    seq(|tries|, i requires 0 <= i < |tries| => tries[i].0)
  }

  lemma {:induction false} EmittedIsKept(calls: seq<Call>, option: cstring, n: nat)
    ensures Emitted(calls, option, n) == Kept(Tries(calls, option), n)
  {
    if calls != [] {
      var front, c := calls[..|calls| - 1], calls[|calls| - 1];
      EmittedIsKept(front, option, n);
      if c.Rewrite? && c.option == option {
        KeptSnoc(Tries(front, option), (c.line, c.force), n);
      }
    }
  }

  /** Past the `n` lines that are reused, no unforced call comes before a forced one. */
  ghost predicate Steady(tries: seq<Try>, n: nat) {
    forall i, j :: n <= i < j < |tries| && tries[j].1 ==> tries[i].1
  }

  ghost predicate DistinctTexts(tries: seq<Try>) {
    forall i, j :: 0 <= i < j < |tries| ==> tries[i].0 != tries[j].0
  }

  lemma KeptSnoc(tries: seq<Try>, t: Try, n: nat)
    ensures var prior := Kept(tries, n);
            Kept(tries + [t], n) == if |prior| < n || t.1 then prior + [t.0] else prior
  {
    assert (tries + [t])[..|tries|] == tries;
  }

  /** The first `m` calls are all kept if those from `n` to `m` are forced. */
  lemma {:induction false} KeptAll(tries: seq<Try>, n: nat)
    requires forall i :: n <= i < |tries| ==> tries[i].1
    ensures Kept(tries, n) == Texts(tries)
  {
    if tries != [] {
      var front, t := tries[..|tries| - 1], tries[|tries| - 1];
      KeptAll(front, n);
      assert Texts(tries) == Texts(front) + [t.0];
    }
  }

  /** Calls that are neither reusing a line nor forced keep nothing. */
  lemma {:induction false} KeptNone(a: seq<Try>, b: seq<Try>, n: nat)
    requires |Kept(a, n)| >= n && forall i :: 0 <= i < |b| ==> !b[i].1
    ensures Kept(a + b, n) == Kept(a, n)
    decreases |b|
  {
    if b == [] {
      assert a + b == a;
    } else {
      var m := |b| - 1;
      KeptNone(a, b[..m], n);
      assert a + b == (a + b[..m]) + [b[m]];
      KeptSnoc(a + b[..m], b[m], n);
    }
  }

  /** Number of leading calls that are kept. */
  function Leading(tries: seq<Try>, n: nat): (m: nat)
    ensures m <= |tries|
    ensures forall i :: n <= i < m ==> tries[i].1
    ensures m < |tries| ==> m >= n && !tries[m].1
  {
    if tries == [] then 0
    else
      var m := Leading(tries[..|tries| - 1], n);
      if m == |tries| - 1 && (m < n || tries[m].1) then |tries| else m
  }

  lemma SteadyFixpoint(tries: seq<Try>, n: nat)
    requires Steady(tries, n)
    ensures Kept(tries, |Kept(tries, n)|) == Kept(tries, n)
  {
    hide Kept;
    var m := Leading(tries, n);
    var a, b := tries[..m], tries[m..];
    assert tries == a + b;
    KeptAll(a, n);
    KeptAll(a, m);
    if m < |tries| {
      forall i | 0 <= i < |b| ensures !b[i].1 {
        assert b[i] == tries[m + i];
      }
      KeptNone(a, b, n);
      KeptNone(a, b, m);
    } else {
      assert a == tries;
    }
  }

  lemma {:induction false} KeptPrefix(tries: seq<Try>, i: nat, n: nat)
    requires i <= |tries|
    ensures Kept(tries[..i], n) <= Kept(tries, n)
    decreases |tries|
  {
    if i == |tries| {
      assert tries[..i] == tries;
    } else {
      KeptPrefix(tries[..|tries| - 1], i, n);
      assert tries[..|tries| - 1][..i] == tries[..i];
    }
  }

  lemma {:induction false} KeptLength(tries: seq<Try>, n: nat)
    ensures |Kept(tries, n)| <= |tries|
  {
    if tries != [] {
      KeptLength(tries[..|tries| - 1], n);
    }
  }

  /** A dropped line is not among the kept ones. */
  lemma {:induction false} DroppedAbsent(tries: seq<Try>, n: nat, i: nat)
    requires DistinctTexts(tries) && i < |tries| && !tries[i].1 && |Kept(tries[..i], n)| >= n
    ensures tries[i].0 !in Kept(tries, n)
    decreases |tries|
  {
    var front := tries[..|tries| - 1];
    if i == |tries| - 1 {
      KeptMembers(front, n);
      assert forall k :: 0 <= k < |front| ==> front[k] == tries[k] && tries[k].0 != tries[i].0;
    } else {
      assert front[..i] == tries[..i];
      DroppedAbsent(front, n, i);
    }
  }

  lemma {:induction false} KeptMembers(tries: seq<Try>, n: nat)
    ensures forall x :: x in Kept(tries, n) ==> exists k :: 0 <= k < |tries| && tries[k].0 == x
  {
    if tries != [] {
      var front := tries[..|tries| - 1];
      KeptMembers(front, n);
      forall x | x in Kept(tries, n) ensures exists k :: 0 <= k < |tries| && tries[k].0 == x {
        if x in Kept(front, n) {
          var k :| 0 <= k < |front| && front[k].0 == x;
          assert tries[k].0 == x;
        } else {
          assert tries[|tries| - 1].0 == x;
        }
      }
    }
  }

  /** The fixpoint is reached after one rewrite exactly for steady calls, if their lines differ. */
  lemma FixpointIsSteady(tries: seq<Try>, n: nat)
    requires DistinctTexts(tries)
    ensures Kept(tries, |Kept(tries, n)|) == Kept(tries, n) <==> Steady(tries, n)
  {
    hide Kept, DistinctTexts;
    if Steady(tries, n) {
      SteadyFixpoint(tries, n);
    } else {
      var i, j :| n <= i < j < |tries| && tries[j].1 && !tries[i].1;
      UnsteadyChanges(tries, n, j);
    }
  }

  lemma UnsteadyChanges(tries: seq<Try>, n: nat, j: nat)
    requires DistinctTexts(tries) && Leading(tries, n) < j < |tries| && tries[j].1
    ensures Kept(tries, |Kept(tries, n)|) != Kept(tries, n)
  {
    hide Kept, DistinctTexts, Leading;
    var m, e := Leading(tries, n), Kept(tries, n);
    KeptAll(tries[..m], n);
    DroppedAbsent(tries, n, m);
    KeptGrows(tries, n, m, j);
    LateKept(tries, m, |e|);
  }

  /** A call among the first `n` is kept. */
  lemma LateKept(tries: seq<Try>, m: nat, n: nat)
    requires m < |tries| && m < n
    ensures tries[m].0 in Kept(tries, n)
  {
    hide Kept;
    KeptLength(tries[..m], n);
    assert tries[..m + 1] == tries[..m] + [tries[m]];
    KeptSnoc(tries[..m], tries[m], n);
    KeptPrefix(tries, m + 1, n);
    var k := Kept(tries[..m + 1], n);
    assert k[|k| - 1] == tries[m].0;
  }

  /** A forced call adds a line. */
  lemma KeptGrows(tries: seq<Try>, n: nat, m: nat, j: nat)
    requires m <= j < |tries| && tries[j].1
    ensures |Kept(tries, n)| > |Kept(tries[..m], n)|
  {
    hide Kept;
    KeptPrefix(tries[..j], m, n);
    assert tries[..j][..m] == tries[..m];
    assert tries[..j + 1] == tries[..j] + [tries[j]];
    KeptSnoc(tries[..j], tries[j], n);
    KeptPrefix(tries, j + 1, n);
  }

  // ---------- Reading the produced text back ----------

  lemma {:induction false} LineEndOf(line: cstring, rest: cstring)
    requires Avoids(line, '\n')
    ensures LineEnd(line + ['\n'] + rest) == |line| + 1
    decreases |line|
  {
    var s := line + ['\n'] + rest;
    if line != [] {
      assert s[1..] == line[1..] + ['\n'] + rest;
      LineEndOf(line[1..], rest);
    }
  }

  lemma {:induction false} ChunksOfGlue(lines: seq<cstring>)
    requires forall i :: 0 <= i < |lines| ==> Avoids(lines[i], '\n')
    ensures Chunks(Glue(lines)) == seq(|lines|, i requires 0 <= i < |lines| => lines[i] + ['\n'])
  {
    if lines != [] {
      hide LineEnd;
      var rest := Glue(lines[1..]);
      LineEndOf(lines[0], rest);
      ChunksOfGlue(lines[1..]);
      var s := Glue(lines);
      assert s == lines[0] + ['\n'] + rest;
      assert s[..|lines[0]| + 1] == lines[0] + ['\n'] && s[|lines[0]| + 1..] == rest;
    }
  }

  lemma TrimLine(line: cstring)
    requires Trimmed(line, BLANKS)
    ensures Trim(line + ['\n'], BLANKS) == line
  {
    var s := line + ['\n'];
    assert BLANKS[3] == '\n';
    if line == [] {
      assert s[1..] == [] && s[0] in BLANKS;
      assert TrimStart(s, BLANKS) == TrimStart([], BLANKS);
    } else {
      assert s[|s| - 1] == '\n' && s[..|s| - 1] == line;
      assert TrimStart(s, BLANKS) == s;
      assert TrimEnd(s, BLANKS) == TrimEnd(line, BLANKS);
    }
  }

  lemma StoredAgain(line: cstring)
    requires Loadable(line)
    ensures Stored(line + ['\n']) == line && HasName(line + ['\n'])
  {
    hide SplitArgs, Trim;
    CStrNoNul(line + ['\n']);
    TrimLine(line);
  }

  /** The lines of a produced text are read back one by one. */
  lemma ReadBack(lines: seq<cstring>)
    requires forall i :: 0 <= i < |lines| ==> Loadable(lines[i])
    ensures StoredLines(Chunks(Glue(lines))) == lines
    ensures forall i :: 0 <= i < |Chunks(Glue(lines))| ==> HasName(Chunks(Glue(lines))[i])
  {
    hide Stored, HasName;
    forall i | 0 <= i < |lines| ensures Avoids(lines[i], '\n') {
      assert Loadable(lines[i]);
    }
    ChunksOfGlue(lines);
    forall i | 0 <= i < |lines| ensures Stored(lines[i] + ['\n']) == lines[i] && HasName(lines[i] + ['\n']) {
      StoredAgain(lines[i]);
    }
  }

  // ---------- The second run ----------

  lemma {:induction false} EmittedPrefix(calls: seq<Call>, t: nat, option: cstring, n: nat)
    requires t <= |calls|
    ensures Emitted(calls[..t], option, n) <= Emitted(calls, option, n)
    decreases |calls|
  {
    if t == |calls| {
      assert calls[..t] == calls;
    } else {
      EmittedPrefix(calls[..|calls| - 1], t, option, n);
      assert calls[..|calls| - 1][..t] == calls[..t];
    }
  }

  /** The option already has exactly the lines the calls would leave it with. */
  ghost predicate Settled(st: State, calls: seq<Call>, option: cstring) {
    Emitted(calls, option, OldCount(st, option)) == Owned(st.lines, option)
  }

  /** A call for a settled option puts back the line that is there. */
  lemma SettledStep(st: State, now: State, calls: seq<Call>, t: nat)
    requires now.Wf() && t < |calls| && ValidCall(calls[t]) && now.lines == st.lines
    requires Settled(st, calls, calls[t].option)
    requires var o := calls[t].option;
             Accounts(now, o, OldCount(st, o), Emitted(calls[..t], o, OldCount(st, o)))
    ensures Apply(now, calls[t]).lines == st.lines
  {
    hide OptionOf, Owned, Positions, Emitted, Clean;
    var c := calls[t];
    var n := OldCount(st, c.option);
    var e, all := Emitted(calls[..t], c.option, n), Emitted(calls, c.option, n);
    assert calls[..t + 1] == calls[..t] + [c];
    EmittedSnoc(calls[..t], c, c.option, n);
    EmittedPrefix(calls, t + 1, c.option, n);
    OwnedAt(st.lines, c.option);
    if c.Rewrite? && c.option in now.optionToLine {
      var p := Positions(st.lines, c.option);
      assert now.Remaining(c.option) == p[|e|..];
      assert now.optionToLine[c.option][0] == p[|e|];
      assert all[|e|] == c.line;
      assert st.lines[p[|e|]] == c.line;
    }
    assert c.Rewrite? && c.force && c.option !in now.optionToLine ==> |all| > n;
  }

  lemma {:induction false} SettledRun(st: State, calls: seq<Call>, t: nat)
    requires Initial(st) && st.Wf() && ValidCalls(calls) && t <= |calls|
    requires forall i :: 0 <= i < |calls| ==> Settled(st, calls, calls[i].option)
    ensures Run(st, calls[..t]).lines == st.lines
  {
    hide Accounts, Settled, Apply, Initial, State.Wf, ValidCall, OldCount, Emitted;
    if t > 0 {
      SettledRun(st, calls, t - 1);
      assert calls[..t][..t - 1] == calls[..t - 1];
      var o := calls[t - 1].option;
      assert ValidCalls(calls[..t - 1]);
      RunAccounts(st, calls[..t - 1], o);
      SettledStep(st, Run(st, calls[..t - 1]), calls, t - 1);
    }
  }

  /** Nothing is left over, so nothing is blanked. */
  lemma SettledFinal(st: State, calls: seq<Call>)
    requires Initial(st) && st.Wf() && ValidCalls(calls)
    requires forall i :: 0 <= i < |calls| ==> Settled(st, calls, calls[i].option)
    ensures WithoutOrphans(Run(st, calls)) == st.lines
  {
    hide Owned, Positions, Apply, Initial, State.Wf, ValidCall, Emitted, OptionOf, Run, Orphan;
    SettledRun(st, calls, |calls|);
    assert calls[..|calls|] == calls;
    RunProcessed(st, calls);
    InitialNothingProcessed(st);
    var r := Run(st, calls);
    forall i: nat | i < |r.lines| ensures !Orphan(r, i) {
      OrphanOwner(st, calls, i);
      if Orphan(r, i) {
        var o := OptionOf(r.lines[i]).value;
        assert o in Processed(calls);
        var k :| 0 <= k < |calls| && calls[k].option == o;
        assert Settled(st, calls, o);
        RunAccounts(st, calls, o);
        OwnedAt(st.lines, o);
      }
    }
  }

  // ---------- The theorem ----------

  /** The state rewriteConfigReadOldFile builds from a file. */
  ghost predicate ReadsAs(st: State, file: cstring) {
    Initial(st) && st.Wf() && st.lines == StoredLines(Chunks(file))
  }

  ghost predicate AllLoadable(lines: seq<cstring>) {
    forall i :: 0 <= i < |lines| ==> Loadable(lines[i])
  }

  /** The lines of the produced text. */
  ghost function NewLines(st: State, calls: seq<Call>): seq<cstring>
    requires st.Wf()
  {
    Collapse(WithoutOrphans(Run(st, calls)), false)
  }

  lemma NewLinesLoadable(st: State, calls: seq<Call>)
    requires Initial(st) && st.Wf() && ValidCalls(calls) && AllLoadable(st.lines)
    ensures AllLoadable(NewLines(st, calls))
    ensures NewContent(st, calls) == Glue(NewLines(st, calls))
  {
    FinalLoadable(st, calls);
    hide Loadable, WithoutOrphans, Collapse;
    CollapseMembers(WithoutOrphans(Run(st, calls)), false);
    var lines := NewLines(st, calls);
    forall i | 0 <= i < |lines| ensures Loadable(lines[i]) {
      assert lines[i] in lines;
    }
  }

  lemma NewLinesOwned(st: State, calls: seq<Call>, option: cstring)
    requires Initial(st) && st.Wf() && ValidCalls(calls) && option in Processed(calls)
    ensures Owned(NewLines(st, calls), option) == Kept(Tries(calls, option), OldCount(st, option))
  {
    hide Owned, Positions, Collapse, WithoutOrphans, Kept, Tries, Emitted;
    OwnedCollapse(WithoutOrphans(Run(st, calls)), false, option);
    RewriteAccounting(st, calls, option);
    OwnedAt(st.lines, option);
    EmittedIsKept(calls, option, OldCount(st, option));
  }

  /** An option is settled in the produced text when rewriting it again would keep the same lines. */
  lemma SettledAfter(st: State, st': State, calls: seq<Call>, option: cstring)
    requires Initial(st) && st.Wf() && ValidCalls(calls) && option in Processed(calls)
    requires st'.lines == NewLines(st, calls)
    ensures var tries, n := Tries(calls, option), OldCount(st, option);
            Settled(st', calls, option) <==> Kept(tries, |Kept(tries, n)|) == Kept(tries, n)
  {
    hide Owned, Positions, NewLines, Kept, Tries, Emitted;
    NewLinesOwned(st, calls, option);
    OwnedAt(st'.lines, option);
    EmittedIsKept(calls, option, OldCount(st', option));
  }

  /** Two clean texts are equal only if their lines are. */
  lemma GlueInjective(a: seq<cstring>, b: seq<cstring>)
    requires AllLoadable(a) && AllLoadable(b) && Glue(a) == Glue(b)
    ensures a == b
  {
    hide Glue, Loadable, Chunks;
    ReadBack(a);
    ReadBack(b);
  }

  lemma CollapseNew(st: State, calls: seq<Call>)
    requires st.Wf()
    ensures Collapse(NewLines(st, calls), false) == NewLines(st, calls)
  {
    CollapseTwice(WithoutOrphans(Run(st, calls)), false);
  }

  /** Rewriting the produced text gives the same text exactly when each processed option would keep
      the same lines again. */
  lemma SecondRewrite(st: State, st': State, calls: seq<Call>)
    requires Initial(st) && st.Wf() && ValidCalls(calls) && AllLoadable(st.lines)
    requires ReadsAs(st', NewContent(st, calls))
    ensures NewContent(st', calls) == NewContent(st, calls)
       <==> forall i :: 0 <= i < |calls| ==>
              var tries, n := Tries(calls, calls[i].option), OldCount(st, calls[i].option);
              Kept(tries, |Kept(tries, n)|) == Kept(tries, n)
  {
    hide Owned, Positions, NewLines, Kept, Tries, Emitted, Collapse, WithoutOrphans, Run, Loadable, Glue, Initial;
    hide ValidCall, State.Wf, Settled, OldCount, Chunks, NewContent;
    NewLinesLoadable(st, calls);
    ReadBack(NewLines(st, calls));
    assert st'.lines == NewLines(st, calls);
    forall i | 0 <= i < |calls|
      ensures calls[i].option in Processed(calls)
      ensures var tries, n := Tries(calls, calls[i].option), OldCount(st, calls[i].option);
              Settled(st', calls, calls[i].option) <==> Kept(tries, |Kept(tries, n)|) == Kept(tries, n)
    {
      assert calls[i].option in Processed(calls);
      SettledAfter(st, st', calls, calls[i].option);
    }
    NewLinesLoadable(st', calls);
    if forall i :: 0 <= i < |calls| ==> Settled(st', calls, calls[i].option) {
      SettledFinal(st', calls);
      NewLinesUnfold(st', calls);
      CollapseNew(st, calls);
    }
    if NewContent(st', calls) == NewContent(st, calls) {
      GlueInjective(NewLines(st', calls), NewLines(st, calls));
      forall i | 0 <= i < |calls| ensures Settled(st', calls, calls[i].option) {
        UnchangedIsSettled(st', calls, calls[i].option);
      }
    }
  }

  lemma NewLinesUnfold(st: State, calls: seq<Call>)
    requires st.Wf()
    ensures NewLines(st, calls) == Collapse(WithoutOrphans(Run(st, calls)), false)
  {
  }

  lemma UnchangedIsSettled(st: State, calls: seq<Call>, option: cstring)
    requires Initial(st) && st.Wf() && ValidCalls(calls) && option in Processed(calls)
    requires NewLines(st, calls) == st.lines
    ensures Settled(st, calls, option)
  {
    hide Owned, Positions, NewLines, Kept, Tries, Emitted;
    NewLinesOwned(st, calls, option);
    EmittedIsKept(calls, option, OldCount(st, option));
  }

  /** When the lines an option is given are pairwise different, the second text is the first exactly if,
      past the old lines that were reused, no option has an unforced call before a forced one. */
  lemma RewriteIdempotence(st: State, st': State, calls: seq<Call>)
    requires Initial(st) && st.Wf() && ValidCalls(calls) && AllLoadable(st.lines)
    requires ReadsAs(st', NewContent(st, calls))
    requires forall i :: 0 <= i < |calls| ==> DistinctTexts(Tries(calls, calls[i].option))
    ensures NewContent(st', calls) == NewContent(st, calls)
       <==> forall i :: 0 <= i < |calls| ==> Steady(Tries(calls, calls[i].option), OldCount(st, calls[i].option))
  {
    hide Kept, Tries, Steady, DistinctTexts, NewContent, Initial, Loadable, ValidCall, State.Wf, OldCount;
    SecondRewrite(st, st', calls);
    forall i | 0 <= i < |calls|
      ensures var tries, n := Tries(calls, calls[i].option), OldCount(st, calls[i].option);
              Kept(tries, |Kept(tries, n)|) == Kept(tries, n) <==> Steady(tries, n)
    {
      FixpointIsSteady(Tries(calls, calls[i].option), OldCount(st, calls[i].option));
    }
  }

  /** One call, or forced calls only, is always steady - whether or not lines repeat. */
  lemma RewriteIdempotent(st: State, st': State, calls: seq<Call>)
    requires Initial(st) && st.Wf() && ValidCalls(calls) && AllLoadable(st.lines)
    requires ReadsAs(st', NewContent(st, calls))
    requires forall i :: 0 <= i < |calls| ==> OneOrForced(Tries(calls, calls[i].option))
    ensures NewContent(st', calls) == NewContent(st, calls)
  {
    hide Kept, Tries, OneOrForced, NewContent, Initial, Loadable, ValidCall, State.Wf, OldCount;
    SecondRewrite(st, st', calls);
    forall i | 0 <= i < |calls|
      ensures var tries, n := Tries(calls, calls[i].option), OldCount(st, calls[i].option);
              Kept(tries, |Kept(tries, n)|) == Kept(tries, n)
    {
      OneOrForcedSteady(Tries(calls, calls[i].option), OldCount(st, calls[i].option));
      SteadyFixpoint(Tries(calls, calls[i].option), OldCount(st, calls[i].option));
    }
  }

  ghost predicate OneOrForced(tries: seq<Try>) {
    |tries| <= 1 || forall i :: 0 <= i < |tries| ==> tries[i].1
  }

  lemma OneOrForcedSteady(tries: seq<Try>, n: nat)
    requires OneOrForced(tries)
    ensures Steady(tries, n)
  {
  }
}
