/** Which lines the rewritten file holds for each option, and what it leaves alone. */
module ConfigAccounting {
  import opened CStrings
  import opened Wrappers
  import opened ConfigLines
  import opened ConfigRewrite

  /** The lines written for `option` when the old file had `n` lines for it: a call is kept while
      old lines are left to be reused, and afterwards only if it is forced. */
  function Emitted(calls: seq<Call>, option: cstring, n: nat): seq<cstring> {
    if calls == [] then []
    else
      var prior, c := Emitted(calls[..|calls| - 1], option, n), calls[|calls| - 1];
      if c.Rewrite? && c.option == option && (|prior| < n || c.force) then prior + [c.line] else prior
  }

  function Processed(calls: seq<Call>): set<cstring> {
    set i | 0 <= i < |calls| :: calls[i].option
  }

  /** The first lines of `option` are the emitted ones, the others are those still to be reused. */
  ghost predicate Accounts(st: State, option: cstring, n: nat, emitted: seq<cstring>) {
    var owned, p := Owned(st.lines, option), Positions(st.lines, option);
    && |emitted| <= |owned| == |p| == (if |emitted| <= n then n else |emitted|)
    && owned[..|emitted|] == emitted
    && st.Remaining(option) == p[|emitted|..]
  }

  lemma AppendAccounts(st: State, line: cstring, option: cstring, n: nat, emitted: seq<cstring>, st': State)
    requires Accounts(st, option, n, emitted)
    requires st'.lines == st.lines + [line] && st'.optionToLine == st.optionToLine
    requires OptionOf(line) == Some(option) ==> st.Remaining(option) == []
    ensures Accounts(st', option, n, if OptionOf(line) == Some(option) then emitted + [line] else emitted)
  {
    hide OptionOf, Positions, Owned;
    PositionsAppend(st.lines, line, option);
  }

  lemma TailAccounts(st: State, option: cstring, n: nat, emitted: seq<cstring>)
    requires Accounts(st, option, n, emitted)
    ensures Accounts(WithTail(st), option, n, emitted)
  {
    OptionOfEmpty();
    hide OptionOf, Accounts;
    if !st.hasTail {
      AppendAccounts(st, SIGNATURE, option, n, emitted, WithTail(st));
    } 
  }

  lemma AppendLineAccounts(st: State, c: Call, option: cstring, n: nat, emitted: seq<cstring>)
    requires st.Wf() && ValidCall(c) && c.Rewrite? && c.force && c.option !in st.optionToLine
    requires Accounts(st, option, n, emitted)
    ensures Accounts(Apply(st, c), option, n, if option == c.option then emitted + [c.line] else emitted)
  {
    hide OptionOf, Accounts;
    var st1 := st.(rewritten := st.rewritten + {c.option});
    assert Accounts(st1, option, n, emitted) by { SameAccounts(st, st1, option, n, emitted); }
    TailAccounts(st1, option, n, emitted);
    AppendAccounts(WithTail(st1), c.line, option, n, emitted, Apply(st, c));
  }

  lemma SameAccounts(st: State, st': State, option: cstring, n: nat, emitted: seq<cstring>)
    requires Accounts(st, option, n, emitted) && st'.lines == st.lines && st'.optionToLine == st.optionToLine
    ensures Accounts(st', option, n, emitted)
  {
  }

  lemma ReplaceAccounts(st: State, c: Call, n: nat, emitted: seq<cstring>)
    requires st.Wf() && ValidCall(c) && c.Rewrite? && c.option in st.optionToLine
    requires Accounts(st, c.option, n, emitted)
    ensures Accounts(Apply(st, c), c.option, n, emitted + [c.line])
  {
    hide OptionOf, Positions, Owned;
    var l, m := st.optionToLine[c.option], |emitted|;
    assert l[0] == Positions(st.lines, c.option)[m];
    OwnedUpdate(st.lines, c.option, m, c.line);
    var st' := Apply(st, c);
    var owned := Owned(st.lines, c.option);
    assert owned[m := c.line][..m + 1] == owned[..m] + [c.line];
    assert st'.Remaining(c.option) == l[1..];
  }

  lemma ReplaceAccountsOther(st: State, c: Call, m: nat, mine: seq<cstring>,
                             option: cstring, n: nat, emitted: seq<cstring>)
    requires st.Wf() && ValidCall(c) && c.Rewrite? && c.option in st.optionToLine && option != c.option
    requires Accounts(st, c.option, m, mine) && Accounts(st, option, n, emitted)
    ensures Accounts(Apply(st, c), option, n, emitted)
  {
    hide OptionOf, Positions, Owned;
    assert st.optionToLine[c.option][0] == Positions(st.lines, c.option)[|mine|];
    OwnedUpdateOther(st.lines, c.option, |mine|, c.line, option);
    assert Apply(st, c).Remaining(option) == st.Remaining(option);
  }

  /** One call, seen from any option. */
  lemma ApplyAccounts(st: State, c: Call, m: nat, mine: seq<cstring>, option: cstring, n: nat, emitted: seq<cstring>)
    requires st.Wf() && ValidCall(c)
    requires Accounts(st, c.option, m, mine) && Accounts(st, option, n, emitted)
    requires option == c.option ==> m == n && mine == emitted
    ensures Accounts(Apply(st, c), option, n,
                     if c.Rewrite? && option == c.option && (|emitted| < n || c.force) then emitted + [c.line]
                     else emitted)
  {
    assert c.option in st.optionToLine <==> |mine| < m by {
      assert st.Remaining(c.option) != [] <==> |mine| < m;
    }
    hide OptionOf, Accounts;
    if c.Rewrite? && c.option in st.optionToLine {
      if option == c.option {
        ReplaceAccounts(st, c, n, emitted);
      } else {
        ReplaceAccountsOther(st, c, m, mine, option, n, emitted);
      }
    } else if c.Rewrite? && c.force {
      AppendLineAccounts(st, c, option, n, emitted);
    } else {
      SameAccounts(st, Apply(st, c), option, n, emitted);
    }
  }

  function OldCount(st: State, option: cstring): nat {
    |Positions(st.lines, option)|
  }

  lemma InitialAccounts(st: State, option: cstring)
    requires Initial(st)
    ensures Accounts(st, option, OldCount(st, option), [])
  {
    hide OptionOf, Positions, Owned, Clean;
    OwnedAt(st.lines, option);
    assert st.Remaining(option) == Positions(st.lines, option);
  }

  /** After any run of calls, every option is accounted for. */
  lemma {:induction false} RunAccounts(st: State, calls: seq<Call>, option: cstring)
    requires Initial(st) && st.Wf() && ValidCalls(calls)
    ensures Accounts(Run(st, calls), option, OldCount(st, option), Emitted(calls, option, OldCount(st, option)))
    decreases |calls|
  {
    hide Accounts, OldCount, OptionOf, Apply, Initial, State.Wf, ValidCall;
    if calls == [] {
      InitialAccounts(st, option);
    } else {
      var front, c := calls[..|calls| - 1], calls[|calls| - 1];
      RunAccounts(st, front, option);
      RunAccounts(st, front, c.option);
      ApplyAccounts(Run(st, front), c, OldCount(st, c.option), Emitted(front, c.option, OldCount(st, c.option)),
                    option, OldCount(st, option), Emitted(front, option, OldCount(st, option)));
    }
  }

  lemma {:induction false} RunProcessed(st: State, calls: seq<Call>)
    requires st.Wf()
    ensures Run(st, calls).rewritten == st.rewritten + Processed(calls)
    decreases |calls|
  {
    if calls != [] {
      var front, c := calls[..|calls| - 1], calls[|calls| - 1];
      RunProcessed(st, front);
      assert Processed(calls) == Processed(front) + {c.option};
    }
  }

  // ---------- Orphans ----------

  /** Line numbers left over are blanked: each was listed under the option that owns the line. */
  lemma OrphanOwner(st: State, calls: seq<Call>, i: nat)
    requires Initial(st) && st.Wf() && ValidCalls(calls) && i < |Run(st, calls).lines|
    ensures var r := Run(st, calls);
            Orphan(r, i) <==> OptionOf(r.lines[i]).Some? && OptionOf(r.lines[i]).value in r.rewritten
                              && i in r.Remaining(OptionOf(r.lines[i]).value)
  {
    hide OptionOf, Owned, Positions, Run, Initial, State.Wf;
    var r := Run(st, calls);
    if Orphan(r, i) {
      var o :| o in r.optionToLine && o in r.rewritten && i in r.Remaining(o);
      RunAccounts(st, calls, o);
      PositionsSpec(r.lines, o);
      assert i in Positions(r.lines, o);
    }
  }

  /** The lines of a processed option in the final file are exactly the emitted ones, in order;
      an option nobody processed keeps all its lines. */
  lemma FinalOwned(st: State, calls: seq<Call>, option: cstring)
    requires Initial(st) && st.Wf() && ValidCalls(calls)
    ensures Owned(WithoutOrphans(Run(st, calls)), option)
         == if option in Processed(calls) then Emitted(calls, option, OldCount(st, option))
            else Owned(Run(st, calls).lines, option)
  {
    hide OptionOf, Owned, Positions, Run, Initial, State.Wf, Orphan, ValidCall;
    var r, e := Run(st, calls), Emitted(calls, option, OldCount(st, option));
    var lines' := WithoutOrphans(r);
    var p := Positions(r.lines, option);
    RunAccounts(st, calls, option);
    assert r.rewritten == Processed(calls) by {
      RunProcessed(st, calls);
      InitialNothingProcessed(st);
    }
    var kept := if option in r.rewritten then p[..|e|] else p;
    PositionsSpec(r.lines, option);
    forall i ensures i in kept <==> 0 <= i < |lines'| && OptionOf(lines'[i]) == Some(option) {
      if 0 <= i < |lines'| {
        OptionOfEmpty();
        OrphanOwner(st, calls, i);
        SplitMember(p, |e|, i);
      } else {
        SplitMember(p, |e|, i);
      }
    }
    PositionsUnique(lines', option, kept);
    OwnedAt(r.lines, option);
    OwnedAt(lines', option);
    forall k | 0 <= k < |kept| ensures Owned(lines', option)[k] == Owned(r.lines, option)[k] {
      assert kept[k] in kept;
      assert OptionOf(lines'[kept[k]]) == Some(option);
      OptionOfEmpty();
    }
  }

  lemma InitialNothingProcessed(st: State)
    requires Initial(st)
    ensures st.rewritten == {}
  {
  }

  lemma SplitMember(p: seq<nat>, m: nat, i: int)
    requires Ascending(p) && m <= |p|
    ensures i in p <==> i in p[..m] || i in p[m..]
    ensures !(i in p[..m] && i in p[m..])
  {
    if i in p {
      var k :| 0 <= k < |p| && p[k] == i;
      if k < m {
        assert p[..m][k] == i;
      } else {
        assert p[m..][k - m] == i;
      }
    }
    if i in p[..m] {
      var a :| 0 <= a < m && p[..m][a] == i;
      assert forall b :: 0 <= b < |p| - m ==> p[m..][b] == p[m + b] > p[a];
    }
  }

  // ---------- What the rewrite leaves alone ----------

  ghost predicate Belongs(line: cstring, options: set<cstring>) {
    OptionOf(line).Some? && OptionOf(line).value in options
  }

  /** `lines` came from `old` by rewriting lines of `options` in place and appending at the end. */
  ghost predicate Extends(old_: seq<cstring>, lines: seq<cstring>, options: set<cstring>) {
    && |old_| <= |lines|
    && (forall i :: 0 <= i < |old_| ==> OptionOf(lines[i]) == OptionOf(old_[i]))
    && (forall i :: 0 <= i < |old_| && !Belongs(old_[i], options) ==> lines[i] == old_[i])
    && (forall i :: |old_| <= i < |lines| ==> lines[i] == SIGNATURE || Belongs(lines[i], options))
  }

  lemma ExtendsApply(old_: seq<cstring>, st: State, options: set<cstring>, c: Call, n: nat, mine: seq<cstring>)
    requires st.Wf() && ValidCall(c) && Extends(old_, st.lines, options)
    requires Accounts(st, c.option, n, mine)
    ensures Extends(old_, Apply(st, c).lines, options + {c.option})
  {
    hide OptionOf, Positions, Owned, Clean;
    if c.Rewrite? && c.option in st.optionToLine {
      var r := st.optionToLine[c.option][0];
      PositionsSpec(st.lines, c.option);
      assert r == Positions(st.lines, c.option)[|mine|];
      assert r in Positions(st.lines, c.option);
      assert OptionOf(st.lines[r]) == Some(c.option);
    }
  }

  lemma {:induction false} RunExtends(st: State, calls: seq<Call>)
    requires Initial(st) && st.Wf() && ValidCalls(calls)
    ensures Extends(st.lines, Run(st, calls).lines, Processed(calls))
    decreases |calls|
  {
    hide OptionOf, Apply, Initial, State.Wf, ValidCall, Accounts, OldCount;
    if calls != [] {
      var front, c := calls[..|calls| - 1], calls[|calls| - 1];
      RunExtends(st, front);
      RunAccounts(st, front, c.option);
      ExtendsApply(st.lines, Run(st, front), Processed(front), c, OldCount(st, c.option),
                   Emitted(front, c.option, OldCount(st, c.option)));
      assert Processed(calls) == Processed(front) + {c.option};
    }
  }

  lemma FinalExtends(st: State, calls: seq<Call>)
    requires Initial(st) && st.Wf() && ValidCalls(calls)
    ensures var lines := WithoutOrphans(Run(st, calls));
            && |st.lines| <= |lines|
            && (forall i :: 0 <= i < |st.lines| && !Belongs(st.lines[i], Processed(calls)) ==> lines[i] == st.lines[i])
            && (forall i :: 0 <= i < |lines| ==>
                  lines[i] == [] || lines[i] == Run(st, calls).lines[i])
  {
    hide OptionOf, Initial, State.Wf, ValidCall, Run, Orphan;
    RunExtends(st, calls);
    InitialNothingProcessed(st);
    RunProcessed(st, calls);
    var r := Run(st, calls);
    forall i | 0 <= i < |st.lines| && !Belongs(st.lines[i], Processed(calls))
      ensures WithoutOrphans(r)[i] == st.lines[i]
    {
      OrphanOwner(st, calls, i);
    }
  }

  /** Options nobody processed keep their lines. */
  lemma UnprocessedKept(st: State, calls: seq<Call>, option: cstring)
    requires Initial(st) && st.Wf() && ValidCalls(calls) && option !in Processed(calls)
    ensures Owned(Run(st, calls).lines, option) == Owned(st.lines, option)
  {
    hide OptionOf, Initial, State.Wf, ValidCall, Run, Positions, Owned;
    RunExtends(st, calls);
    var lines, p := Run(st, calls).lines, Positions(st.lines, option);
    PositionsSpec(st.lines, option);
    OptionOfEmpty();
    PositionsUnique(lines, option, p);
    OwnedAt(lines, option);
    OwnedAt(st.lines, option);
    forall k | 0 <= k < |p| ensures lines[p[k]] == st.lines[p[k]] {
      assert p[k] in p;
    }
  }

  /** The accounting theorem: processed options have exactly the emitted lines, in emission order;
      every other option has exactly the lines it had. */
  lemma RewriteAccounting(st: State, calls: seq<Call>, option: cstring)
    requires Initial(st) && st.Wf() && ValidCalls(calls)
    ensures Owned(WithoutOrphans(Run(st, calls)), option)
         == if option in Processed(calls) then Emitted(calls, option, |Owned(st.lines, option)|)
            else Owned(st.lines, option)
  {
    hide OptionOf, Initial, State.Wf, ValidCall, Run, Positions, Owned;
    FinalOwned(st, calls, option);
    OwnedAt(st.lines, option);
    if option !in Processed(calls) {
      UnprocessedKept(st, calls, option);
    }
  }

  /** Until orphans are removed the line lists are non-empty, ascending, in range and disjoint. */
  lemma LineLists(st: State, calls: seq<Call>, a: cstring, b: cstring)
    requires Initial(st) && st.Wf() && ValidCalls(calls)
    requires a in Run(st, calls).optionToLine && b in Run(st, calls).optionToLine && a != b
    ensures var r := Run(st, calls);
            && r.optionToLine[a] != [] && Ascending(r.optionToLine[a])
            && (forall k :: 0 <= k < |r.optionToLine[a]| ==> r.optionToLine[a][k] < |r.lines|)
            && (forall i :: i in r.optionToLine[a] ==> i !in r.optionToLine[b])
  {
    hide OptionOf, Initial, ValidCall, Run, Positions, Owned, Emitted;
    var r := Run(st, calls);
    RunAccounts(st, calls, a);
    RunAccounts(st, calls, b);
    PositionsSpec(r.lines, a);
    PositionsSpec(r.lines, b);
    var pa, pb := Positions(r.lines, a), Positions(r.lines, b);
    var ea := |pa| - |r.optionToLine[a]|;
    var eb := |pb| - |r.optionToLine[b]|;
    assert r.optionToLine[a] == r.Remaining(a) == pa[ea..];
    assert r.optionToLine[b] == r.Remaining(b) == pb[eb..];
    forall i | i in r.optionToLine[a] ensures i !in r.optionToLine[b] {
      SplitMember(pa, ea, i);
      SplitMember(pb, eb, i);
    }
  }

  // ---------- The signature line ----------

  ghost function Signatures(lines: seq<cstring>): set<nat> {
    set i: nat | i < |lines| && lines[i] == SIGNATURE
  }

  /** At most one signature, and only when there was none. */
  ghost predicate OneSignatureMore(old_: seq<cstring>, lines: seq<cstring>) {
    Signatures(lines) == Signatures(old_) || (Signatures(old_) == {} && |Signatures(lines)| == 1)
  }

  lemma SignaturesApply(st: State, c: Call, n: nat, mine: seq<cstring>)
    requires st.Wf() && ValidCall(c) && Accounts(st, c.option, n, mine)
    requires st.hasTail <==> Signatures(st.lines) != {}
    ensures var st' := Apply(st, c);
            && (st'.hasTail <==> Signatures(st'.lines) != {})
            && (if st.hasTail == st'.hasTail then Signatures(st'.lines) == Signatures(st.lines)
                else Signatures(st'.lines) == {|st.lines|})
  {
    hide Positions, Owned, Clean;
    OptionOfEmpty();
    hide OptionOf;
    var st' := Apply(st, c);
    if c.Rewrite? && c.option in st.optionToLine {
      var r := st.optionToLine[c.option][0];
      PositionsSpec(st.lines, c.option);
      assert r == Positions(st.lines, c.option)[|mine|];
      assert r in Positions(st.lines, c.option);
      assert st.lines[r] != SIGNATURE && st'.lines[r] != SIGNATURE;
      assert forall i :: 0 <= i < |st.lines| && i != r ==> st'.lines[i] == st.lines[i];
      assert Signatures(st'.lines) == Signatures(st.lines);
    } else if c.Rewrite? && c.force {
      assert forall i :: 0 <= i < |st.lines| ==> st'.lines[i] == st.lines[i];
      assert st'.lines[|st'.lines| - 1] != SIGNATURE;
      if !st.hasTail {
        assert st'.lines[|st.lines|] == SIGNATURE;
        forall i: nat | i < |st.lines| ensures st.lines[i] != SIGNATURE {
          assert i !in Signatures(st.lines);
        }
        assert Signatures(st'.lines) == {|st.lines|};
      } else {
        assert Signatures(st'.lines) == Signatures(st.lines);
      }
    }
  }

  lemma {:induction false} RunSignatures(st: State, calls: seq<Call>)
    requires Initial(st) && st.Wf() && ValidCalls(calls)
    ensures var r := Run(st, calls);
            && (r.hasTail <==> Signatures(r.lines) != {})
            && OneSignatureMore(st.lines, r.lines)
    decreases |calls|
  {
    hide OptionOf, Apply, State.Wf, ValidCall, Accounts, OldCount, Positions;
    if calls == [] {
      if SIGNATURE in st.lines {
        var i :| 0 <= i < |st.lines| && st.lines[i] == SIGNATURE;
        assert i in Signatures(st.lines);
      }
    } else {
      hide Initial;
      var front, c := calls[..|calls| - 1], calls[|calls| - 1];
      RunSignatures(st, front);
      RunAccounts(st, front, c.option);
      SignaturesApply(Run(st, front), c, OldCount(st, c.option), Emitted(front, c.option, OldCount(st, c.option)));
    }
  }

  /** Removing orphans neither adds nor removes a signature. */
  lemma FinalSignatures(st: State, calls: seq<Call>)
    requires Initial(st) && st.Wf() && ValidCalls(calls)
    ensures OneSignatureMore(st.lines, WithoutOrphans(Run(st, calls)))
  {
    RunSignatures(st, calls);
    OptionOfEmpty();
    hide OptionOf, Initial, State.Wf, ValidCall, Run, Orphan;
    var r := Run(st, calls);
    var lines := WithoutOrphans(r);
    assert SIGNATURE != [];
    forall i: nat | i < |lines| ensures lines[i] == SIGNATURE <==> r.lines[i] == SIGNATURE {
      OrphanOwner(st, calls, i);
    }
    assert Signatures(lines) == Signatures(r.lines);
  }

  // ---------- What is appended ----------

  /** The lines of the forced calls that come when no old line of their option is left, in the order of the calls. */
  function Appended(lines: seq<cstring>, calls: seq<Call>): seq<cstring> {
    if calls == [] then []
    else
      var front, c := calls[..|calls| - 1], calls[|calls| - 1];
      var n := |Positions(lines, c.option)|;
      Appended(lines, front)
      + if c.Rewrite? && c.force && |Emitted(front, c.option, n)| >= n then [c.line] else []
  }

  /** The old lines, then a signature if something is appended and there was none, then what is appended. */
  ghost predicate Grown(old_: seq<cstring>, tail: seq<cstring>, st: State) {
    var signed := SIGNATURE in old_;
    && |old_| <= |st.lines|
    && st.lines[|old_|..] == (if tail == [] || signed then [] else [SIGNATURE]) + tail
    && (st.hasTail <==> signed || tail != [])
  }

  lemma GrownApply(old_: seq<cstring>, tail: seq<cstring>, st: State, c: Call)
    requires st.Wf() && Grown(old_, tail, st)
    requires c.Rewrite? && c.option in st.optionToLine ==> st.optionToLine[c.option][0] < |old_|
    ensures Grown(old_, if c.Rewrite? && c.force && c.option !in st.optionToLine then tail + [c.line] else tail,
                  Apply(st, c))
  {
  }

  /** Only old lines are ever rewritten in place. */
  lemma ListedAreOld(st: State, front: seq<Call>, option: cstring)
    requires Initial(st) && st.Wf() && ValidCalls(front)
    ensures var r, n := Run(st, front), OldCount(st, option);
            && (option in r.optionToLine <==> |Emitted(front, option, n)| < n)
            && forall i :: i in r.Remaining(option) ==> i < |st.lines|
  {
    hide OptionOf, Owned, Initial, State.Wf, ValidCall, Run, Positions, Extends;
    var r, n := Run(st, front), OldCount(st, option);
    var e := Emitted(front, option, n);
    RunAccounts(st, front, option);
    RunWf(st, front);
    assert r.Remaining(option) == Positions(r.lines, option)[|e|..];
    OldPlaces(st, front, option);
    var p := Positions(r.lines, option);
    forall i | i in r.Remaining(option) ensures i < |st.lines| {
      var k :| 0 <= k < |p| - |e| && p[|e|..][k] == i;
      assert p[..n][|e| + k] == i;
    }
  }

  lemma RunWf(st: State, calls: seq<Call>)
    requires st.Wf()
    ensures forall o :: o in Run(st, calls).optionToLine ==> Run(st, calls).optionToLine[o] != []
  {
    hide Run;
    assert Run(st, calls).Wf();
  }

  /** The places an option had in the old file stay its first ones. */
  lemma OldPlaces(st: State, calls: seq<Call>, option: cstring)
    requires Initial(st) && st.Wf() && ValidCalls(calls)
    ensures var p, n := Positions(Run(st, calls).lines, option), OldCount(st, option);
            n <= |p| && forall k :: 0 <= k < n ==> p[..n][k] < |st.lines|
  {
    hide OptionOf, Owned, Initial, State.Wf, ValidCall, Run;
    RunExtends(st, calls);
    var lines := Run(st, calls).lines;
    var p, q := Positions(lines, option), Positions(st.lines, option);
    hide Positions;
    PositionsSpec(lines, option);
    PositionsSpec(st.lines, option);
    FirstPlaces(p, q, |st.lines|);
    forall k | 0 <= k < |q| ensures p[..|q|][k] < |st.lines| {
      assert p[..|q|] == q && q[k] in q;
    }
  }

  /** If the members of `p` below `n` are those of `q`, the first ones of `p` are `q`. */
  lemma FirstPlaces(p: seq<nat>, q: seq<nat>, n: nat)
    requires Ascending(p) && Ascending(q) && forall i :: i in q <==> i in p && i < n
    ensures q <= p && forall i :: i in q ==> i < n
  {
    var m := CountBelow(p, n);
    forall i ensures i in p[..m] <==> i in q {
      SplitMember(p, m, i);
      if i in p[..m] {
        var a :| 0 <= a < m && p[..m][a] == i;
        assert p[a] < n;
      }
      if i in p[m..] {
        var b :| 0 <= b < |p| - m && p[m..][b] == i;
        assert p[m + b] >= n;
      }
    }
    AscendingUnique(p[..m], q);
  }

  lemma {:induction false} CountBelow(p: seq<nat>, n: nat) returns (m: nat)
    requires Ascending(p)
    ensures m <= |p| && (forall k :: 0 <= k < m ==> p[k] < n) && forall k :: m <= k < |p| ==> p[k] >= n
  {
    if p == [] || p[|p| - 1] < n {
      m := |p|;
    } else {
      m := CountBelow(p[..|p| - 1], n);
    }
  }

  lemma FirstListed(r: State, option: cstring, n: nat)
    requires r.Wf() && forall i :: i in r.Remaining(option) ==> i < n
    ensures option in r.optionToLine ==> r.optionToLine[option][0] < n
  {
    if option in r.optionToLine {
      assert r.Remaining(option)[0] in r.Remaining(option);
    }
  }

  /** What a run appends to the file, in which order, and where the signature stands. */
  lemma {:induction false} RunAppends(st: State, calls: seq<Call>)
    requires Initial(st) && st.Wf() && ValidCalls(calls)
    ensures Grown(st.lines, Appended(st.lines, calls), Run(st, calls))
    decreases |calls|
  {
    hide OptionOf, Apply, State.Wf, ValidCall, Positions, Emitted;
    if calls != [] {
      hide Initial, Grown;
      var front, c := calls[..|calls| - 1], calls[|calls| - 1];
      RunAppends(st, front);
      ListedAreOld(st, front, c.option);
      FirstListed(Run(st, front), c.option, |st.lines|);
      GrownApply(st.lines, Appended(st.lines, front), Run(st, front), c);
    }
  }

  /** Nothing that was appended is blanked. */
  lemma FinalAppends(st: State, calls: seq<Call>)
    requires Initial(st) && st.Wf() && ValidCalls(calls)
    ensures var tail, lines := Appended(st.lines, calls), WithoutOrphans(Run(st, calls));
            && |st.lines| <= |lines|
            && lines[|st.lines|..] == (if tail == [] || SIGNATURE in st.lines then [] else [SIGNATURE]) + tail
  {
    RunAppends(st, calls);
    hide OptionOf, Initial, State.Wf, ValidCall, Run, Appended;
    var r := Run(st, calls);
    forall i: nat | Orphan(r, i) ensures i < |st.lines| {
      var o :| o in r.optionToLine && o in r.rewritten && i in r.Remaining(o);
      ListedAreOld(st, calls, o);
    }
    assert WithoutOrphans(r)[|st.lines|..] == r.lines[|st.lines|..];
  }
}
