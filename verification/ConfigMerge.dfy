/** The lines that the loader takes for an option in the rewritten file, told from the old file and the
    lines written for the option. */
module ConfigMerge {
  import opened CStrings
  import opened Wrappers
  import opened ConfigLines
  import opened ConfigRewrite
  import opened ConfigAccounting

  /** The old lines that name `name` up to a NUL, with `own` in the places of those that are its own:
      these are used up from the front, places left over are empty, and what is left of `own` follows. */
  function Merge(lines: seq<cstring>, name: cstring, own: seq<cstring>): seq<cstring> {
    if lines == [] then own
    else if OptionOf(lines[0]) == Some(name) then
      if own == [] then Merge(lines[1..], name, []) else [own[0]] + Merge(lines[1..], name, own[1..])
    else if NameOf(lines[0]) == Some(name) then
      [lines[0]] + Merge(lines[1..], name, own)
    else
      Merge(lines[1..], name, own)
  }

  /** A line of the merge is one of `own`, or an old line that only passes for the name. */
  lemma {:induction false} MergeMembers(lines: seq<cstring>, name: cstring, own: seq<cstring>)
    ensures forall l :: l in Merge(lines, name, own) ==> l in own || (l in lines && OptionOf(l) != Some(name))
  {
    hide OptionOf, NameOf;
    if lines != [] {
      MergeMembers(lines[1..], name, own);
      MergeMembers(lines[1..], name, if own == [] then [] else own[1..]);
    }
  }

  // ---------- What the rewrite does to each place ----------

  /** A place of the option itself: written anew, or blank, and then nothing after it is written. */
  ghost predicate OwnPlace(lines: seq<cstring>, i: nat, name: cstring)
    requires i < |lines|
  {
    || OptionOf(lines[i]) == Some(name)
    || (lines[i] == [] && forall j :: i < j < |lines| ==> OptionOf(lines[j]) != Some(name))
  }

  /** `lines` came from `before` by rewriting the places of `name`; lines that only pass for it stay. */
  ghost predicate Aligned(before: seq<cstring>, lines: seq<cstring>, name: cstring) {
    && |before| <= |lines|
    && (forall i :: 0 <= i < |before| && OptionOf(before[i]) == Some(name) ==> OwnPlace(lines, i, name))
    && (forall i :: 0 <= i < |before| && OptionOf(before[i]) != Some(name) && NameOf(before[i]) == Some(name) ==>
          lines[i] == before[i])
    && (forall i :: 0 <= i < |before| && NameOf(before[i]) != Some(name) ==> NameOf(lines[i]) != Some(name))
    && (forall i :: |before| <= i < |lines| && NameOf(lines[i]) == Some(name) ==> OptionOf(lines[i]) == Some(name))
  }

  lemma {:induction false} NoneOwned(lines: seq<cstring>, name: cstring)
    requires forall i :: 0 <= i < |lines| ==> OptionOf(lines[i]) != Some(name)
    ensures Owned(lines, name) == []
  {
    hide OptionOf;
    if lines != [] {
      NoneOwned(lines[..|lines| - 1], name);
    }
  }

  lemma {:induction false} NamedAllOwned(lines: seq<cstring>, name: cstring)
    requires CStr(name) == name
    requires forall i :: 0 <= i < |lines| && NameOf(lines[i]) == Some(name) ==> OptionOf(lines[i]) == Some(name)
    ensures Named(lines, name) == Owned(lines, name)
  {
    hide OptionOf, CStr;
    if lines != [] {
      NamedAllOwned(lines[..|lines| - 1], name);
    }
  }

  /** The first line, for both ways of counting lines. */
  lemma Heads(lines: seq<cstring>, name: cstring)
    requires lines != [] && CStr(name) == name
    ensures OptionOf(lines[0]) == Some(name) ==> NameOf(lines[0]) == Some(name)
    ensures Owned(lines, name)
         == (if OptionOf(lines[0]) == Some(name) then [lines[0]] else []) + Owned(lines[1..], name)
    ensures Named(lines, name) == (if NameOf(lines[0]) == Some(name) then [lines[0]] else []) + Named(lines[1..], name)
  {
    hide OptionOf, CStr, Owned, Named;
    assert lines == [lines[0]] + lines[1..];
    OwnedConcat([lines[0]], lines[1..], name);
    OwnedOne(lines[0], name);
    NamedConcat([lines[0]], lines[1..], name);
    NamedOne(lines[0], name);
  }

  lemma AlignedTail(before: seq<cstring>, lines: seq<cstring>, name: cstring)
    requires before != [] && Aligned(before, lines, name)
    ensures Aligned(before[1..], lines[1..], name)
  {
    hide OptionOf, NameOf;
    var b, l := before[1..], lines[1..];
    assert forall i :: 0 <= i < |b| ==> b[i] == before[i + 1];
    assert forall i :: 0 <= i < |l| ==> l[i] == lines[i + 1];
    forall i | 0 <= i < |b| && OptionOf(b[i]) == Some(name) ensures OwnPlace(l, i, name) {
      assert OwnPlace(lines, i + 1, name);
    }
  }

  lemma {:induction false} AlignedMerges(before: seq<cstring>, lines: seq<cstring>, name: cstring)
    requires Aligned(before, lines, name) && CStr(name) == name
    ensures Named(lines, name) == Merge(before, name, Owned(lines, name))
    decreases |before|
  {
    OptionOfEmpty();
    hide OptionOf, CStr, Owned, Named;
    if before == [] {
      NamedAllOwned(lines, name);
    } else {
      var own := Owned(lines, name);
      Heads(lines, name);
      AlignedTail(before, lines, name);
      AlignedMerges(before[1..], lines[1..], name);
      if OptionOf(before[0]) == Some(name) {
        assert OwnPlace(lines, 0, name);
        if OptionOf(lines[0]) == Some(name) {
          assert own[1..] == Owned(lines[1..], name);
        } else {
          NoneOwned(lines, name);
          assert own == Owned(lines[1..], name) && Named(lines, name) == Named(lines[1..], name);
        }
      } else {
        assert own == Owned(lines[1..], name);
      }
    }
  }

  // ---------- The rewrite aligns ----------

  /** A blank place of a processed option lies behind all lines written for it. */
  lemma BlankedLast(st: State, calls: seq<Call>, name: cstring, i: nat)
    requires Initial(st) && st.Wf() && ValidCalls(calls) && name in Processed(calls)
    requires i < |Run(st, calls).lines| && OptionOf(Run(st, calls).lines[i]) == Some(name)
    ensures OwnPlace(WithoutOrphans(Run(st, calls)), i, name)
  {
    OptionOfEmpty();
    RunAccounts(st, calls, name);
    RunProcessed(st, calls);
    InitialNothingProcessed(st);
    hide OptionOf, Owned, Positions, Run, Initial, State.Wf, Orphan, ValidCall, Emitted, Processed;
    var r := Run(st, calls);
    var lines, p := WithoutOrphans(r), Positions(r.lines, name);
    var m := |Emitted(calls, name, OldCount(st, name))|;
    PositionsSpec(r.lines, name);
    OrphanOwner(st, calls, i);
    if Orphan(r, i) {
      forall j | i < j < |lines| && OptionOf(r.lines[j]) == Some(name) ensures Orphan(r, j) {
        OrphanOwner(st, calls, j);
        LaterLeft(p, m, i, j);
      }
      forall j | i < j < |lines| ensures OptionOf(lines[j]) != Some(name) {
        assert lines[j] == if Orphan(r, j) then [] else r.lines[j];
      }
    }
  }

  /** In an ascending list, what comes later is left over too. */
  lemma LaterLeft(p: seq<nat>, m: nat, i: nat, j: nat)
    requires Ascending(p) && m <= |p| && i in p[m..] && j in p && i < j
    ensures j in p[m..]
  {
    var a :| 0 <= a < |p| - m && p[m..][a] == i;
    var b :| 0 <= b < |p| && p[b] == j;
    assert p[m + a] == i && b > m + a;
    assert p[m..][b - m] == j;
  }

  lemma RewriteAligns(st: State, calls: seq<Call>, name: cstring)
    requires Initial(st) && st.Wf() && ValidCalls(calls) && name in Processed(calls)
    requires forall x <- Processed(calls) :: CStr(x) == x
    ensures Aligned(st.lines, WithoutOrphans(Run(st, calls)), name)
  {
    OptionOfEmpty();
    RunExtends(st, calls);
    FinalExtends(st, calls);
    hide OptionOf, CStr, Run, Initial, State.Wf, ValidCall, WithoutOrphans, Processed;
    var r, lines := Run(st, calls).lines, WithoutOrphans(Run(st, calls));
    forall i | 0 <= i < |st.lines| && OptionOf(st.lines[i]) == Some(name) ensures OwnPlace(lines, i, name) {
      BlankedLast(st, calls, name, i);
    }
  }

  /** In the rewritten file the loader takes for `name` the merge of the old lines with the written ones. */
  lemma NamedIsMerge(st: State, calls: seq<Call>, name: cstring)
    requires Initial(st) && st.Wf() && ValidCalls(calls) && name in Processed(calls)
    requires forall x <- Processed(calls) :: CStr(x) == x
    ensures Named(WithoutOrphans(Run(st, calls)), name)
         == Merge(st.lines, name, Emitted(calls, name, |Owned(st.lines, name)|))
  {
    hide OptionOf, CStr, Run, Initial, State.Wf, ValidCall, WithoutOrphans, Aligned;
    RewriteAligns(st, calls, name);
    AlignedMerges(st.lines, WithoutOrphans(Run(st, calls)), name);
    RewriteAccounting(st, calls, name);
  }
}
