/** Lines of a configuration file, and which option a line belongs to (config.c:1381-1418). */
module ConfigLines {
  import opened CStrings
  import opened Quoting
  import opened SdsStrings
  import opened Wrappers

  const SIGNATURE: cstring := "# Generated by CONFIG REWRITE"
  const UNPARSABLE: cstring := "# ??? "
  const BLANKS: cstring := " \t\r\n"

  predicate IsComment(line: cstring) {
    At(line, 0) == '#' || At(line, 0) == NUL
  }

  /** The option a trimmed line sets; comments, blank lines and unparsable lines set none. */
  function OptionOf(line: cstring): Option<cstring> {
    if IsComment(line) then None
    else
      match SplitArgs(line)
      case None => None
      case Some(args) => if args == [] then None else Some(Lower(args[0]))
  }

  /** A line as the rewrite state stores it. */
  ghost predicate Clean(line: cstring) {
    Trimmed(line, BLANKS) && NoNul(line) && Avoids(line, '\n')
  }

  // ---------- The lines of one option ----------

  /** Indices of the lines that belong to `option`, in file order. */
  function Positions(lines: seq<cstring>, option: cstring): seq<nat> {
    if lines == [] then []
    else
      var i := |lines| - 1;
      Positions(lines[..i], option) + (if OptionOf(lines[i]) == Some(option) then [i] else [])
  }

  /** Those lines themselves. */
  function Owned(lines: seq<cstring>, option: cstring): seq<cstring> {
    if lines == [] then []
    else
      var i := |lines| - 1;
      Owned(lines[..i], option) + (if OptionOf(lines[i]) == Some(option) then [lines[i]] else [])
  }

  lemma {:induction false} OwnedMembers(lines: seq<cstring>, option: cstring)
    ensures forall l :: l in Owned(lines, option) <==> l in lines && OptionOf(l) == Some(option)
  {
    hide OptionOf;
    if lines != [] {
      var i := |lines| - 1;
      OwnedMembers(lines[..i], option);
      assert lines == lines[..i] + [lines[i]];
    }
  }

  // ---------- Lines by the name the loader compares ----------

  /** The name the loader compares with those it knows: it ends at the first NUL. */
  function NameOf(line: cstring): Option<cstring> {
    match OptionOf(line)
    case None => None
    case Some(option) => Some(CStr(option))
  }

  /** The lines the loader takes for `name`, in file order. */
  function Named(lines: seq<cstring>, name: cstring): seq<cstring> {
    if lines == [] then []
    else
      var i := |lines| - 1;
      Named(lines[..i], name) + (if NameOf(lines[i]) == Some(name) then [lines[i]] else [])
  }

  lemma NamedSnoc(lines: seq<cstring>, line: cstring, name: cstring)
    ensures Named(lines + [line], name) == Named(lines, name) + (if NameOf(line) == Some(name) then [line] else [])
  {
    hide NameOf;
    assert (lines + [line])[..|lines|] == lines;
  }

  lemma {:induction false} NamedConcat(a: seq<cstring>, b: seq<cstring>, name: cstring)
    ensures Named(a + b, name) == Named(a, name) + Named(b, name)
    decreases |b|
  {
    hide NameOf;
    if b == [] {
      assert a + b == a;
    } else {
      var n := |b| - 1;
      assert a + b == (a + b[..n]) + [b[n]];
      NamedSnoc(a + b[..n], b[n], name);
      NamedConcat(a, b[..n], name);
    }
  }

  lemma {:induction false} NamedMembers(lines: seq<cstring>, name: cstring)
    ensures forall l :: l in Named(lines, name) <==> l in lines && NameOf(l) == Some(name)
  {
    hide NameOf;
    if lines != [] {
      var i := |lines| - 1;
      NamedMembers(lines[..i], name);
      assert lines == lines[..i] + [lines[i]];
    }
  }

  ghost predicate Ascending(s: seq<nat>) {
    forall a, b :: 0 <= a < b < |s| ==> s[a] < s[b]
  }

  lemma {:induction false} PositionsMembers(lines: seq<cstring>, option: cstring)
    ensures forall i :: i in Positions(lines, option) <==> 0 <= i < |lines| && OptionOf(lines[i]) == Some(option)
  {
    hide OptionOf;
    if lines != [] {
      var i := |lines| - 1;
      PositionsMembers(lines[..i], option);
      assert forall k :: 0 <= k < i ==> lines[..i][k] == lines[k];
    }
  }

  lemma AscendingSnoc(p: seq<nat>, i: nat)
    requires Ascending(p) && forall k :: k in p ==> k < i
    ensures Ascending(p + [i])
  {
    forall k | 0 <= k < |p| ensures p[k] < i {
      assert p[k] in p;
    }
  }

  lemma {:induction false} PositionsSpec(lines: seq<cstring>, option: cstring)
    ensures Ascending(Positions(lines, option))
    ensures forall i :: i in Positions(lines, option) <==> 0 <= i < |lines| && OptionOf(lines[i]) == Some(option)
  {
    hide OptionOf;
    PositionsMembers(lines, option);
    if lines != [] {
      var i := |lines| - 1;
      PositionsSpec(lines[..i], option);
      AscendingSnoc(Positions(lines[..i], option), i);
    }
  }

  lemma {:induction false} OwnedAt(lines: seq<cstring>, option: cstring)
    ensures |Owned(lines, option)| == |Positions(lines, option)|
    ensures forall k :: 0 <= k < |Owned(lines, option)| ==>
              0 <= Positions(lines, option)[k] < |lines| &&
              Owned(lines, option)[k] == lines[Positions(lines, option)[k]]
  {
    hide OptionOf;
    if lines != [] {
      var i := |lines| - 1;
      OwnedAt(lines[..i], option);
      var p, p' := Positions(lines[..i], option), Positions(lines, option);
      assert forall k :: 0 <= k < |p| ==> p'[k] == p[k] && lines[..i][p[k]] == lines[p[k]];
    }
  }

  lemma PositionsAppend(lines: seq<cstring>, line: cstring, option: cstring)
    ensures Positions(lines + [line], option)
         == Positions(lines, option) + (if OptionOf(line) == Some(option) then [|lines|] else [])
    ensures Owned(lines + [line], option)
         == Owned(lines, option) + (if OptionOf(line) == Some(option) then [line] else [])
  {
    hide OptionOf;
    assert (lines + [line])[..|lines|] == lines;
  }

  /** An ascending sequence is determined by its members. */
  lemma {:induction false} AscendingUnique(a: seq<nat>, b: seq<nat>)
    requires Ascending(a) && Ascending(b) && forall i :: i in a <==> i in b
    ensures a == b
    decreases |a|
  {
    if a == [] {
      assert forall i :: 0 <= i < |b| ==> b[i] in b;
    } else {
      assert a[0] in b;
      LastBounds(a, b);
      LastBounds(b, a);
      var x := a[|a| - 1];
      var a', b' := a[..|a| - 1], b[..|b| - 1];
      forall i ensures i in a' <==> i in b' {
        InFront(a, i);
        InFront(b, i);
      }
      AscendingUnique(a', b');
      assert a == a' + [x] && b == b' + [x];
    }
  }

  lemma LastBounds(a: seq<nat>, b: seq<nat>)
    requires Ascending(a) && a != [] && b != [] && forall i :: i in b ==> i in a
    ensures b[|b| - 1] <= a[|a| - 1]
  {
    assert b[|b| - 1] in b;
    var i :| 0 <= i < |a| && a[i] == b[|b| - 1];
  }

  lemma InFront(a: seq<nat>, i: nat)
    requires Ascending(a) && a != []
    ensures i in a[..|a| - 1] <==> i in a && i != a[|a| - 1]
  {
    var front := a[..|a| - 1];
    if i in a && i != a[|a| - 1] {
      var k :| 0 <= k < |a| && a[k] == i;
      assert front[k] == i;
    }
    if i in front {
      var k :| 0 <= k < |front| && front[k] == i;
      assert a[k] == i < a[|a| - 1];
    }
  }

  /** The positions are determined by who owns which line. */
  lemma PositionsUnique(lines: seq<cstring>, option: cstring, p: seq<nat>)
    requires Ascending(p)
    requires forall i :: i in p <==> 0 <= i < |lines| && OptionOf(lines[i]) == Some(option)
    ensures Positions(lines, option) == p
  {
    hide OptionOf, Positions;
    PositionsSpec(lines, option);
    AscendingUnique(Positions(lines, option), p);
  }

  lemma PositionsSame(lines: seq<cstring>, lines': seq<cstring>, option: cstring)
    requires |lines| == |lines'|
    requires forall i :: 0 <= i < |lines| ==> OptionOf(lines[i]) == OptionOf(lines'[i])
    ensures Positions(lines, option) == Positions(lines', option)
  {
    hide OptionOf, Positions;
    PositionsSpec(lines, option);
    PositionsUnique(lines', option, Positions(lines, option));
  }

  /** Replacing a line by another of the same option moves nothing. */
  lemma OwnedUpdate(lines: seq<cstring>, option: cstring, m: nat, line: cstring)
    requires m < |Positions(lines, option)| && OptionOf(line) == Some(option)
    ensures Positions(lines, option)[m] < |lines|
    ensures var lines' := lines[Positions(lines, option)[m] := line];
            && Positions(lines', option) == Positions(lines, option)
            && |Owned(lines, option)| == |Positions(lines, option)|
            && Owned(lines', option) == Owned(lines, option)[m := line]
  {
    hide OptionOf, Positions, Owned;
    PositionsSpec(lines, option);
    var p := Positions(lines, option);
    assert p[m] in p;
    var lines' := lines[p[m] := line];
    PositionsSame(lines, lines', option);
    OwnedAt(lines, option);
    OwnedAt(lines', option);
    forall k | 0 <= k < |p| ensures Owned(lines', option)[k] == Owned(lines, option)[m := line][k] {
      if k != m {
        assert p[k] != p[m];
      }
    }
  }

  /** ... and leaves the lines of other options alone. */
  lemma OwnedUpdateOther(lines: seq<cstring>, option: cstring, m: nat, line: cstring, other: cstring)
    requires m < |Positions(lines, option)| && OptionOf(line) == Some(option) && other != option
    ensures Positions(lines, option)[m] < |lines|
    ensures var lines' := lines[Positions(lines, option)[m] := line];
            && Positions(lines', other) == Positions(lines, other)
            && Owned(lines', other) == Owned(lines, other)
  {
    hide OptionOf, Positions, Owned;
    PositionsSpec(lines, option);
    PositionsSpec(lines, other);
    var p, q := Positions(lines, option), Positions(lines, other);
    assert p[m] in p;
    var lines' := lines[p[m] := line];
    PositionsSame(lines, lines', other);
    OwnedAt(lines, other);
    OwnedAt(lines', other);
    forall k | 0 <= k < |q| ensures Owned(lines', other)[k] == Owned(lines, other)[k] {
      assert q[k] in q;
    }
  }

  // ---------- Content ----------

  /** Lines with every cluster of empty lines reduced to one. */
  function Collapse(lines: seq<cstring>, wasEmpty: bool): seq<cstring> {
    if lines == [] then []
    else if lines[0] == [] && wasEmpty then Collapse(lines[1..], true)
    else [lines[0]] + Collapse(lines[1..], lines[0] == [])
  }

  function Glue(lines: seq<cstring>): cstring {
    if lines == [] then [] else lines[0] + ['\n'] + Glue(lines[1..])
  }

  lemma OptionOfEmpty()
    ensures OptionOf([]) == None && OptionOf(SIGNATURE) == None
  {
  }

  lemma UnparsableIsComment(line: cstring)
    ensures OptionOf(UNPARSABLE + line) == None && UNPARSABLE + line != SIGNATURE
  {
    assert (UNPARSABLE + line)[0] == '#';
    assert (UNPARSABLE + line)[2] == '?' && SIGNATURE[2] == 'G';
  }

  lemma {:induction false} OwnedConcat(a: seq<cstring>, b: seq<cstring>, option: cstring)
    ensures Owned(a + b, option) == Owned(a, option) + Owned(b, option)
    decreases |b|
  {
    hide OptionOf;
    if b == [] {
      assert a + b == a;
    } else {
      var n := |b| - 1;
      assert a + b == (a + b[..n]) + [b[n]];
      PositionsAppend(a + b[..n], b[n], option);
      OwnedConcat(a, b[..n], option);
    }
  }

  lemma OwnedOne(line: cstring, option: cstring)
    ensures Owned([line], option) == if OptionOf(line) == Some(option) then [line] else []
  {
    hide OptionOf;
    assert [line][..0] == [];
  }

  /** Dropping repeated blank lines loses no line of any option. */
  lemma {:induction false} OwnedCollapse(lines: seq<cstring>, wasEmpty: bool, option: cstring)
    ensures Owned(Collapse(lines, wasEmpty), option) == Owned(lines, option)
    decreases |lines|
  {
    hide OptionOf, Owned;
    if lines == [] {
    } else {
      OptionOfEmpty();
      assert lines == [lines[0]] + lines[1..];
      OwnedConcat([lines[0]], lines[1..], option);
      OwnedOne(lines[0], option);
      OwnedCollapse(lines[1..], lines[0] == [], option);
      if !(lines[0] == [] && wasEmpty) {
        OwnedConcat([lines[0]], Collapse(lines[1..], lines[0] == []), option);
      }
    }
  }

  lemma {:induction false} NamedCollapse(lines: seq<cstring>, wasEmpty: bool, name: cstring)
    ensures Named(Collapse(lines, wasEmpty), name) == Named(lines, name)
    decreases |lines|
  {
    hide NameOf, Named;
    if lines == [] {
    } else {
      NamedOne(lines[0], name);
      assert lines == [lines[0]] + lines[1..];
      NamedConcat([lines[0]], lines[1..], name);
      NamedCollapse(lines[1..], lines[0] == [], name);
      if !(lines[0] == [] && wasEmpty) {
        NamedConcat([lines[0]], Collapse(lines[1..], lines[0] == []), name);
      }
    }
  }

  lemma NamedOne(line: cstring, name: cstring)
    ensures Named([line], name) == if NameOf(line) == Some(name) then [line] else []
    ensures NameOf([]) == None
  {
    OptionOfEmpty();
    hide OptionOf;
    assert [line][..0] == [];
  }

  /** Only empty lines are dropped. */
  lemma {:induction false} CollapseMembers(lines: seq<cstring>, wasEmpty: bool)
    ensures forall l :: l in Collapse(lines, wasEmpty) ==> l in lines
    ensures forall l :: l in lines && l != [] ==> l in Collapse(lines, wasEmpty)
    decreases |lines|
  {
    if lines != [] {
      if lines[0] == [] && wasEmpty {
        CollapseMembers(lines[1..], true);
      } else {
        CollapseMembers(lines[1..], lines[0] == []);
      }
    }
  }

  lemma {:induction false} CollapseTwice(lines: seq<cstring>, wasEmpty: bool)
    ensures Collapse(Collapse(lines, wasEmpty), wasEmpty) == Collapse(lines, wasEmpty)
    decreases |lines|
  {
    if lines == [] {
    } else if lines[0] == [] && wasEmpty {
      CollapseTwice(lines[1..], true);
    } else {
      CollapseTwice(lines[1..], lines[0] == []);
      var rest := Collapse(lines[1..], lines[0] == []);
      assert ([lines[0]] + rest)[1..] == rest;
    }
  }

  /** All lines stay but the empty ones right behind an empty line. */
  predicate Stays(lines: seq<cstring>, j: nat) {
    j < |lines| && !(j > 0 && lines[j] == [] && lines[j - 1] == [])
  }

  /** `kept` are the lines with the given indices. */
  ghost predicate Selects(lines: seq<cstring>, kept: seq<cstring>, p: seq<nat>) {
    |kept| == |p| && forall k :: 0 <= k < |p| ==> p[k] < |lines| && kept[k] == lines[p[k]]
  }

  /** `kept` are the lines that stay, in order. */
  ghost predicate ThinnedBy(lines: seq<cstring>, kept: seq<cstring>, p: seq<nat>) {
    Ascending(p) && (forall j: nat :: j in p <==> Stays(lines, j)) && Selects(lines, kept, p)
  }

  ghost predicate Thinned(lines: seq<cstring>, kept: seq<cstring>) {
    exists p: seq<nat> :: ThinnedBy(lines, kept, p)
  }

  /** The indices from `i` on of the lines that stay. */
  function Staying(lines: seq<cstring>, i: nat): (p: seq<nat>)
    requires i <= |lines|
    ensures forall j: nat :: j in p <==> i <= j && Stays(lines, j)
    decreases |lines| - i
  {
    if i == |lines| then [] else (if Stays(lines, i) then [i] else []) + Staying(lines, i + 1)
  }

  lemma AscendingCons(i: nat, p: seq<nat>)
    requires Ascending(p) && forall k :: k in p ==> i < k
    ensures Ascending([i] + p)
  {
    forall k | 0 <= k < |p| ensures i < p[k] {
      assert p[k] in p;
    }
  }

  lemma {:induction false} StayingAscends(lines: seq<cstring>, i: nat)
    requires i <= |lines|
    ensures Ascending(Staying(lines, i))
    decreases |lines| - i
  {
    hide Stays;
    if i < |lines| {
      StayingAscends(lines, i + 1);
      AscendingCons(i, Staying(lines, i + 1));
    }
  }

  lemma {:induction false} CollapseKeeps(lines: seq<cstring>, i: nat)
    requires i <= |lines|
    ensures Selects(lines, Collapse(lines[i..], i > 0 && lines[i - 1] == []), Staying(lines, i))
    decreases |lines| - i
  {
    if i < |lines| {
      CollapseKeeps(lines, i + 1);
      assert lines[i..][1..] == lines[i + 1..];
    }
  }

  lemma CollapseThins(lines: seq<cstring>)
    ensures ThinnedBy(lines, Collapse(lines, false), Staying(lines, 0))
  {
    hide Stays, Collapse;
    StayingAscends(lines, 0);
    CollapseKeeps(lines, 0);
    assert lines[0..] == lines;
  }

  /** There is one way to keep exactly these lines. */
  lemma ThinnedUnique(lines: seq<cstring>, kept: seq<cstring>)
    requires Thinned(lines, kept)
    ensures kept == Collapse(lines, false)
  {
    hide Collapse, Staying, Stays;
    var p: seq<nat> :| ThinnedBy(lines, kept, p);
    CollapseThins(lines);
    assert forall j: nat :: j in p <==> j in Staying(lines, 0);
    AscendingUnique(p, Staying(lines, 0));
  }

  /** Between two lines that are not empty, with nothing but empty lines between them, exactly one empty line
      remains if there was any, and none otherwise. */
  lemma OneEmptyLine(lines: seq<cstring>, kept: seq<cstring>, a: nat, b: nat) returns (k: nat)
    requires Thinned(lines, kept)
    requires a < b < |lines| && lines[a] != [] && lines[b] != [] && forall j :: a < j < b ==> lines[j] == []
    ensures k < |kept| && kept[k] == lines[a]
    ensures if b == a + 1 then k + 1 < |kept| && kept[k + 1] == lines[b]
            else k + 2 < |kept| && kept[k + 1] == [] && kept[k + 2] == lines[b]
  {
    var p: seq<nat> :| ThinnedBy(lines, kept, p);
    assert Stays(lines, a) && Stays(lines, a + 1) && Stays(lines, b);
    assert forall j :: a + 1 < j < b ==> !Stays(lines, j);
    hide Stays;
    k := IndexOf(p, a);
    NextIs(p, k, a + 1);
    if b > a + 1 {
      NextIs(p, k + 1, b);
    }
  }

  lemma IndexOf(p: seq<nat>, i: nat) returns (k: nat)
    requires i in p
    ensures k < |p| && p[k] == i
  {
    k :| 0 <= k < |p| && p[k] == i;
  }

  /** The next member after `p[k]`. */
  lemma NextIs(p: seq<nat>, k: nat, i: nat)
    requires Ascending(p) && k < |p| && p[k] < i && i in p && forall j: nat :: p[k] < j < i ==> j !in p
    ensures k + 1 < |p| && p[k + 1] == i
  {
    var m := IndexOf(p, i);
    assert p[k + 1] in p;
  }

  lemma CollapseStep(lines: seq<cstring>, j: nat, wasEmpty: bool)
    requires j < |lines|
    ensures var rest := Collapse(lines[j + 1..], lines[j] == []);
            Collapse(lines[j..], wasEmpty) == if lines[j] == [] && wasEmpty then rest else [lines[j]] + rest
  {
    assert lines[j..][1..] == lines[j + 1..];
  }

  lemma CollapseEnd(lines: seq<cstring>, wasEmpty: bool)
    requires lines == []
    ensures Collapse(lines, wasEmpty) == []
  {
  }

  lemma GlueStep(line: cstring, rest: seq<cstring>, content: cstring)
    ensures content + Glue([line] + rest) == content + line + ['\n'] + Glue(rest)
    ensures [] + content == content && Glue([]) == []
  {
    assert ([line] + rest)[1..] == rest;
    assert content + (line + ['\n'] + Glue(rest)) == content + line + ['\n'] + Glue(rest);
  }

  /** rewriteConfigGetContentFromState */
  method GetContent(lines: seq<cstring>) returns (content: cstring)
    ensures exists kept :: Thinned(lines, kept) && content == Glue(kept)
    ensures content == Glue(Collapse(lines, false))
  {
    CollapseThins(lines);
    assert Thinned(lines, Collapse(lines, false));
    hide Thinned, Collapse, Glue;
    content := [];
    var wasEmpty := false;
    ghost var whole := Glue(Collapse(lines, false));
    GlueStep([], [], whole);
    assert lines[0..] == lines;
    for j := 0 to |lines|
      invariant whole == content + Glue(Collapse(lines[j..], wasEmpty))
    {
      CollapseStep(lines, j, wasEmpty);
      GlueStep(lines[j], Collapse(lines[j + 1..], lines[j] == []), content);
      if |lines[j]| == 0 {
        if wasEmpty {
          continue;
        }
        wasEmpty := true;
      } else {
        wasEmpty := false;
      }
      content := content + lines[j];
      content := content + ['\n'];
    }
    CollapseEnd(lines[|lines|..], wasEmpty);
    GlueStep([], [], content);
    assert content + [] == content;
  }
}
