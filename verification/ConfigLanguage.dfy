/** What CONFIG REWRITE and the loader make of the bytes of a file, and what the writers write, told in characters
    and without the functions that compute it (config.c:101-122, 137-186, 230-240, 1333-1418, 1504-1589). */
module ConfigLanguage {
  import opened CStrings
  import opened Seqs
  import opened Quoting
  import opened QuotingGrammar
  import opened SdsStrings
  import opened Wrappers
  import opened ConfigLines
  import opened ConfigRewrite
  import opened ConfigOptions
  import Decimal

  // ---------- The lines of a file ----------

  /** Every line but perhaps the last ends with a newline, and has no other. */
  ghost predicate AreLines(chunks: seq<cstring>, file: cstring) {
    && Flatten(chunks) == file
    && forall i :: 0 <= i < |chunks| ==>
         && chunks[i] != [] && (forall k :: 0 <= k < |chunks[i]| - 1 ==> chunks[i][k] != '\n')
         && (i < |chunks| - 1 ==> chunks[i][|chunks[i]| - 1] == '\n')
  }

  lemma {:induction false} LineEndIs(s: cstring, n: nat)
    requires 1 <= n <= |s| && (forall i :: 0 <= i < n - 1 ==> s[i] != '\n') && (n == |s| || s[n - 1] == '\n')
    ensures LineEnd(s) == n
    decreases n
  {
    if n > 1 {
      LineEndIs(s[1..], n - 1);
    }
  }

  lemma {:induction false} LineEndStops(s: cstring)
    requires s != []
    ensures LineEnd(s) == |s| || s[LineEnd(s) - 1] == '\n'
  {
    if !(s[0] == '\n' || |s| == 1) {
      LineEndStops(s[1..]);
    }
  }

  lemma LinesCons(first: cstring, rest: seq<cstring>, file: cstring)
    requires AreLines(rest, file)
    requires first != [] && (forall k :: 0 <= k < |first| - 1 ==> first[k] != '\n')
    requires rest != [] ==> first[|first| - 1] == '\n'
    ensures AreLines([first] + rest, first + file)
  {
    var all := [first] + rest;
    assert all[1..] == rest;
    forall i | 0 <= i < |all|
      ensures all[i] != [] && (forall k :: 0 <= k < |all[i]| - 1 ==> all[i][k] != '\n')
              && (i < |all| - 1 ==> all[i][|all[i]| - 1] == '\n')
    {
      if i > 0 {
        assert all[i] == rest[i - 1];
      }
    }
  }

  lemma {:induction false} ChunksAreLines(file: cstring)
    ensures AreLines(Chunks(file), file) && (Chunks(file) == [] ==> file == [])
    decreases |file|
  {
    hide LineEnd;
    if file != [] {
      var n := LineEnd(file);
      ChunkNewline(file);
      LineEndStops(file);
      ChunksAreLines(file[n..]);
      LinesCons(file[..n], Chunks(file[n..]), file[n..]);
      assert file[..n] + file[n..] == file;
    }
  }

  /** fgets cuts a file into its lines, in the only way there is. */
  lemma {:induction false} ChunksExactly(file: cstring, chunks: seq<cstring>)
    ensures Chunks(file) == chunks <==> AreLines(chunks, file)
    decreases |chunks|
  {
    ChunksAreLines(file);
    if AreLines(chunks, file) && chunks != [] {
      var n := |chunks[0]|;
      var rest := Flatten(chunks[1..]);
      assert file == chunks[0] + rest && file[..n] == chunks[0] && file[n..] == rest;
      assert AreLines(chunks[1..], rest);
      if |chunks| == 1 {
        assert chunks[1..] == [];
      }
      LineEndIs(file, n);
      ChunksExactly(rest, chunks[1..]);
      assert chunks == [chunks[0]] + chunks[1..];
    }
  }

  // ---------- How a line is kept ----------

  ghost predicate Blanks(s: cstring) {
    forall i :: 0 <= i < |s| ==> s[i] == ' ' || s[i] == '\t' || s[i] == '\r' || s[i] == '\n'
  }

  predicate BlankEnds(r: cstring) {
    var ends := {32, 9, 13, 10};
    r != [] && (r[0] as int in ends || r[|r| - 1] as int in ends)
  }

  /** What is left of a line, up to its first NUL, without the blanks at its ends. */
  ghost predicate Core(chunk: cstring, r: cstring) {
    exists a: cstring, b: cstring :: CStr(chunk) == a + r + b && Blanks(a) && Blanks(b) && !BlankEnds(r)
  }

  ghost predicate Writable(line: cstring) {
    exists w: Line :: Writes(line, 0, w)
  }

  /** A comment, an empty line or a line of arguments is kept; any other becomes a comment. */
  ghost predicate Keeps(r: cstring, kept: cstring) {
    kept == if r == [] || r[0] == '#' || Writable(r) then r else "# ??? " + r
  }

  lemma BlanksInSet(s: cstring)
    requires NoNul(s)
    ensures AllIn(s, BLANKS) <==> Blanks(s)
  {
    assert BLANKS == [' ', '\t', '\r', '\n'];
  }

  lemma EndsTrimmed(r: cstring)
    requires NoNul(r)
    ensures Trimmed(r, BLANKS) <==> !BlankEnds(r)
  {
    assert BLANKS == [' ', '\t', '\r', '\n'];
  }

  lemma CoreIsTrim(chunk: cstring, r: cstring)
    ensures Core(chunk, r) <==> Trim(CStr(chunk), BLANKS) == r
  {
    hide Trim, CStr, Blanks, BlankEnds;
    var c := CStr(chunk);
    TrimSpec(c, BLANKS);
    if Trim(c, BLANKS) == r {
      var a: cstring, b: cstring :| c == a + r + b && AllIn(a, BLANKS) && AllIn(b, BLANKS);
      PartsNoNul(a, r, b);
      BlanksInSet(a);
      BlanksInSet(b);
      EndsTrimmed(r);
    }
    if Core(chunk, r) {
      var a: cstring, b: cstring :| c == a + r + b && Blanks(a) && Blanks(b) && !BlankEnds(r);
      PartsNoNul(a, r, b);
      BlanksInSet(a);
      BlanksInSet(b);
      EndsTrimmed(r);
      TrimUnique(c, r, BLANKS);
    }
  }

  lemma PartsNoNul(a: cstring, r: cstring, b: cstring)
    requires NoNul(a + r + b)
    ensures NoNul(a) && NoNul(r) && NoNul(b)
  {
    var s := a + r + b;
    assert forall i :: 0 <= i < |a| ==> s[i] == a[i];
    assert forall i :: 0 <= i < |r| ==> s[|a| + i] == r[i];
    assert forall i :: 0 <= i < |b| ==> s[|a| + |r| + i] == b[i];
  }

  lemma WritableWhen(line: cstring)
    ensures Writable(line) <==> SplitArgs(line) != None
  {
    hide SplitArgs, Writes;
    SplitArgsExactly(line, []);
  }

  lemma KeptWhen(r: cstring, kept: cstring)
    requires NoNul(r)
    ensures Keeps(r, kept)
       <==> kept == if !IsComment(r) && SplitArgs(r) == None then UNPARSABLE + r else r
  {
    hide SplitArgs, Writable;
    WritableWhen(r);
    assert UNPARSABLE == "# ??? ";
  }

  /** How each line of the old file is kept. */
  lemma StoredExactly(chunk: cstring, kept: cstring)
    ensures Stored(chunk) == kept <==> exists r :: Core(chunk, r) && Keeps(r, kept)
  {
    hide Trim, CStr, SplitArgs, Core, Keeps;
    var line := Trim(CStr(chunk), BLANKS);
    CoreIsTrim(chunk, line);
    TrimNoNul(chunk);
    KeptWhen(line, kept);
    forall r | Core(chunk, r) ensures r == line {
      CoreIsTrim(chunk, r);
    }
  }

  lemma TrimNoNul(chunk: cstring)
    ensures NoNul(Trim(CStr(chunk), BLANKS))
  {
    hide Trim, CStr;
    var c := CStr(chunk);
    TrimSpec(c, BLANKS);
    var a: cstring, b: cstring :| c == a + Trim(c, BLANKS) + b && AllIn(a, BLANKS) && AllIn(b, BLANKS);
    PartsNoNul(a, Trim(c, BLANKS), b);
  }

  // ---------- The option of a line ----------

  /** `o` is `s` with its capital letters made small. */
  ghost predicate LowerCase(s: cstring, o: cstring) {
    && |o| == |s|
    && forall i :: 0 <= i < |s| ==>
         o[i] as int == if 65 <= s[i] as int <= 90 then s[i] as int + 32 else s[i] as int
  }

  lemma LowerIs(s: cstring, o: cstring)
    ensures Lower(s) == o <==> LowerCase(s, o)
  {
    if LowerCase(s, o) {
      forall i | 0 <= i < |s| ensures Lower(s)[i] == o[i] {
        assert Lower(s)[i] as int == o[i] as int;
      }
    }
  }

  /** A line is a directive of the option that its first argument names, in whatever case. */
  lemma OptionExactly(line: cstring, option: cstring)
    ensures OptionOf(line) == Some(option)
       <==> line != [] && line[0] != '#' && line[0] != '\0'
            && exists w: Line :: Writes(line, 0, w) && w.segments != []
                                 && LowerCase(FormValue(w.segments[0].form), option)
  {
    hide SplitArgs, Writes, LowerCase, FormValue, Lower;
    if SplitArgs(line).Some? {
      var args := SplitArgs(line).value;
      SplitArgsExactly(line, args);
      if args != [] {
        LowerIs(args[0], option);
      }
      forall w: Line | Writes(line, 0, w) ensures SegmentsValues(w.segments) == args {
        SplitArgsExactly(line, SegmentsValues(w.segments));
      }
    } else {
      SplitArgsExactly(line, []);
    }
  }

  // ---------- What a directive says ----------

  /** `t` is `s` up to its first NUL. */
  ghost predicate UpToNul(s: cstring, t: cstring) {
    t <= s && NoNul(t) && At(s, |t|) == '\0'
  }

  lemma {:induction false} UpToNulIs(s: cstring, t: cstring)
    ensures CStr(s) == t <==> UpToNul(s, t)
  {
    if s != [] && s[0] != NUL {
      UpToNulIs(s[1..], CStr(s[1..]));
      assert UpToNul(s, CStr(s));
      if UpToNul(s, t) {
        assert t != [];
        UpToNulIs(s[1..], t[1..]);
        assert t == [t[0]] + t[1..];
      }
    }
  }

  ghost predicate SameLetters(a: cstring, b: cstring) {
    exists l: cstring :: LowerCase(a, l) && LowerCase(b, l)
  }

  lemma SameLettersIs(a: cstring, b: cstring)
    ensures Lower(a) == Lower(b) <==> SameLetters(a, b)
  {
    hide Lower, LowerCase;
    LowerIs(a, Lower(a));
    LowerIs(b, Lower(a));
    forall l: cstring | LowerCase(a, l) && LowerCase(b, l) ensures Lower(a) == Lower(b) {
      LowerIs(a, l);
      LowerIs(b, l);
    }
  }

  /** Entry `i` is the first one of the table whose name has these letters. */
  ghost predicate FirstNamed(table: seq<(cstring, int)>, name: cstring, i: nat) {
    i < |table| && SameLetters(table[i].0, name) && forall j :: 0 <= j < i ==> !SameLetters(table[j].0, name)
  }

  lemma {:induction false} EnumValueIs(table: seq<(cstring, int)>, name: cstring, e: int)
    ensures EnumValue(table, name) == Some(e) <==> exists i: nat :: FirstNamed(table, name, i) && table[i].1 == e
  {
    hide SameLetters, Lower;
    if table != [] {
      EnumValueIs(table[1..], name, e);
      SameLettersIs(table[0].0, name);
      if exists i: nat :: FirstNamed(table[1..], name, i) && table[1..][i].1 == e {
        var i: nat :| FirstNamed(table[1..], name, i) && table[1..][i].1 == e;
        if !SameLetters(table[0].0, name) {
          assert FirstNamed(table, name, i + 1);
        }
      }
      if SameLetters(table[0].0, name) {
        assert FirstNamed(table, name, 0);
      }
      if exists i: nat :: FirstNamed(table, name, i) && table[i].1 == e {
        var i: nat :| FirstNamed(table, name, i) && table[i].1 == e;
        if i > 0 {
          assert FirstNamed(table[1..], name, i - 1);
        }
      }
    }
  }

  /** What a directive says for each kind of option: the word after the name, the word yes or no in any case, a
      number within its bounds, a listed name in any case.  Any other number of words is an error. */
  lemma DirectiveExactly(k: Kind, v: Value, argv: seq<cstring>, r: Value)
    ensures !k.SaveKind? && |argv| != 2 ==> Directive(k, v, argv) == None
    ensures k.StringKind? && |argv| == 2 ==>
      (Directive(k, v, argv) == Some(r) <==> r.Str? && r.text.Some? && UpToNul(argv[1], r.text.value))
    ensures k.YesNoKind? && |argv| == 2 ==>
      (Directive(k, v, argv) == Some(r)
       <==> r.Flag? && exists w :: UpToNul(argv[1], w) && LowerCase(w, if r.on then "yes" else "no"))
    ensures k.NumericKind? && |argv| == 2 ==>
      (Directive(k, v, argv) == Some(r)
       <==> r.Num? && k.lo <= r.number <= k.hi && r.number == Decimal.Atoi(argv[1]))
    ensures k.EnumKind? && |argv| == 2 ==>
      (Directive(k, v, argv) == Some(r)
       <==> r.Choice? && exists w, i: nat ::
              UpToNul(argv[1], w) && FirstNamed(k.table, w, i) && k.table[i].1 == r.choice)
  {
    if |argv| == 2 {
      hide UpToNul, LowerCase, FirstNamed, EnumValue, Lower, CStr, Decimal.Atoi;
      var word := argv[1];
      var t := CStr(word);
      UpToNulIs(word, t);
      forall w | UpToNul(word, w) ensures w == t {
        UpToNulIs(word, w);
      }
      LowerIs(t, "yes");
      LowerIs(t, "no");
      assert YES == "yes" && NO == "no" && "yes" != "no";
      if r.Choice? && k.EnumKind? {
        EnumValueIs(k.table, t, r.choice);
      }
    }
  }

  /** A save directive adds a point of at least one second and no fewer than zero changes; with an empty word it
      removes all points; with neither one word nor two it says nothing. */
  lemma SaveExactly(points: seq<(int, int)>, argv: seq<cstring>)
    ensures var r := Directive(SaveKind, Save(points), argv);
            && (|argv| == 3 ==>
                  var seconds, changes := Decimal.Atoi(argv[1]), Decimal.Atoi(argv[2]);
                  r == if seconds >= 1 && changes >= 0 then Some(Save(points + [(seconds, changes)])) else None)
            && (|argv| == 2 && UpToNul(argv[1], []) ==> r == Some(Save([])))
            && (|argv| != 3 && !(|argv| == 2 && UpToNul(argv[1], [])) ==> r == Some(Save(points)))
  {
    hide UpToNul, CStr, Decimal.Atoi;
    if |argv| == 2 {
      UpToNulIs(argv[1], []);
    }
  }

  // ---------- What the writers write ----------

  lemma {:induction false} EnumNameIs(table: seq<(cstring, int)>, e: int, i: nat)
    requires i < |table| && table[i].1 == e && forall j :: 0 <= j < i ==> table[j].1 != e
    ensures EnumName(table, e) == table[i].0
  {
    if i > 0 {
      EnumNameIs(table[1..], e, i - 1);
    }
  }

  lemma {:induction false} NoEnumName(table: seq<(cstring, int)>, e: int)
    requires !InTable(table, e)
    ensures EnumName(table, e) == "unknown"
  {
    if table != [] {
      assert table[0].1 != e;
      assert forall i :: 0 <= i < |table| - 1 ==> table[1..][i] == table[i + 1];
      NoEnumName(table[1..], e);
    }
  }

  lemma {:induction false} SaveCallsAt(name: cstring, points: seq<(int, int)>)
    ensures |SaveCalls(name, points)| == |points|
    ensures forall i :: 0 <= i < |points| ==>
      SaveCalls(name, points)[i]
      == Rewrite(name, name + " " + (Decimal.Text(points[i].0) + " " + Decimal.Text(points[i].1)), true)
  {
    hide Decimal.Text;
    if points != [] {
      var n := |points| - 1;
      SaveCallsAt(name, points[..n]);
      assert [' '] == " ";
    }
  }

  /** The line of an option is its name, one blank and the value: quoted for a string, yes or no, a number, the first
      name that an enumeration has for it; each save point has a line of its own with two numbers.  Save points
      are always written, other options at the end of the file only if they differ from their defaults. */
  lemma CallsExactly(o: Opt)
    ensures o.kind.StringKind? && o.value == Str(None) ==> Calls(o) == [Mark(o.name)]
    ensures o.kind.StringKind? && o.value.Str? && o.value.text.Some? ==>
      Calls(o) == [Rewrite(o.name, o.name + " " + Repr(o.value.text.value), o.kind.default != o.value.text)]
    ensures o.kind.YesNoKind? && o.value.Flag? ==>
      Calls(o) == [Rewrite(o.name, o.name + (if o.value.on then " yes" else " no"), o.value.on != o.kind.on)]
    ensures o.kind.NumericKind? && o.value.Num? ==>
      Calls(o) == [Rewrite(o.name, o.name + " " + Decimal.Text(o.value.number), o.value.number != o.kind.number)]
    ensures o.kind.EnumKind? && o.value.Choice? ==> forall i: nat ::
      i < |o.kind.table| && o.kind.table[i].1 == o.value.choice
      && (forall j :: 0 <= j < i ==> o.kind.table[j].1 != o.value.choice) ==>
        Calls(o) == [Rewrite(o.name, o.name + " " + o.kind.table[i].0, o.value.choice != o.kind.choice)]
    ensures o.kind.SaveKind? && o.value.Save? ==>
      |Calls(o)| == |o.value.points| + 1 && Calls(o)[|o.value.points|] == Mark(o.name)
    ensures o.kind.SaveKind? && o.value.Save? ==> forall i :: 0 <= i < |o.value.points| ==>
      var p := o.value.points[i];
      Calls(o)[i] == Rewrite(o.name, o.name + " " + (Decimal.Text(p.0) + " " + Decimal.Text(p.1)), true)
  {
    hide Decimal.Text, Repr;
    assert [' '] == " " && YES == "yes" && NO == "no";
    if o.kind.SaveKind? && o.value.Save? {
      SaveCallsAt(o.name, o.value.points);
    } else if o.kind.EnumKind? && o.value.Choice? {
      forall i: nat | i < |o.kind.table| && o.kind.table[i].1 == o.value.choice
                      && (forall j :: 0 <= j < i ==> o.kind.table[j].1 != o.value.choice)
        ensures EnumName(o.kind.table, o.value.choice) == o.kind.table[i].0
      {
        EnumNameIs(o.kind.table, o.value.choice, i);
      }
    } else if o.kind.YesNoKind? && o.value.Flag? {
      assert o.name + [' '] + YES == o.name + " yes" && o.name + [' '] + NO == o.name + " no";
    }
  }
}
