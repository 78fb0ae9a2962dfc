/** CONFIG REWRITE: the state read from the old file and the steps that turn it into the new one
    (config.c:1324-1472, 1684-1743). */
module ConfigRewrite {
  import opened CStrings
  import opened Quoting
  import opened SdsStrings
  import opened Wrappers
  import opened ConfigLines

  datatype State = State(
    optionToLine: map<cstring, seq<nat>>,
    rewritten: set<cstring>,
    lines: seq<cstring>,
    hasTail: bool)
  {
    function Remaining(option: cstring): seq<nat> {
      if option in optionToLine then optionToLine[option] else []
    }

    /** Every recorded line number exists, and no list is empty. */
    ghost predicate Wf() {
      forall o :: o in optionToLine ==>
        optionToLine[o] != [] && forall k :: 0 <= k < |optionToLine[o]| ==> optionToLine[o][k] < |lines|
    }
  }

  /** One step of the rewrite as its callers see it. */
  datatype Call = Rewrite(option: cstring, line: cstring, force: bool) | Mark(option: cstring)

  /** A writer produces a line that belongs to the option it names. */
  ghost predicate ValidCall(c: Call) {
    Lower(c.option) == c.option && (c.Rewrite? ==> OptionOf(c.line) == Some(c.option) && Clean(c.line))
  }

  ghost predicate ValidCalls(calls: seq<Call>) {
    forall i :: 0 <= i < |calls| ==> ValidCall(calls[i])
  }

  // ---------- Specification of the steps ----------

  function WithTail(st: State): State {
    if st.hasTail then st else st.(lines := st.lines + [SIGNATURE], hasTail := true)
  }

  function Apply(st: State, c: Call): State
    requires st.Wf()
  {
    var st' := st.(rewritten := st.rewritten + {c.option});
    match c
    case Mark(_) => st'
    case Rewrite(o, line, force) =>
      if o in st.optionToLine then
        var l := st.optionToLine[o];
        st'.(lines := st.lines[l[0] := line],
             optionToLine := if |l| == 1 then st.optionToLine - {o} else st.optionToLine[o := l[1..]])
      else if !force then st'
      else WithTail(st').(lines := WithTail(st').lines + [line])
  }

  lemma ApplyWf(st: State, c: Call)
    requires st.Wf()
    ensures Apply(st, c).Wf()
  {
  }

  ghost predicate OrphanOf(st: State, options: set<cstring>, i: nat) {
    exists o :: o in options && o in st.rewritten && i in st.Remaining(o)
  }

  /** Line `i` is still listed under an option that was processed. */
  ghost predicate Orphan(st: State, i: nat) {
    OrphanOf(st, st.optionToLine.Keys, i)
  }

  /** The lines once those still listed under a processed option are blanked. */
  ghost function WithoutOrphans(st: State): (lines: seq<cstring>)
    ensures |lines| == |st.lines|
  {
    seq(|st.lines|, i requires 0 <= i < |st.lines| => if Orphan(st, i) then [] else st.lines[i])
  }

  ghost function Run(st: State, calls: seq<Call>): (r: State)
    requires st.Wf()
    ensures r.Wf()
  {
    if calls == [] then st
    else
      var prior := Run(st, calls[..|calls| - 1]);
      ApplyWf(prior, calls[|calls| - 1]);
      Apply(prior, calls[|calls| - 1])
  }

  // ---------- Reading the old file ----------

  function LineEnd(s: cstring): (n: nat)
    requires s != []
    ensures 1 <= n <= |s|
  {
    if s[0] == '\n' || |s| == 1 then 1 else 1 + LineEnd(s[1..])
  }

  /** What successive fgets calls return. */
  function Chunks(file: cstring): seq<cstring> {
    if file == [] then [] else [file[..LineEnd(file)]] + Chunks(file[LineEnd(file)..])
  }

  /** How a line of the old file is kept: unparsable lines become comments. */
  function Stored(chunk: cstring): cstring {
    var line := Trim(CStr(chunk), BLANKS);
    if !IsComment(line) && SplitArgs(line) == None then UNPARSABLE + line else line
  }

  function StoredLines(chunks: seq<cstring>): (lines: seq<cstring>)
    ensures |lines| == |chunks|
  {
    seq(|chunks|, i requires 0 <= i < |chunks| => Stored(chunks[i]))
  }

  /** A line of white space that trimming does not remove has no argument to name an option. */
  predicate HasName(chunk: cstring) {
    var line := Trim(CStr(chunk), BLANKS);
    IsComment(line) || SplitArgs(line) != Some([])
  }

  /** The state right after reading: every option lists exactly its own lines. */
  ghost predicate Initial(st: State) {
    && st.rewritten == {}
    && (st.hasTail <==> SIGNATURE in st.lines)
    && (forall i :: 0 <= i < |st.lines| ==> Clean(st.lines[i]))
    && (forall o :: o in st.optionToLine ==> st.optionToLine[o] != [])
    && (forall o :: st.Remaining(o) == Positions(st.lines, o))
  }

  lemma InitialWf(st: State)
    requires Initial(st)
    ensures st.Wf()
  {
    hide OptionOf, Positions, Clean;
    forall o | o in st.optionToLine
      ensures forall k :: 0 <= k < |st.optionToLine[o]| ==> st.optionToLine[o][k] < |st.lines|
    {
      PositionsSpec(st.lines, o);
      assert st.Remaining(o) == Positions(st.lines, o);
      forall k | 0 <= k < |st.optionToLine[o]| ensures st.optionToLine[o][k] < |st.lines| {
        assert st.optionToLine[o][k] in Positions(st.lines, o);
      }
    }
  }

  lemma {:induction false} ChunkNewline(s: cstring)
    requires s != []
    ensures forall i :: 0 <= i < LineEnd(s) - 1 ==> s[i] != '\n'
    decreases |s|
  {
    if !(s[0] == '\n' || |s| == 1) {
      ChunkNewline(s[1..]);
      assert forall i :: 1 <= i < LineEnd(s) - 1 ==> s[i] == s[1..][i - 1];
    }
  }

  /** A chunk has no newline except possibly at its end. */
  ghost predicate IsChunk(s: cstring) {
    forall i :: 0 <= i < |s| - 1 ==> s[i] != '\n'
  }

  lemma {:induction false} ChunksAreChunks(file: cstring)
    ensures forall i :: 0 <= i < |Chunks(file)| ==> IsChunk(Chunks(file)[i])
    decreases |file|
  {
    if file != [] {
      var n := LineEnd(file);
      ChunkNewline(file);
      assert IsChunk(file[..n]);
      ChunksAreChunks(file[n..]);
    }
  }

  lemma TrimIsSlice(s: cstring) returns (off: nat)
    ensures off + |Trim(s, BLANKS)| <= |s| && Trim(s, BLANKS) == s[off..off + |Trim(s, BLANKS)|]
  {
    hide Trim, AllIn;
    TrimSpec(s, BLANKS);
    var r := Trim(s, BLANKS);
    var a, b :| s == a + r + b && AllIn(a, BLANKS) && AllIn(b, BLANKS);
    off := |a|;
  }

  lemma SliceOfChunk(chunk: cstring, off: nat, n: nat)
    requires IsChunk(chunk) && off + n <= |chunk|
    requires n > 0 ==> chunk[off + n - 1] != '\n'
    ensures Avoids(chunk[off..off + n], '\n')
  {
  }

  lemma StoredClean(chunk: cstring)
    requires IsChunk(chunk)
    ensures Clean(Stored(chunk))
  {
    hide SplitArgs, Trim, CStr, IsChunk;
    var c := CStr(chunk);
    var line := Trim(c, BLANKS);
    CStrPrefix(chunk);
    TrimSpec(c, BLANKS);
    var off := TrimIsSlice(c);
    assert line == chunk[off..off + |line|];
    if line != [] {
      TrimmedEnd(line);
    }
    SliceOfChunk(chunk, off, |line|);
    if Stored(chunk) != line {
      UnparsableClean(line);
    }
  }

  lemma TrimmedEnd(line: cstring)
    requires Trimmed(line, BLANKS) && line != []
    ensures line[|line| - 1] != '\n'
  {
    assert BLANKS[3] == '\n';
  }

  lemma UnparsableClean(line: cstring)
    requires Clean(line) && line != []
    ensures Clean(UNPARSABLE + line)
  {
    var u := UNPARSABLE + line;
    assert UNPARSABLE == ['#', ' ', '?', '?', '?', ' '];
    assert u[|u| - 1] == line[|line| - 1];
  }

  lemma InitialComment(st: State, line: cstring)
    requires Initial(st) && Clean(line) && OptionOf(line) == None
    ensures Initial(st.(lines := st.lines + [line], hasTail := st.hasTail || line == SIGNATURE))
  {
    hide OptionOf, Clean, Positions;
    var st' := st.(lines := st.lines + [line], hasTail := st.hasTail || line == SIGNATURE);
    forall o ensures st'.Remaining(o) == Positions(st'.lines, o) {
      PositionsAppend(st.lines, line, o);
      assert st'.Remaining(o) == st.Remaining(o);
    }
  }

  lemma InitialOption(st: State, line: cstring, option: cstring)
    requires Initial(st) && Clean(line) && OptionOf(line) == Some(option)
    ensures Initial(st.(lines := st.lines + [line],
                        optionToLine := st.optionToLine[option := st.Remaining(option) + [|st.lines|]]))
  {
    OptionOfEmpty();
    hide OptionOf, Clean, Positions;
    var st' := st.(lines := st.lines + [line],
                   optionToLine := st.optionToLine[option := st.Remaining(option) + [|st.lines|]]);
    forall o ensures st'.Remaining(o) == Positions(st'.lines, o) {
      PositionsAppend(st.lines, line, o);
      assert st.Remaining(o) == Positions(st.lines, o);
    }
  }

  /** The options that lines of the file name. */
  function Options(lines: seq<cstring>): set<cstring> {
    set i | 0 <= i < |lines| && OptionOf(lines[i]).Some? :: OptionOf(lines[i]).value
  }

  /** The state that reading a file gives. */
  ghost function StateOf(file: cstring): State {
    var lines := StoredLines(Chunks(file));
    State(map o | o in Options(lines) :: Positions(lines, o), {}, lines, SIGNATURE in lines)
  }

  lemma StateOfInitial(file: cstring)
    ensures Initial(StateOf(file)) && StateOf(file).Wf() && StateOf(file).lines == StoredLines(Chunks(file))
  {
    var st := StateOf(file);
    ChunksAreChunks(file);
    forall i | 0 <= i < |st.lines| ensures Clean(st.lines[i]) {
      assert st.lines[i] == Stored(Chunks(file)[i]);
      StoredClean(Chunks(file)[i]);
    }
    OptionsAreInitial(st);
    InitialWf(st);
  }

  lemma OptionsHavePositions(lines: seq<cstring>, o: cstring)
    ensures o in Options(lines) <==> Positions(lines, o) != []
  {
    hide OptionOf, Positions;
    PositionsSpec(lines, o);
    if o in Options(lines) {
      var i :| 0 <= i < |lines| && OptionOf(lines[i]) == Some(o);
      assert i in Positions(lines, o);
    }
    if Positions(lines, o) != [] {
      assert Positions(lines, o)[0] in Positions(lines, o);
    }
  }

  lemma OptionsAreInitial(st: State)
    requires st.optionToLine == map o | o in Options(st.lines) :: Positions(st.lines, o)
    requires st.rewritten == {} && (st.hasTail <==> SIGNATURE in st.lines)
    requires forall i :: 0 <= i < |st.lines| ==> Clean(st.lines[i])
    ensures Initial(st)
  {
    hide OptionOf, Positions, Clean, Options;
    forall o ensures o in Options(st.lines) <==> Positions(st.lines, o) != [] {
      OptionsHavePositions(st.lines, o);
    }
  }

  /** There is one state a file can be read as. */
  lemma InitialIsStateOf(st: State, file: cstring)
    requires Initial(st) && st.lines == StoredLines(Chunks(file))
    ensures st == StateOf(file)
  {
    StateOfInitial(file);
    hide OptionOf, Positions, Clean, Options, Chunks, StoredLines;
    var other := StateOf(file);
    forall o ensures o in st.optionToLine <==> o in other.optionToLine
             ensures o in st.optionToLine ==> st.optionToLine[o] == other.optionToLine[o]
    {
      assert st.Remaining(o) == Positions(st.lines, o) == other.Remaining(o);
    }
    assert st.optionToLine == other.optionToLine;
  }

  class RewriteState {
    var optionToLine: map<cstring, seq<nat>>
    var rewritten: set<cstring>
    var lines: seq<cstring>
    var hasTail: bool

    ghost function Abs(): State
      reads this
    {
      State(optionToLine, rewritten, lines, hasTail)
    }

    /** rewriteConfigReadOldFile on the bytes of the file; a missing file reads like an empty one. */
    constructor ReadOldFile(file: cstring)
      requires forall i :: 0 <= i < |Chunks(file)| ==> HasName(Chunks(file)[i])
      ensures Initial(Abs()) && lines == StoredLines(Chunks(file))
    {
      optionToLine, rewritten, lines, hasTail := map[], {}, [], false;
      new;
      var chunks := Chunks(file);
      ChunksAreChunks(file);
      for linenum := 0 to |chunks|
        invariant lines == StoredLines(chunks[..linenum])
        invariant Initial(Abs())
      {
        assert StoredLines(chunks[..linenum + 1]) == lines + [Stored(chunks[linenum])];
        StoredClean(chunks[linenum]);
        ReadLine(chunks[linenum]);
      }
      assert chunks[..|chunks|] == chunks;
    }

    /** The body of the reading loop. */
    method ReadLine(buf: cstring)
      requires Initial(Abs()) && HasName(buf) && Clean(Stored(buf))
      modifies this
      ensures Initial(Abs()) && lines == old(lines) + [Stored(buf)]
    {
      hide Initial, Clean, SplitArgs, Trim;
      var line := Trim(CStr(buf), BLANKS);
      if IsComment(line) {
        InitialComment(Abs(), line);
        if !hasTail && line == SIGNATURE {
          hasTail := true;
        }
        AppendLine(line);
        return;
      }
      var argv := SdsSplitArgs(line);
      if argv == None {
        UnparsableIsComment(line);
        InitialComment(Abs(), UNPARSABLE + line);
        AppendLine(UNPARSABLE + line);
        return;
      }
      var option := Lower(argv.value[0]);
      InitialOption(Abs(), line, option);
      AppendLine(line);
      AddLineNumberToOption(option, |lines| - 1);
    }

    /** rewriteConfigAppendLine */
    method AppendLine(line: cstring)
      modifies this`lines
      ensures lines == old(lines) + [line]
    {
      lines := lines + [line];
    }

    /** rewriteConfigAddLineNumberToOption */
    method AddLineNumberToOption(option: cstring, linenum: nat)
      modifies this`optionToLine
      ensures optionToLine == old(optionToLine)[option := old(Abs().Remaining(option)) + [linenum]]
    {
      if option !in optionToLine {
        optionToLine := optionToLine[option := []];
      }
      optionToLine := optionToLine[option := optionToLine[option] + [linenum]];
    }

    /** rewriteConfigMarkAsProcessed */
    method MarkAsProcessed(option: cstring)
      requires Lower(option) == option
      modifies this`rewritten
      ensures rewritten == old(rewritten) + {option}
    {
      rewritten := rewritten + {option};
    }

    /** rewriteConfigRewriteLine */
    method RewriteLine(option: cstring, line: cstring, force: bool)
      requires Lower(option) == option && Abs().Wf()
      modifies this
      ensures Abs() == Apply(old(Abs()), Rewrite(option, line, force)) && Abs().Wf()
    {
      ApplyWf(Abs(), Rewrite(option, line, force));
      MarkAsProcessed(option);
      if option !in optionToLine && !force {
        return;
      }
      if option in optionToLine {
        var l := optionToLine[option];
        var linenum := l[0];
        l := l[1..];
        if |l| == 0 {
          optionToLine := optionToLine - {option};
        } else {
          optionToLine := optionToLine[option := l];
        }
        lines := lines[linenum := line];
      } else {
        if !hasTail {
          AppendLine(SIGNATURE);
          hasTail := true;
        }
        AppendLine(line);
      }
    }

    /** The inner loop of rewriteConfigRemoveOrphaned. */
    method BlankLines(option: cstring)
      requires option in optionToLine
      requires forall k :: 0 <= k < |optionToLine[option]| ==> optionToLine[option][k] < |lines|
      modifies this`lines, this`optionToLine
      ensures |lines| == |old(lines)|
      ensures forall i :: 0 <= i < |lines| ==> lines[i] == if i in old(optionToLine)[option] then [] else old(lines)[i]
      ensures optionToLine == old(optionToLine)[option := []]
    {
      var l := optionToLine[option];
      ghost var all, k := l, 0;
      while |l| > 0
        invariant k <= |all| && l == all[k..] && |lines| == |old(lines)| && optionToLine == old(optionToLine)
        invariant forall i :: 0 <= i < |lines| ==> lines[i] == if i in all[..k] then [] else old(lines)[i]
      {
        var linenum := l[0];
        assert all[..k + 1] == all[..k] + [linenum];
        lines := lines[linenum := []];
        l := l[1..];
        k := k + 1;
      }
      assert all[..k] == all;
      optionToLine := optionToLine[option := l];
    }

    /** One dictionary entry of rewriteConfigRemoveOrphaned. */
    method VisitEntry(option: cstring, ghost st: State, ghost done: set<cstring>)
      requires st.Wf() && st.rewritten == rewritten && OrphansBlanked(st, done, Abs())
      requires option in st.optionToLine && option !in done
      modifies this`lines, this`optionToLine
      ensures OrphansBlanked(st, done + {option}, Abs())
    {
      hide OrphanOf;
      forall i: nat {
        OrphanStep(st, done, option, i);
      }
      if option in rewritten {
        BlankLines(option);
      }
    }

    /** rewriteConfigRemoveOrphaned: dictionary entries come in any order. */
    method RemoveOrphaned()
      requires Abs().Wf()
      modifies this`lines, this`optionToLine
      ensures lines == WithoutOrphans(old(Abs()))
      ensures OrphansBlanked(old(Abs()), old(optionToLine).Keys, Abs())
    {
      ghost var st := Abs();
      var todo := optionToLine.Keys;
      hide State.Wf, OrphanOf;
      forall i: nat {
        OrphanNone(st, i);
      }
      assert st.optionToLine.Keys - todo == {};
      while todo != {}
        invariant todo <= st.optionToLine.Keys
        invariant OrphansBlanked(st, st.optionToLine.Keys - todo, Abs())
        decreases |todo|
      {
        var option :| option in todo;
        ghost var done := st.optionToLine.Keys - todo;
        todo := todo - {option};
        assert st.optionToLine.Keys - todo == done + {option};
        VisitEntry(option, st, done);
      }
      assert st.optionToLine.Keys - todo == st.optionToLine.Keys;
    }
  }

  /** The entries in `done` have been visited: processed ones have given up their lines. */
  ghost predicate OrphansBlanked(st: State, done: set<cstring>, now: State) {
    && now.optionToLine.Keys == st.optionToLine.Keys
    && (forall o :: o in now.optionToLine ==>
          now.optionToLine[o] == if o in st.rewritten && o in done then [] else st.optionToLine[o])
    && |now.lines| == |st.lines|
    && forall i :: 0 <= i < |now.lines| ==> now.lines[i] == if OrphanOf(st, done, i) then [] else st.lines[i]
  }

  lemma OrphanNone(st: State, i: nat)
    ensures !OrphanOf(st, {}, i)
  {
  }

  lemma OrphanStep(st: State, done: set<cstring>, option: cstring, i: nat)
    ensures OrphanOf(st, done + {option}, i)
         <==> OrphanOf(st, done, i) || (option in st.rewritten && i in st.Remaining(option))
  {
  }
}
