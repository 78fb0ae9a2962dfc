/** Loading a configuration file, and the round trip: what CONFIG REWRITE writes is read back. */
module ConfigReload {
  import opened CStrings
  import opened Quoting
  import opened SdsStrings
  import opened Wrappers
  import opened ConfigLines
  import opened ConfigOptions

  // ---------- The loader ----------

  type Schema = map<cstring, Kind>
  type Config = map<cstring, Value>

  /** Whether the loader takes a directive that is outside the schema; it then concerns other fields. */
  type Accepts = seq<cstring> -> bool

  /** One directive: names are compared up to their first NUL, and an unknown one is an error. */
  function LoadArgs(accepts: Accepts, schema: Schema, config: Config, argv: seq<cstring>): Option<Config>
    requires argv != []
  {
    var name := CStr(Lower(argv[0]));
    if name !in schema || name !in config then
      if accepts(argv) then Some(config) else None
    else
      match Directive(schema[name], config[name], argv)
      case None => None
      case Some(v) => Some(config[name := v])
  }

  /** One line of loadServerConfigFromString. */
  function LoadLine(accepts: Accepts, schema: Schema, config: Config, raw: cstring): Option<Config> {
    var line := Trim(raw, BLANKS);
    if IsComment(line) then Some(config)
    else
      match SplitArgs(line)
      case None => None
      case Some(argv) =>
        if argv == [] then Some(config) else LoadArgs(accepts, schema, config, argv)
  }

  function LoadLines(accepts: Accepts, schema: Schema, config: Config, lines: seq<cstring>): Option<Config> {
    if lines == [] then Some(config)
    else
      match LoadLines(accepts, schema, config, lines[..|lines| - 1])
      case None => None
      case Some(c) => LoadLine(accepts, schema, c, lines[|lines| - 1])
  }

  function Load(accepts: Accepts, schema: Schema, config: Config, content: cstring): Option<Config> {
    LoadLines(accepts, schema, config, Tokens(CStr(content), ['\n']))
  }

  class Loader {
    const accepts: Accepts
    const schema: Schema
    var config: Config

    constructor (accepts: Accepts, schema: Schema, config: Config)
      ensures this.accepts == accepts && this.schema == schema && this.config == config
    {
      this.accepts := accepts;
      this.schema := schema;
      this.config := config;
    }

    /** The line loop of loadServerConfigFromString; it stops at the first bad line. */
    method LoadFromString(content: cstring) returns (ok: bool)
      modifies this
      ensures Load(accepts, schema, old(config), content) == if ok then Some(config) else None
    {
      var split := SplitLen(CStr(content), ['\n']);
      var lines := split.value;
      for i := 0 to |lines|
        invariant LoadLines(accepts, schema, old(config), lines[..i]) == Some(config)
      {
        assert lines[..i + 1][..i] == lines[..i];
        FailsFrom(accepts, schema, old(config), lines, i + 1);
        var line := Trim(lines[i], BLANKS);
        if At(line, 0) == '#' || At(line, 0) == NUL {
          continue;
        }
        var argv := SdsSplitArgs(line);
        if argv == None {
          return false;
        }
        if |argv.value| == 0 {
          continue;
        }
        var name := CStr(Lower(argv.value[0]));
        if name in schema && name in config {
          var v := Directive(schema[name], config[name], argv.value);
          if v == None {
            return false;
          }
          config := config[name := v.value];
        } else if !accepts(argv.value) {
          return false;
        }
      }
      assert lines[..|lines|] == lines;
      ok := true;
    }
  }

  /** An error is final. */
  lemma {:induction false} FailsFrom(accepts: Accepts, schema: Schema, config: Config, lines: seq<cstring>, i: nat)
    requires i <= |lines|
    ensures LoadLines(accepts, schema, config, lines[..i]) == None ==> LoadLines(accepts, schema, config, lines) == None
    decreases |lines|
  {
    if i < |lines| {
      FailsFrom(accepts, schema, config, lines[..|lines| - 1], i);
      assert lines[..|lines| - 1][..i] == lines[..i];
    } else {
      assert lines[..i] == lines;
    }
  }

  // ---------- Loading is per option ----------

  /** A comment, or a directive that names an option. */
  predicate Parsable(line: cstring) {
    IsComment(line) || OptionOf(line).Some?
  }

  /** The line is no directive outside the schema, or the loader takes it. */
  predicate Accepted(accepts: Accepts, schema: Schema, line: cstring) {
    NameOf(line).Some? && NameOf(line).value !in schema ==> accepts(Arguments(line))
  }

  ghost predicate AllAccepted(accepts: Accepts, schema: Schema, lines: seq<cstring>) {
    forall l :: l in lines ==> Accepted(accepts, schema, l)
  }

  ghost predicate AllFold(schema: Schema, config: Config, lines: seq<cstring>)
    requires forall o :: o in schema <==> o in config
  {
    forall o :: o in schema ==> Fold(schema[o], config[o], Named(lines, o)).Some?
  }

  ghost predicate FoldsTo(schema: Schema, config: Config, lines: seq<cstring>, c: Config)
    requires forall o :: o in schema <==> o in config
  {
    c.Keys == config.Keys && forall o :: o in c ==> Some(c[o]) == Fold(schema[o], config[o], Named(lines, o))
  }

  lemma LineNamed(accepts: Accepts, schema: Schema, config: Config, line: cstring)
    requires Trimmed(line, BLANKS) && Parsable(line)
    ensures NameOf(line) == None ==> LoadLine(accepts, schema, config, line) == Some(config)
    ensures NameOf(line).Some? ==>
      && Arguments(line) != [] && NameOf(line).value == CStr(Lower(Arguments(line)[0]))
      && LoadLine(accepts, schema, config, line) == LoadArgs(accepts, schema, config, Arguments(line))
  {
    hide SplitArgs, Trim;
    TrimOfTrimmed(line, BLANKS);
  }

  lemma AcceptedSnoc(accepts: Accepts, schema: Schema, front: seq<cstring>, line: cstring)
    ensures AllAccepted(accepts, schema, front + [line])
       <==> AllAccepted(accepts, schema, front) && Accepted(accepts, schema, line)
  {
    hide Accepted;
    var all := front + [line];
    assert line in all && forall l :: l in front ==> l in all;
  }

  /** One more line: every option but the one it names keeps its fold. */
  lemma FoldsSnoc(schema: Schema, config: Config, front: seq<cstring>, line: cstring)
    requires forall o :: o in schema <==> o in config
    ensures forall o :: o in schema && NameOf(line) != Some(o) ==>
      Fold(schema[o], config[o], Named(front + [line], o)) == Fold(schema[o], config[o], Named(front, o))
    ensures forall o :: o in schema && NameOf(line) == Some(o) ==>
      Fold(schema[o], config[o], Named(front + [line], o))
      == match Fold(schema[o], config[o], Named(front, o))
         case None => None case Some(v) => Directive(schema[o], v, Arguments(line))
  {
    hide NameOf, Named, Fold, Directive;
    forall o | o in schema
      ensures NameOf(line) != Some(o) ==> Named(front + [line], o) == Named(front, o)
      ensures NameOf(line) == Some(o) ==> Named(front + [line], o) == Named(front, o) + [line]
    {
      NamedSnoc(front, line, o);
    }
    forall o | o in schema && NameOf(line) == Some(o)
      ensures Fold(schema[o], config[o], Named(front, o) + [line])
           == match Fold(schema[o], config[o], Named(front, o))
              case None => None case Some(v) => Directive(schema[o], v, Arguments(line))
    {
      FoldSnoc(schema[o], config[o], Named(front, o), line);
    }
  }

  lemma LoadSnoc(accepts: Accepts, schema: Schema, config: Config, front: seq<cstring>, line: cstring, c: Config)
    requires forall o :: o in schema <==> o in config
    requires Trimmed(line, BLANKS) && Parsable(line) && FoldsTo(schema, config, front, c)
    ensures var r := LoadLine(accepts, schema, c, line);
            && (r.Some? <==> Accepted(accepts, schema, line) && AllFold(schema, config, front + [line]))
            && (r.Some? ==> FoldsTo(schema, config, front + [line], r.value))
  {
    hide LoadLine, Directive, Fold, Named, NameOf;
    LineNamed(accepts, schema, c, line);
    FoldsSnoc(schema, config, front, line);
    var r := LoadLine(accepts, schema, c, line);
    if NameOf(line).Some? && NameOf(line).value in schema {
      var name := NameOf(line).value;
      assert Fold(schema[name], config[name], Named(front + [line], name))
          == Directive(schema[name], c[name], Arguments(line));
    }
  }

  /** Loading succeeds exactly if all foreign directives are taken and each option's own lines can be
      applied in order, wherever they stand; it gives every option what they say. */
  lemma {:induction false} LoadIsFold(accepts: Accepts, schema: Schema, config: Config, lines: seq<cstring>)
    requires forall o :: o in schema <==> o in config
    requires forall i :: 0 <= i < |lines| ==> Trimmed(lines[i], BLANKS) && Parsable(lines[i])
    ensures var r := LoadLines(accepts, schema, config, lines);
            && (r.Some? <==> AllAccepted(accepts, schema, lines) && AllFold(schema, config, lines))
            && (r.Some? ==> FoldsTo(schema, config, lines, r.value))
    decreases |lines|
  {
    hide Fold, Trimmed, Parsable, LoadLine, Accepted;
    if lines == [] {
      NothingNamed(schema, config);
    } else {
      var front, line := lines[..|lines| - 1], lines[|lines| - 1];
      assert lines == front + [line];
      LoadIsFold(accepts, schema, config, front);
      AcceptedSnoc(accepts, schema, front, line);
      FoldsSnoc(schema, config, front, line);
      var r := LoadLines(accepts, schema, config, front);
      if r.Some? {
        LoadSnoc(accepts, schema, config, front, line, r.value);
      } else if AllAccepted(accepts, schema, front) {
        var o :| o in schema && Fold(schema[o], config[o], Named(front, o)) == None;
        assert Fold(schema[o], config[o], Named(lines, o)) == None;
      }
    }
  }

  lemma NothingNamed(schema: Schema, config: Config)
    requires forall o :: o in schema <==> o in config
    ensures AllFold(schema, config, []) && FoldsTo(schema, config, [], config)
  {
  }

  lemma FoldSnoc(k: Kind, v: Value, lines: seq<cstring>, line: cstring)
    ensures Fold(k, v, lines + [line])
         == match Fold(k, v, lines) case None => None case Some(v') => Directive(k, v', Arguments(line))
    ensures lines + [] == lines
  {
    assert (lines + [line])[..|lines|] == lines;
  }

  // ---------- The produced content splits into the lines ----------

  lemma {:induction false} GlueIsJoin(lines: seq<cstring>)
    ensures Glue(lines) == Join(lines + [[]], ['\n'])
  {
    if lines == [] {
    } else {
      GlueIsJoin(lines[1..]);
      assert (lines + [[]])[1..] == lines[1..] + [[]];
    }
  }

  lemma {:induction false} GlueNoNul(lines: seq<cstring>)
    requires forall i :: 0 <= i < |lines| ==> NoNul(lines[i])
    ensures NoNul(Glue(lines))
  {
    if lines != [] {
      GlueNoNul(lines[1..]);
    }
  }

  /** The loader sees the lines of the content, and one empty line after the last newline. */
  lemma ContentTokens(lines: seq<cstring>)
    requires forall i :: 0 <= i < |lines| ==> Clean(lines[i])
    ensures Tokens(CStr(Glue(lines)), ['\n']) == if lines == [] then [] else lines + [[]]
  {
    hide Glue, Join, Tokens, Trimmed;
    GlueNoNul(lines);
    CStrNoNul(Glue(lines));
    GlueIsJoin(lines);
    var all := lines + [[]];
    JoinedTokens(all, '\n');
    if lines == [] {
      assert all == [[]];
      JoinEmpty(all, '\n');
      TokensOfEmpty();
    } else {
      assert all[|all| - 1] == [] && |all| > 1;
    }
  }

  lemma TokensOfEmpty()
    ensures Tokens([], ['\n']) == []
  {
  }

  /** Loading the content of a state, in terms of its lines. */
  lemma LoadContent(accepts: Accepts, schema: Schema, config: Config, lines: seq<cstring>)
    requires forall o :: o in schema <==> o in config
    requires forall i :: 0 <= i < |lines| ==> Clean(lines[i]) && Parsable(lines[i])
    ensures var r := Load(accepts, schema, config, Glue(Collapse(lines, false)));
            && (r.Some? <==> AllAccepted(accepts, schema, lines) && AllFold(schema, config, lines))
            && (r.Some? ==> FoldsTo(schema, config, lines, r.value))
  {
    hide LoadLines, Collapse, Named, Glue, Tokens, CStr, SplitArgs, NoNul, Avoids, Trimmed, Fold, Accepted, Parsable;
    var kept := Collapse(lines, false);
    CollapseMembers(lines, false);
    assert forall i :: 0 <= i < |kept| ==> kept[i] in lines;
    ContentTokens(kept);
    var all := if kept == [] then [] else kept + [[]];
    EmptyLine(accepts, schema);
    forall o ensures Named(all, o) == Named(lines, o) {
      NamedCollapse(lines, false, o);
      NamedWithEmpty(kept, o);
    }
    assert forall l :: l in all ==> l == [] || l in lines;
    assert forall l :: l in lines ==> l == [] || l in all;
    LoadIsFold(accepts, schema, config, all);
  }

  lemma EmptyLine(accepts: Accepts, schema: Schema)
    ensures Trimmed([], BLANKS) && Parsable([]) && Accepted(accepts, schema, [])
  {
  }

  lemma NamedWithEmpty(lines: seq<cstring>, name: cstring)
    ensures Named(lines + [[]], name) == Named(lines, name)
    ensures lines == [] ==> Named(lines, name) == []
  {
    NamedOne([], name);
    NamedSnoc(lines, [], name);
  }
}
