/** Replacing the configuration file on disk (config.c:1757-1800): the file is usable between any two
    of the system calls. */
module ConfigOverwrite {
  import opened CStrings
  import opened Quoting
  import opened SdsStrings
  import opened Wrappers
  import opened ConfigLines
  import opened ConfigRewrite
  import opened ConfigOptions
  import opened ConfigReload
  import opened ConfigRoundTrip
  import opened ConfigWriters

  // ---------- The directives of a file ----------

  /** What the loader makes of a line: nothing, an argument vector, or an error. */
  datatype Effect = Args(argv: seq<cstring>) | Bad

  function EffectOf(raw: cstring): seq<Effect> {
    var line := Trim(raw, BLANKS);
    if IsComment(line) then []
    else
      match SplitArgs(line)
      case None => [Bad]
      case Some(argv) => if argv == [] then [] else [Args(argv)]
  }

  function Effects(lines: seq<cstring>): seq<Effect> {
    if lines == [] then [] else Effects(lines[..|lines| - 1]) + EffectOf(lines[|lines| - 1])
  }

  /** The effective directives of a file, in order, as loadServerConfigFromString sees them. */
  function Directives(content: cstring): seq<Effect> {
    Effects(Tokens(CStr(content), ['\n']))
  }

  lemma EffectsSnoc(lines: seq<cstring>, line: cstring)
    ensures Effects(lines + [line]) == Effects(lines) + EffectOf(line)
  {
    assert (lines + [line])[..|lines|] == lines;
  }

  /** Files with the same directives load the same way. */
  lemma {:induction false} EffectsDecide(accepts: Accepts, schema: Schema, config: Config, lines: seq<cstring>)
    ensures LoadLines(accepts, schema, config, lines) == LoadEffects(accepts, schema, config, Effects(lines))
  {
    hide SplitArgs, Trim, LoadArgs;
    if lines != [] {
      var front, line := lines[..|lines| - 1], lines[|lines| - 1];
      EffectsDecide(accepts, schema, config, front);
      LoadEffectsStep(Effects(front), EffectOf(line));
    }
  }

  function LoadEffects(accepts: Accepts, schema: Schema, config: Config, effects: seq<Effect>): Option<Config> {
    if effects == [] then Some(config)
    else
      match LoadEffects(accepts, schema, config, effects[..|effects| - 1])
      case None => None
      case Some(c) =>
        match effects[|effects| - 1]
        case Bad => None
        case Args(argv) =>
          if argv == [] then Some(c) else LoadArgs(accepts, schema, c, argv)
  }

  lemma LoadEffectsStep(effects: seq<Effect>, more: seq<Effect>)
    requires |more| <= 1
    ensures more == [] ==> effects + more == effects
    ensures more != [] ==> (effects + more)[..|effects|] == effects && (effects + more)[|effects|] == more[0]
                           && |effects + more| == |effects| + 1
  {
  }

  lemma SameDirectivesLoadSame(accepts: Accepts, schema: Schema, config: Config, a: cstring, b: cstring)
    requires Directives(a) == Directives(b)
    ensures Load(accepts, schema, config, a) == Load(accepts, schema, config, b)
  {
    EffectsDecide(accepts, schema, config, Tokens(CStr(a), ['\n']));
    EffectsDecide(accepts, schema, config, Tokens(CStr(b), ['\n']));
  }

  // ---------- Padding ----------

  function Hashes(n: nat): (s: cstring)
    ensures |s| == n
  {
    seq(n, _ => '#')
  }

  /** The content followed by a newline and `n` number signs. */
  function Padded(content: cstring, n: nat): cstring {
    content + ['\n'] + Hashes(n)
  }

  lemma HashesNoEffect(n: nat)
    ensures EffectOf(Hashes(n)) == []
    ensures Avoids(Hashes(n), '\n') && NoNul(Hashes(n))
  {
    assert BLANKS == [' ', '\t', '\r', '\n'];
    if n > 0 {
      assert Trimmed(Hashes(n), BLANKS);
    }
    TrimOfTrimmed(Hashes(n), BLANKS);
  }

  lemma {:induction false} JoinSnoc(tokens: seq<cstring>, t: cstring, sep: cstring)
    requires tokens != []
    ensures Join(tokens + [t], sep) == Join(tokens, sep) + sep + t
  {
    if |tokens| == 1 {
      assert (tokens + [t])[1..] == [t];
    } else {
      JoinSnoc(tokens[1..], t, sep);
      assert (tokens + [t])[1..] == tokens[1..] + [t];
    }
  }

  lemma NoMatchAvoids(t: cstring, c: cchar)
    requires NoMatch(t, [c])
    ensures Avoids(t, c)
  {
    forall i | 0 <= i < |t| ensures t[i] != c {
      assert t[i..i + 1] == [t[i]];
      assert !Match(t, i, [c]);
    }
  }

  /** Padding adds no directive and changes none. */
  lemma PaddingIsHarmless(content: cstring, n: nat)
    requires NoNul(content)
    ensures Directives(Padded(content, n)) == Directives(content)
  {
    hide Join, Tokens, EffectOf, Effects, Hashes, CStr;
    HashesNoEffect(n);
    var padded, sep := Padded(content, n), ['\n'];
    CStrNoNul(content);
    assert NoNul(padded);
    CStrNoNul(padded);
    TokensJoined(content, sep);
    // an empty text has no token, but an empty line once something follows
    var tokens := if content == [] then [[]] else Tokens(content, sep);
    EmptyTexts();
    assert Join(tokens, sep) == content;
    assert tokens != [];
    var all := tokens + [Hashes(n)];
    JoinSnoc(tokens, Hashes(n), sep);
    assert Join(all, sep) == padded;
    forall i | 0 <= i < |all| ensures Avoids(all[i], '\n') {
      if i < |tokens| && content != [] {
        assert all[i] in Tokens(content, sep);
        NoMatchAvoids(all[i], '\n');
      }
    }
    JoinedTokens(all, '\n');
    assert |all| >= 2;
    EffectsSnoc(tokens, Hashes(n));
    assert Effects(tokens) == Effects(Tokens(content, sep));
  }

  lemma EmptyTexts()
    ensures Join([], ['\n']) == [] && Join([[]], ['\n']) == [] && Tokens([], ['\n']) == []
    ensures Effects([[]]) == [] == Effects([])
  {
    var one: seq<cstring> := [[]];
    assert one[..0] == [];
    assert EffectOf([]) == [];
  }

  // ---------- The file ----------

  /** A file as system calls see it; `history` records its content after each of them. */
  class File {
    var content: cstring
    ghost var history: seq<cstring>

    constructor (content: cstring)
      ensures this.content == content && history == [content]
    {
      this.content := content;
      history := [content];
    }

    /** write(2) at offset 0, taken as atomic: all of `data` or, on failure, none of it. */
    method Write(data: cstring, fails: bool) returns (ok: bool)
      modifies this
      ensures ok == !fails
      ensures content == if fails then old(content)
                         else if |data| >= |old(content)| then data else data + old(content)[|data|..]
      ensures history == old(history) + [content]
    {
      if !fails {
        content := if |data| >= |content| then data else data + content[|data|..];
      }
      history := history + [content];
      ok := !fails;
    }

    /** ftruncate(2) */
    method Truncate(size: nat, fails: bool)
      modifies this
      ensures content == if fails || size > |old(content)| then old(content) else old(content)[..size]
      ensures history == old(history) + [content]
    {
      if !fails && size <= |content| {
        content := content[..size];
      }
      history := history + [content];
    }
  }

  /** rewriteConfigOverwriteFile.  Whatever fails, and wherever the process stops, the file has the
      directives it had or those of the new content; it has the latter exactly if the write worked. */
  method OverwriteFile(file: File, content: cstring,
                       openFails: bool, statFails: bool, writeFails: bool, truncateFails: bool)
    returns (retval: int)
    requires NoNul(content)
    modifies file
    ensures old(file.history) <= file.history
    ensures forall k :: |old(file.history)| <= k < |file.history| ==>
              || Directives(file.history[k]) == Directives(old(file.content))
              || Directives(file.history[k]) == Directives(content)
    ensures retval == if openFails || statFails || writeFails then -1 else 0
    ensures retval == 0 ==> Directives(file.content) == Directives(content)
    ensures retval == 0 && (!truncateFails || |content| >= |old(file.content)|) ==> file.content == content
    ensures retval == -1 ==> file.content == old(file.content)
  {
    hide Directives;
    if openFails {
      return -1;
    }
    if statFails {
      return -1;
    }
    var size, padding := |file.content|, 0;
    var s := new Sds(content);
    if |content| < size {
      padding := size - |content|;
      s.GrowZero(size);
      PadIn(s, |content|, padding);
      PaddingIsHarmless(content, padding - 1);
    }
    var data := CStr(s.Contents());
    PaddedNoNul(content, padding);
    CStrNoNul(s.Contents());
    var ok := file.Write(data, writeFails);
    if !ok {
      return -1;
    }
    assert file.content == data && data[..|content|] == content;
    assert Directives(file.content) == Directives(content);
    if padding > 0 {
      file.Truncate(|content|, truncateFails);
    }
    retval := 0;
  }

  lemma PaddedNoNul(content: cstring, padding: nat)
    requires NoNul(content)
    ensures padding > 0 ==> NoNul(Padded(content, padding - 1))
  {
  }

  /** The newline and the memset that overwrite the zero bytes. */
  method PadIn(s: Sds, at: nat, padding: nat)
    requires s.Valid() && padding > 0 && s.len == at + padding
    modifies s.buf
    ensures s.Valid() && s.Contents() == Padded(old(s.Contents())[..at], padding - 1)
  {
    s.buf[at] := '\n';
    forall i | at + 1 <= i < at + padding {
      s.buf[i] := '#';
    }
  }

  /** rewriteConfig from the file to the file.  At every moment a restarted server loads the file as it
      would have loaded the old one, or as it would load the new content; the old file tells whether the
      latter gives the running configuration. */
  method RewriteOnDisk(file: File, opts: seq<Opt>, ghost accepts: Accepts,
                       openFails: bool, statFails: bool, writeFails: bool, truncateFails: bool)
    returns (retval: int)
    requires forall i :: 0 <= i < |Chunks(file.content)| ==> HasName(Chunks(file.content)[i])
    requires ValidOpts(opts)
    modifies file
    ensures old(file.history) <= file.history
    ensures forall k :: |old(file.history)| <= k < |file.history| ==>
              || LoadsLike(accepts, opts, file.history[k], old(file.content))
              || LoadsLike(accepts, opts, file.history[k], Rewritten(old(file.content), opts))
    ensures retval == 0 ==> LoadsLike(accepts, opts, file.content, Rewritten(old(file.content), opts))
    ensures Reloads(accepts, opts, StoredLines(Chunks(old(file.content))), Rewritten(old(file.content), opts))
  {
    hide Directives, LoadsLike, Reloads, SchemaOf, ValidOpts, Rewritten, StoredLines, Chunks;
    var before := file.content;
    var newcontent := RewriteConfig(before, opts, accepts);
    retval := OverwriteFile(file, newcontent, openFails, statFails, writeFails, truncateFails);
    forall k | 0 <= k < |file.history|
      ensures Directives(file.history[k]) == Directives(before) ==> LoadsLike(accepts, opts, file.history[k], before)
      ensures Directives(file.history[k]) == Directives(newcontent) ==>
        LoadsLike(accepts, opts, file.history[k], newcontent)
    {
      SameLoadsLike(accepts, opts, file.history[k], before);
      SameLoadsLike(accepts, opts, file.history[k], newcontent);
    }
    SameLoadsLike(accepts, opts, file.content, newcontent);
  }

  /** A restarted server cannot tell the two files apart. */
  ghost predicate LoadsLike(accepts: Accepts, opts: seq<Opt>, a: cstring, b: cstring) {
    Load(accepts, SchemaOf(opts), DefaultsOf(opts), a) == Load(accepts, SchemaOf(opts), DefaultsOf(opts), b)
  }

  lemma SameLoadsLike(accepts: Accepts, opts: seq<Opt>, a: cstring, b: cstring)
    ensures Directives(a) == Directives(b) ==> LoadsLike(accepts, opts, a, b)
  {
    hide Load, Directives, SchemaOf, DefaultsOf;
    if Directives(a) == Directives(b) {
      SameDirectivesLoadSame(accepts, SchemaOf(opts), DefaultsOf(opts), a, b);
    }
  }
}
