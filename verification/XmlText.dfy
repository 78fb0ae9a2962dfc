/** Raw character data and attribute values, told without the reader: line ends, entities and plain bytes
    (tinyxml2.cpp:70-82, 175-263). */
module XmlText {
  import opened CStrings
  import opened Wrappers
  import opened XmlParser

  datatype Chunk = Byte(c: cchar) | LineEnd(text: cstring) | Named(text: cstring)

  function ChunkText(k: Chunk): cstring {
    match k case Byte(c) => [c] case LineEnd(t) => t case Named(t) => t
  }

  function ChunkValue(k: Chunk): cchar {
    match k
    case Byte(c) => c
    case LineEnd(_) => '\n'
    case Named(t) =>
      if t == "&quot;" then '"' else if t == "&amp;" then '&' else if t == "&apos;" then '\''
      else if t == "&lt;" then '<' else '>'
  }

  /** The five entities; and a line end is taken as long as possible, so a single CR or LF is not followed by
      the other one. */
  predicate ChunkOk(k: Chunk, rest: cstring) {
    match k
    case Byte(c) => c != '\r' && c != '\n' && c != '&'
    case LineEnd(t) =>
      || t == "\r\n" || t == "\n\r"
      || (t == "\r" && (rest == [] || rest[0] != '\n'))
      || (t == "\n" && (rest == [] || rest[0] != '\r'))
    case Named(t) => t == "&quot;" || t == "&amp;" || t == "&apos;" || t == "&lt;" || t == "&gt;"
  }

  function ChunksText(w: seq<Chunk>): cstring {
    if w == [] then [] else ChunkText(w[0]) + ChunksText(w[1..])
  }

  function ChunksValue(w: seq<Chunk>): cstring {
    seq(|w|, i requires 0 <= i < |w| => ChunkValue(w[i]))
  }

  predicate ChunksOk(w: seq<Chunk>) {
    w == [] || (ChunkOk(w[0], ChunksText(w[1..])) && ChunksOk(w[1..]))
  }

  ghost predicate Spells(w: seq<Chunk>, s: cstring) {
    ChunksOk(w) && ChunksText(w) == s
  }

  lemma EntityRead(t: cstring, rest: cstring)
    requires ChunkOk(Named(t), rest)
    ensures Entity(t + rest) == Some((ChunkValue(Named(t)), |t|))
  {
    var s := t + rest;
    assert forall i :: 0 <= i < |t| ==> s[i] == t[i];
    assert s[..|t|] == t;
    assert s[1] == t[1] && s[2] == t[2];
  }

  lemma ChunkRead(k: Chunk, rest: cstring)
    requires ChunkOk(k, rest)
    ensures Decode(ChunkText(k) + rest) == Cons(ChunkValue(k), Decode(rest))
  {
    hide Entity;
    var t := ChunkText(k);
    var s := t + rest;
    assert s[|t|..] == rest && s[0] == t[0];
    if k.Named? {
      EntityRead(t, rest);
    } else if |t| == 2 {
      assert s[1] == t[1];
    } else {
      assert At(s, 1) == At(rest, 0);
    }
  }

  lemma {:induction false} ChunksRead(w: seq<Chunk>)
    requires ChunksOk(w)
    ensures Decode(ChunksText(w)) == Some(ChunksValue(w))
  {
    hide Decode, ChunkOk, ChunkText, ChunkValue;
    if w == [] {
      DecodeNothing();
      assert ChunksValue(w) == [];
    } else {
      ChunkRead(w[0], ChunksText(w[1..]));
      ChunksRead(w[1..]);
      assert ChunksValue(w) == [ChunkValue(w[0])] + ChunksValue(w[1..]);
    }
  }

  lemma DecodeNothing()
    ensures Decode([]) == Some([])
  {
  }

  /** The chunk the reader sees first. */
  lemma ChunkFound(s: cstring) returns (k: Chunk, rest: cstring)
    requires s != [] && Decode(s).Some?
    ensures ChunkOk(k, rest) && ChunkText(k) != [] && s == ChunkText(k) + rest
    ensures Decode(s) == Cons(ChunkValue(k), Decode(rest))
  {
    var n := 1;
    if s[0] == '\r' || s[0] == '\n' {
      if At(s, 1) != s[0] && (At(s, 1) == '\r' || At(s, 1) == '\n') {
        n := 2;
      }
      k := LineEnd(s[..n]);
    } else if s[0] == '&' {
      n := Entity(s).value.1;
      k := Named(s[..n]);
    } else {
      k := Byte(s[0]);
    }
    rest := s[n..];
    assert s == s[..n] + rest;
    assert ChunkText(k) == s[..n];
  }

  lemma {:induction false} ChunksFound(s: cstring) returns (w: seq<Chunk>)
    requires Decode(s).Some?
    ensures Spells(w, s)
    decreases |s|
  {
    hide Decode, ChunkOk, ChunkText, ChunkValue;
    if s == [] {
      w := [];
    } else {
      var k, rest := ChunkFound(s);
      var w' := ChunksFound(rest);
      w := [k] + w';
      assert w[1..] == w';
    }
  }

  /** GetStr reads exactly the text spelled in this way, and returns exactly what is spelled. */
  lemma DecodeExactly(s: cstring, value: cstring)
    ensures Decode(s) == Some(value) <==> exists w: seq<Chunk> :: Spells(w, s) && ChunksValue(w) == value
    ensures Decode(s) == None <==> !exists w: seq<Chunk> :: Spells(w, s)
  {
    hide Decode, ChunksOk, ChunksText, ChunksValue;
    forall w: seq<Chunk> | Spells(w, s) ensures Decode(s) == Some(ChunksValue(w)) {
      ChunksRead(w);
    }
    if Decode(s).Some? {
      var w := ChunksFound(s);
    }
  }

  /** What a raw text says, or that it says nothing. */
  ghost predicate SpelledAs(s: cstring, r: Option<cstring>) {
    match r
    case None => !exists w: seq<Chunk> :: Spells(w, s)
    case Some(value) => exists w: seq<Chunk> :: Spells(w, s) && ChunksValue(w) == value
  }

  lemma DecodeSpells(s: cstring)
    ensures SpelledAs(s, Decode(s))
  {
    hide Decode, Spells, ChunksValue;
    DecodeExactly(s, if Decode(s).Some? then Decode(s).value else []);
  }

  // ---------- Line ends ----------

  /** Lines joined by a separator between each two. */
  function JoinLines(lines: seq<cstring>, sep: cstring): cstring {
    if lines == [] then []
    else if |lines| == 1 then lines[0]
    else lines[0] + sep + JoinLines(lines[1..], sep)
  }

  ghost predicate PlainLine(line: cstring) {
    Avoids(line, '\r') && Avoids(line, '\n') && Avoids(line, '&')
  }

  predicate AnyLineEnd(sep: cstring) {
    sep == "\r\n" || sep == "\r" || sep == "\n" || sep == "\n\r"
  }

  function Append(done: cstring, rest: Option<cstring>): Option<cstring> {
    match rest case None => None case Some(r) => Some(done + r)
  }

  lemma {:induction false} PlainRead(line: cstring, rest: cstring)
    requires PlainLine(line)
    ensures Decode(line + rest) == Append(line, Decode(rest))
    decreases |line|
  {
    hide Decode;
    if line == [] {
      assert line + rest == rest && (Decode(rest).Some? ==> [] + Decode(rest).value == Decode(rest).value);
    } else {
      ChunkRead(Byte(line[0]), line[1..] + rest);
      assert [line[0]] + (line[1..] + rest) == line + rest;
      PlainRead(line[1..], rest);
      match Decode(rest)
      case None =>
      case Some(r) => assert [line[0]] + (line[1..] + r) == line + r;
    }
  }

  lemma JoinedFirst(lines: seq<cstring>, sep: cstring)
    requires AnyLineEnd(sep) && forall i :: 0 <= i < |lines| ==> PlainLine(lines[i])
    ensures var t := JoinLines(lines, sep); t != [] && (t[0] == '\r' || t[0] == '\n') ==> t[0] == sep[0]
  {
    if lines != [] {
      assert PlainLine(lines[0]);
    }
  }

  /** Whichever of the four line ends a file uses, the lines are read with single line feeds between them. */
  lemma {:induction false} LineEndsRead(lines: seq<cstring>, sep: cstring)
    requires AnyLineEnd(sep) && forall i :: 0 <= i < |lines| ==> PlainLine(lines[i])
    ensures Decode(JoinLines(lines, sep)) == Some(JoinLines(lines, ['\n']))
  {
    hide Decode;
    if lines == [] {
      DecodeNothing();
    } else if |lines| == 1 {
      PlainRead(lines[0], []);
      DecodeNothing();
      assert lines[0] + [] == lines[0];
    } else {
      var rest := JoinLines(lines[1..], sep);
      JoinedFirst(lines[1..], sep);
      ChunkRead(LineEnd(sep), rest);
      LineEndsRead(lines[1..], sep);
      PlainRead(lines[0], sep + rest);
      assert lines[0] + (sep + rest) == JoinLines(lines, sep);
      assert lines[0] + (['\n'] + JoinLines(lines[1..], ['\n'])) == JoinLines(lines, ['\n']);
    }
  }
}
