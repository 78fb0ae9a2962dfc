/** The parser returns nothing but valid trees, so the trees that survive printing and parsing are
    exactly these. */
module XmlValid {
  import opened CStrings
  import opened Wrappers
  import opened XmlTree
  import opened XmlParser
  import opened XmlRoundTrip

  // ---------- Names and values ----------

  lemma {:induction false} NameBytes(s: cstring, start: nat, p: nat)
    requires start <= p <= |s|
    ensures forall i :: p <= i < NameEnd(s, start, p) ==> IsNameByte(s[i], i == start)
    decreases |s| - p
  {
    if IsNameByte(At(s, p), p == start) {
      NameBytes(s, start, p + 1);
    }
  }

  lemma NameIsValid(s: cstring, start: nat)
    requires start <= |s| && NameEnd(s, start, start) > start
    ensures ValidName(s[start..NameEnd(s, start, start)])
  {
    NameBytes(s, start, start);
  }

  lemma {:induction false} TextAvoids(s: cstring, p: nat, tag: cchar)
    requires p <= |s| && tag != NUL && TextEnd(s, p, tag).Some?
    ensures forall i :: p <= i < TextEnd(s, p, tag).value ==> s[i] != NUL && s[i] != tag
    decreases |s| - p
  {
    if At(s, p) != tag {
      TextAvoids(s, p + 1, tag);
    }
  }

  lemma {:induction false} DecodedValid(s: cstring)
    requires NoNul(s) && Decode(s).Some?
    ensures ValidText(Decode(s).value)
    decreases |s|
  {
    if s == [] {
    } else if s[0] == '\r' {
      DecodedValid(if At(s, 1) == '\n' then s[2..] else s[1..]);
    } else if s[0] == '\n' {
      DecodedValid(if At(s, 1) == '\r' then s[2..] else s[1..]);
    } else if s[0] == '&' {
      DecodedValid(s[Entity(s).value.1..]);
    } else {
      DecodedValid(s[1..]);
    }
  }

  /** What is not blank stays so. */
  lemma {:induction false} DecodedNotBlank(s: cstring, q: nat)
    requires q < |s| && !IsSpace(s[q]) && (forall i :: 0 <= i < q ==> IsSpace(s[i])) && Decode(s).Some?
    ensures NotBlank(Decode(s).value)
    decreases |s|
  {
    if q == 0 {
      assert !IsSpace(Decode(s).value[0]);
    } else {
      var n := if (s[0] == '\r' && At(s, 1) == '\n') || (s[0] == '\n' && At(s, 1) == '\r') then 2 else 1;
      assert n <= q;
      DecodedNotBlank(s[n..], q - n);
      var rest := Decode(s[n..]).value;
      var i :| 0 <= i < |rest| && !IsSpace(rest[i]);
      assert Decode(s).value[i + 1] == rest[i];
    }
  }

  lemma {:induction false} BlanksSkipped(s: cstring, p: nat)
    requires p <= |s|
    ensures forall i :: p <= i < SkipBlanks(s, p) ==> IsSpace(s[i])
    decreases |s| - p
  {
    if IsSpace(At(s, p)) {
      BlanksSkipped(s, p + 1);
    }
  }

  // ---------- Attributes ----------

  lemma AttrIsValid(s: cstring, p: nat)
    requires p <= |s| && IsNameStart(At(s, p)) && ParseAttr(s, p).OneAttr?
    ensures ValidAttr(ParseAttr(s, p).attr)
  {
    var e := NameEnd(s, p, p);
    NameIsValid(s, p);
    var v := SkipBlanks(s, SkipBlanks(s, e) + 1);
    TextAvoids(s, v + 1, At(s, v));
    var t := TextEnd(s, v + 1, At(s, v)).value;
    DecodedValid(s[v + 1..t]);
    hide NameEnd, Decode, ValidText;
  }

  lemma {:induction false} AttrsAreValid(s: cstring, p: nat, acc: seq<Attr>)
    requires p <= |s| && (forall i :: 0 <= i < |acc| ==> ValidAttr(acc[i])) && DistinctAttrs(acc)
    requires ParseAttrs(s, p, acc).Attrs?
    ensures var attrs := ParseAttrs(s, p, acc).attrs;
            (forall i :: 0 <= i < |attrs| ==> ValidAttr(attrs[i])) && DistinctAttrs(attrs)
    decreases |s| - p
  {
    hide ParseAttr, ValidAttr;
    var q := SkipBlanks(s, p);
    if IsNameStart(At(s, q)) {
      AttrIsValid(s, q);
      AttrsAreValid(s, ParseAttr(s, q).next, acc + [ParseAttr(s, q).attr]);
    }
  }

  // ---------- Trees ----------

  ghost predicate ValidNodes(nodes: seq<Node>) {
    (forall i :: 0 <= i < |nodes| ==> ValidNode(nodes[i])) && NoAdjacentText(nodes)
  }

  /** A text node ends where the next tag begins. */
  ghost predicate TagAfterText(s: cstring, p: nat, nodes: seq<Node>)
    requires p <= |s|
  {
    nodes != [] && nodes[|nodes| - 1].Text? ==> At(s, p) == '<'
  }

  lemma TextIsValid(s: cstring, p: nat)
    requires p <= |s| && TextEnd(s, p, '<').Some?
    requires var q := SkipBlanks(s, p); At(s, q) != NUL && At(s, q) != '<'
    requires Decode(s[p..TextEnd(s, p, '<').value]).Some?
    ensures ValidNode(Text(Decode(s[p..TextEnd(s, p, '<').value]).value))
    ensures At(s, p) != '<'
  {
    var q, t := SkipBlanks(s, p), TextEnd(s, p, '<').value;
    BlanksSkipped(s, p);
    TextAvoids(s, p, '<');
    assert q < t;
    var raw := s[p..t];
    DecodedValid(raw);
    assert raw[q - p] == s[q];
    DecodedNotBlank(raw, q - p);
  }

  lemma NodesSnoc(nodes: seq<Node>, n: Node)
    requires ValidNodes(nodes) && ValidNode(n)
    requires n.Text? ==> nodes == [] || nodes[|nodes| - 1].Element?
    ensures ValidNodes(nodes + [n])
  {
    hide ValidNode;
  }

  lemma {:induction false} ElementIsValid(s: cstring, start: nat)
    requires start <= |s| && ParseElement(s, start).Whole?
    ensures ParseElement(s, start).node.Element? && ValidNode(ParseElement(s, start).node)
    decreases |s| - start, 0
  {
    var p := SkipBlanks(s, start);
    var n := if At(s, p) == '/' then p + 1 else p;
    var e := NameEnd(s, n, n);
    NameIsValid(s, n);
    AttrsAreValid(s, e, []);
    var a := ParseAttrs(s, e, []);
    if !a.closed {
      NodesAreValid(s, a.next, []);
    }
    hide ParseNodes, ParseAttrs, ValidAttr;
  }

  lemma {:induction false} NodesAreValid(s: cstring, p: nat, acc: seq<Node>)
    requires p <= |s| && ValidNodes(acc) && TagAfterText(s, p, acc)
    requires !ParseNodes(s, p, acc).NodesStop?
    ensures ValidNodes(ParseNodes(s, p, acc).nodes)
    decreases |s| - p, 1
  {
    hide ValidNode, ValidNodes, ParseElement, Decode, TextEnd;
    var q := SkipBlanks(s, p);
    if At(s, p) == NUL || At(s, q) == NUL {
    } else if At(s, q) == '<' {
      var r := ParseElement(s, q + 1);
      if r.Whole? {
        ElementIsValid(s, q + 1);
        NodesSnoc(acc, r.node);
        NodesAreValid(s, r.next, acc + [r.node]);
      }
    } else {
      TextIsValid(s, p);
      var t := TextEnd(s, p, '<').value;
      var n := Text(Decode(s[p..t]).value);
      NodesSnoc(acc, n);
      NodesAreValid(s, t, acc + [n]);
    }
  }

  /** Whatever the text, the trees of a document are valid. */
  lemma ParsedAreValid(s: cstring)
    requires Parse(s).Parsed?
    ensures ValidNodes(Parse(s).nodes)
  {
    assert ValidNodes([]);
    hide ValidNodes, ParseNodes;
    NodesAreValid(s, 0, []);
  }

  // ---------- The equivalence ----------

  lemma {:induction false} EscapeNoTag(s: cstring)
    ensures Avoids(Escape(s, true), '<')
  {
    if s != [] {
      EscapeNoTag(s[..|s| - 1]);
    }
  }

  lemma {:induction false} NoTagNoText(s: cstring, p: nat)
    requires p <= |s| && Avoids(s, '<')
    ensures TextEnd(s, p, '<') == None
    decreases |s| - p
  {
    if p < |s| && s[p] != NUL {
      NoTagNoText(s, p + 1);
    }
  }

  /** Text alone makes no document. */
  lemma TextNotRead(text: cstring)
    ensures Parse(Print(Text(text))) != Parsed([Text(text)])
  {
    var s := Escape(text, true);
    EscapeNoTag(text);
    NoTagNoText(s, 0);
    hide Escape, TextEnd, Decode;
  }

  /** Parsing the print of a node gives the node exactly if it is a valid element. */
  lemma ParsePrintWhen(root: Node)
    ensures Parse(Print(root)) == Parsed([root]) <==> root.Element? && ValidNode(root)
  {
    hide Print, Parse, ValidNode;
    if root.Element? && ValidNode(root) {
      ParsePrint(root);
    }
    if Parse(Print(root)) == Parsed([root]) {
      ParsedAreValid(Print(root));
      assert [root][0] == root;
      if root.Text? {
        TextNotRead(root.text);
      }
    }
  }
}
