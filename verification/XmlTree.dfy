/** XML trees and the compact printer of tinyxml2.cpp:1802-2072. */
module XmlTree {
  import opened CStrings

  datatype Attr = Attr(name: cstring, value: cstring)

  datatype Node =
    | Text(text: cstring)
    | Element(name: cstring, attrs: seq<Attr>, children: seq<Node>)

  // ---------- Entities ----------

  /** What PrintString writes for a byte; `restricted` is the rule for text, the other for attribute values. */
  function EscapeChar(c: cchar, restricted: bool): (r: cstring)
    ensures r != []
  {
    if c == '&' then ['&', 'a', 'm', 'p', ';']
    else if c == '<' then ['&', 'l', 't', ';']
    else if c == '>' then ['&', 'g', 't', ';']
    else if c == '"' && !restricted then ['&', 'q', 'u', 'o', 't', ';']
    else if c == '\'' && !restricted then ['&', 'a', 'p', 'o', 's', ';']
    else [c]
  }

  function Escape(s: cstring, restricted: bool): cstring {
    if s == [] then [] else Escape(s[..|s| - 1], restricted) + EscapeChar(s[|s| - 1], restricted)
  }

  // ---------- The text of a tree ----------

  function PrintAttr(a: Attr): cstring {
    [' '] + a.name + ['=', '"'] + Escape(a.value, false) + ['"']
  }

  function PrintAttrs(attrs: seq<Attr>): cstring {
    if attrs == [] then [] else PrintAttr(attrs[0]) + PrintAttrs(attrs[1..])
  }

  function Print(n: Node): cstring
    decreases n, 0
  {
    match n
    case Text(s) => Escape(s, true)
    case Element(name, attrs, children) =>
      ['<'] + name + PrintAttrs(attrs) +
      (if children == [] then ['/', '>']
       else ['>'] + PrintAll(children) + ['<', '/'] + name + ['>'])
  }

  function PrintAll(nodes: seq<Node>): cstring
    decreases nodes, 1
  {
    if nodes == [] then [] else Print(nodes[0]) + PrintAll(nodes[1..])
  }

  lemma EscapeSnoc(s: cstring, q: nat, restricted: bool)
    requires q < |s|
    ensures Escape(s[..q + 1], restricted) == Escape(s[..q], restricted) + EscapeChar(s[q], restricted)
  {
    assert s[..q + 1][..q] == s[..q];
  }

  lemma EscapeNil(restricted: bool)
    ensures Escape([], restricted) == []
  {
  }

  lemma SliceSnoc(pre: cstring, s: cstring, p: nat, q: nat)
    requires p <= q < |s|
    ensures pre + s[p..q + 1] == pre + s[p..q] + [s[q]]
  {
  }

  lemma PrintAttrsStep(attrs: seq<Attr>, i: nat)
    requires i < |attrs|
    ensures PrintAttrs(attrs[i..]) == PrintAttr(attrs[i]) + PrintAttrs(attrs[i + 1..])
    ensures PrintAttrs([]) == []
  {
    assert attrs[i..][1..] == attrs[i + 1..];
  }

  lemma PrintAllStep(nodes: seq<Node>, i: nat)
    requires i < |nodes|
    ensures PrintAll(nodes[i..]) == Print(nodes[i]) + PrintAll(nodes[i + 1..])
    ensures PrintAll([]) == []
  {
    assert nodes[i..][1..] == nodes[i + 1..];
  }

  // ---------- The printer object ----------

  class XmlPrinter {
    var buffer: cstring
    var elementJustOpened: bool
    var stack: seq<cstring>
    var depth: int

    constructor ()
      ensures buffer == [] && !elementJustOpened && stack == [] && depth == 0
    {
      buffer, elementJustOpened, stack, depth := [], false, [], 0;
    }

    /** What is still owed to the element that was opened last. */
    function Seal(): cstring
      reads this
    {
      if elementJustOpened then ['>'] else []
    }

    /** PrintString: runs between entities are flushed up to each of them. */
    method PrintString(s: cstring, restricted: bool)
      modifies this`buffer
      ensures buffer == old(buffer) + Escape(s, restricted)
    {
      hide Escape;
      var p, q := 0, 0;
      EscapeNil(restricted);
      ghost var start := buffer;
      while q < |s|
        invariant p <= q <= |s|
        invariant buffer + s[p..q] == start + Escape(s[..q], restricted)
      {
        EscapeSnoc(s, q, restricted);
        if s[q] == '&' || s[q] == '<' || s[q] == '>' || (!restricted && (s[q] == '"' || s[q] == '\'')) {
          buffer := buffer + s[p..q];
          buffer := buffer + EscapeChar(s[q], restricted);
          p := q + 1;
          assert s[p..q + 1] == [];
        } else {
          SliceSnoc(buffer, s, p, q);
        }
        q := q + 1;
      }
      assert s[..q] == s && s[p..q] == s[p..];
      if q - p > 0 {
        buffer := buffer + s[p..];
      }
    }

    method SealElement()
      modifies this`buffer, this`elementJustOpened
      ensures buffer == old(buffer) + ['>'] && !elementJustOpened
    {
      elementJustOpened := false;
      buffer := buffer + ['>'];
    }

    method OpenElement(name: cstring)
      modifies this
      ensures buffer == old(buffer) + old(Seal()) + (['<'] + name)
      ensures elementJustOpened && stack == old(stack) + [name] && depth == old(depth) + 1
    {
      if elementJustOpened {
        SealElement();
      }
      stack := stack + [name];
      buffer := buffer + (['<'] + name);
      elementJustOpened := true;
      depth := depth + 1;
    }

    method PushAttribute(name: cstring, value: cstring)
      requires elementJustOpened
      modifies this`buffer
      ensures buffer == old(buffer) + PrintAttr(Attr(name, value))
    {
      buffer := buffer + ([' '] + name + ['=', '"']);
      PrintString(value, false);
      buffer := buffer + ['"'];
    }

    method CloseElement()
      requires stack != []
      modifies this
      ensures !elementJustOpened && stack == old(stack)[..|old(stack)| - 1] && depth == old(depth) - 1
      ensures buffer == old(buffer) + (if old(elementJustOpened) then ['/', '>']
                                       else ['<', '/'] + old(stack)[|old(stack)| - 1] + ['>'])
    {
      depth := depth - 1;
      var name := stack[|stack| - 1];
      stack := stack[..|stack| - 1];
      if elementJustOpened {
        buffer := buffer + ['/', '>'];
      } else {
        buffer := buffer + (['<', '/'] + name + ['>']);
      }
      elementJustOpened := false;
    }

    method PushText(text: cstring)
      modifies this`buffer, this`elementJustOpened
      ensures !elementJustOpened && buffer == old(buffer) + old(Seal()) + Escape(text, true)
    {
      if elementJustOpened {
        SealElement();
      }
      PrintString(text, true);
    }

    /** XMLElement::Accept and XMLText::Accept with this printer as the visitor. */
    method Accept(n: Node)
      modifies this
      ensures buffer == old(buffer) + old(Seal()) + Print(n)
      ensures !elementJustOpened && stack == old(stack) && depth == old(depth)
      decreases n, 0
    {
      match n
      case Text(s) => PushText(s);
      case Element(name, attrs, children) =>
        ghost var start := buffer + Seal();
        OpenElement(name);
        VisitAttributes(attrs);
        ghost var mid := buffer;
        assert mid == start + (['<'] + name + PrintAttrs(attrs));
        AcceptAll(children);
        CloseElement();
        assert stack == old(stack);
        assert buffer == mid + (if children == [] then ['/', '>']
                                else ['>'] + PrintAll(children) + ['<', '/'] + name + ['>']);
    }

    method VisitAttributes(attrs: seq<Attr>)
      requires elementJustOpened
      modifies this`buffer
      ensures buffer == old(buffer) + PrintAttrs(attrs)
    {
      hide PrintAttrs, PrintAttr;
      ghost var start := buffer;
      assert attrs[0..] == attrs;
      for i := 0 to |attrs|
        invariant buffer + PrintAttrs(attrs[i..]) == start + PrintAttrs(attrs)
      {
        PrintAttrsStep(attrs, i);
        PushAttribute(attrs[i].name, attrs[i].value);
      }
      assert PrintAttrs([]) == [] by { PrintAttrsNil(); }
      assert attrs[|attrs|..] == [];
    }

    /** The loop over the children. */
    method AcceptAll(nodes: seq<Node>)
      modifies this
      ensures stack == old(stack) && depth == old(depth)
      ensures nodes == [] ==> buffer == old(buffer) && elementJustOpened == old(elementJustOpened)
      ensures nodes != [] ==> buffer == old(buffer) + old(Seal()) + PrintAll(nodes) && !elementJustOpened
      decreases nodes, 1
    {
      hide PrintAll, Print;
      ghost var start := buffer + Seal();
      assert nodes[0..] == nodes;
      for i := 0 to |nodes|
        invariant stack == old(stack) && depth == old(depth)
        invariant i == 0 ==> buffer == old(buffer) && elementJustOpened == old(elementJustOpened)
        invariant i > 0 ==> !elementJustOpened
        invariant buffer + Seal() + PrintAll(nodes[i..]) == start + PrintAll(nodes)
      {
        PrintAllStep(nodes, i);
        Accept(nodes[i]);
      }
      PrintAllNil();
      assert nodes[|nodes|..] == [];
    }
  }

  lemma PrintAttrsNil()
    ensures PrintAttrs([]) == []
  {
  }

  lemma PrintAllNil()
    ensures PrintAll([]) == []
  {
  }
}
