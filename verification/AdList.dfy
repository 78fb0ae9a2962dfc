/** The generic doubly linked list and its iterators.  `nodes` is the list the links spell out. */
module AdLists {
  import opened Wrappers
  import opened Seqs

  class Node<V> {
    var prev: Node?<V>
    var next: Node?<V>
    const value: V
    constructor (value: V)
      ensures this.value == value
    {
      this.value := value;
      prev, next := null, null;
    }
  }

  /** Element `i`, or NULL outside the sequence. */
  function Nth<V>(nodes: seq<Node<V>>, i: int): Node?<V> {
    if 0 <= i < |nodes| then nodes[i] else null
  }

  /** The links of every node lead to its neighbours. */
  ghost predicate Chained<V>(nodes: seq<Node<V>>)
    reads nodes
  {
    && (forall i {:trigger nodes[i].prev} :: 0 <= i < |nodes| ==> nodes[i].prev == Nth(nodes, i - 1))
    && (forall i {:trigger nodes[i].next} :: 0 <= i < |nodes| ==> nodes[i].next == Nth(nodes, i + 1))
  }

  function Values<V>(nodes: seq<Node<V>>): (r: seq<V>)
    ensures |r| == |nodes| && forall i :: 0 <= i < |r| ==> r[i] == nodes[i].value
  {
    seq(|nodes|, i requires 0 <= i < |nodes| => nodes[i].value)
  }

  function Insert<T>(s: seq<T>, i: nat, x: T): seq<T>
    requires i <= |s|
  {
    s[..i] + [x] + s[i..]
  }

  function Remove<T>(s: seq<T>, i: nat): seq<T>
    requires i < |s|
  {
    s[..i] + s[i + 1..]
  }

  lemma InsertDistinct<T>(s: seq<T>, i: nat, x: T)
    requires i <= |s| && Distinct(s) && x !in s
    ensures Distinct(Insert(s, i, x)) && |Insert(s, i, x)| == |s| + 1
  {
  }

  lemma RemoveDistinct<T>(s: seq<T>, i: nat)
    requires i < |s| && Distinct(s)
    ensures Distinct(Remove(s, i)) && |Remove(s, i)| == |s| - 1 && s[i] !in Remove(s, i)
  {
  }

  lemma LinkAt<V>(nodes: seq<Node<V>>, i: nat)
    requires Chained(nodes) && Distinct(nodes) && i < |nodes|
    ensures nodes[i].prev == Nth(nodes, i - 1) && nodes[i].next == Nth(nodes, i + 1)
    ensures forall k :: 0 <= k < |nodes| && k != i ==> nodes[k] != nodes[i]
  {
  }

  lemma Neighbours<V>(nodes: seq<Node<V>>, i: nat)
    requires Chained(nodes) && Distinct(nodes) && i < |nodes|
    ensures nodes[i].prev == Nth(nodes, i - 1) && nodes[i].next == Nth(nodes, i + 1)
    ensures forall k :: 0 <= k < |nodes| && k != i ==> nodes[k] != nodes[i]
    ensures forall k :: 0 <= k < |nodes| && k != i - 1 ==> nodes[k] != Nth(nodes, i - 1)
    ensures forall k :: 0 <= k < |nodes| && k != i + 1 ==> nodes[k] != Nth(nodes, i + 1)
  {
  }

  /** Links after `node` was put in at place `i`: only the neighbours' links to each other changed. */
  lemma ChainedInsert<V>(nodes: seq<Node<V>>, i: nat, node: Node<V>)
    requires i <= |nodes|
    requires node.prev == Nth(nodes, i - 1) && node.next == Nth(nodes, i)
    requires forall k {:trigger nodes[k].next} ::
      0 <= k < |nodes| ==> nodes[k].next == if k == i - 1 then node else Nth(nodes, k + 1)
    requires forall k {:trigger nodes[k].prev} ::
      0 <= k < |nodes| ==> nodes[k].prev == if k == i then node else Nth(nodes, k - 1)
    ensures Chained(Insert(nodes, i, node))
  {
    var r := Insert(nodes, i, node);
    forall k | 0 <= k < |r| ensures r[k].prev == Nth(r, k - 1) && r[k].next == Nth(r, k + 1) {
      if k < i {
        assert r[k] == nodes[k];
      } else if k > i {
        assert r[k] == nodes[k - 1];
      }
    }
  }

  lemma ChainedRemove<V>(nodes: seq<Node<V>>, i: nat)
    requires i < |nodes|
    requires forall k {:trigger nodes[k].next} ::
      0 <= k < |nodes| ==> nodes[k].next == if k == i - 1 then Nth(nodes, i + 1) else Nth(nodes, k + 1)
    requires forall k {:trigger nodes[k].prev} ::
      0 <= k < |nodes| ==> nodes[k].prev == if k == i + 1 then Nth(nodes, i - 1) else Nth(nodes, k - 1)
    ensures Chained(Remove(nodes, i))
  {
    var r := Remove(nodes, i);
    forall k | 0 <= k < |r| ensures r[k].prev == Nth(r, k - 1) && r[k].next == Nth(r, k + 1) {
      if k < i {
        assert r[k] == nodes[k];
      } else {
        assert r[k] == nodes[k + 1];
      }
    }
  }

  lemma ChainedRotate<V>(nodes: seq<Node<V>>)
    requires |nodes| > 1 && Distinct(nodes)
    requires nodes[|nodes| - 1].prev == null && nodes[|nodes| - 1].next == nodes[0]
    requires forall k {:trigger nodes[k].next} ::
      0 <= k < |nodes| - 1 ==> nodes[k].next == if k == |nodes| - 2 then null else Nth(nodes, k + 1)
    requires forall k {:trigger nodes[k].prev} ::
      0 <= k < |nodes| - 1 ==> nodes[k].prev == if k == 0 then nodes[|nodes| - 1] else Nth(nodes, k - 1)
    ensures Chained(Rotated(nodes)) && Distinct(Rotated(nodes)) && |Rotated(nodes)| == |nodes|
    ensures Nth(Rotated(nodes), 0) == nodes[|nodes| - 1] && Nth(Rotated(nodes), |nodes| - 1) == nodes[|nodes| - 2]
  {
    var r := Rotated(nodes);
    forall k | 0 <= k < |r| ensures r[k].prev == Nth(r, k - 1) && r[k].next == Nth(r, k + 1) {
      if k > 0 {
        assert r[k] == nodes[k - 1];
      }
    }
  }

  class List<V> {
    var head: Node?<V>
    var tail: Node?<V>
    var len: nat
    var dup: Option<V -> Option<V>>
    var matches: Option<(V, V) -> bool>
    ghost var nodes: seq<Node<V>>

    ghost predicate Valid()
      reads this, nodes
    {
      && len == |nodes|
      && head == Nth(nodes, 0)
      && tail == Nth(nodes, len - 1)
      && Chained(nodes)
      && Distinct(nodes)
    }

    lemma LinkOf(i: nat)
      requires Valid() && i < |nodes|
      ensures nodes[i].prev == Nth(nodes, i - 1) && nodes[i].next == Nth(nodes, i + 1)
    {
    }

    /** listCreate */
    constructor ()
      ensures Valid() && nodes == [] && dup == None && matches == None
    {
      head, tail, len, nodes := null, null, 0, [];
      dup, matches := None, None;
    }

    /** listSetDupMethod, listSetMatchMethod */
    method SetMethods(dup: Option<V -> Option<V>>, matches: Option<(V, V) -> bool>)
      requires Valid()
      modifies this`dup, this`matches
      ensures Valid() && this.dup == dup && this.matches == matches
    {
      this.dup, this.matches := dup, matches;
    }

    method AddNodeHead(value: V)
      requires Valid()
      modifies this, nodes
      ensures Valid() && dup == old(dup) && matches == old(matches)
      ensures |nodes| > 0 && fresh(nodes[0]) && nodes[0].value == value && nodes == [nodes[0]] + old(nodes)
    {
      hide Distinct;
      if len > 0 {
        LinkAt(nodes, 0);
      }
      var node := new Node(value);
      if len == 0 {
        head, tail := node, node;
        node.prev, node.next := null, null;
      } else {
        node.prev := null;
        node.next := head;
        head.prev := node;
        head := node;
      }
      ChainedInsert(nodes, 0, node);
      InsertDistinct(nodes, 0, node);
      nodes := Insert(nodes, 0, node);
      len := len + 1;
    }

    method AddNodeTail(value: V)
      requires Valid()
      modifies this, nodes
      ensures Valid() && dup == old(dup) && matches == old(matches)
      ensures |nodes| == old(|nodes|) + 1 && nodes[..old(|nodes|)] == old(nodes)
      ensures fresh(nodes[old(|nodes|)]) && nodes[old(|nodes|)].value == value
    {
      hide Distinct;
      if len > 0 {
        LinkAt(nodes, len - 1);
      }
      var node := new Node(value);
      if len == 0 {
        head, tail := node, node;
        node.prev, node.next := null, null;
      } else {
        node.prev := tail;
        node.next := null;
        tail.next := node;
        tail := node;
      }
      ChainedInsert(nodes, |nodes|, node);
      InsertDistinct(nodes, |nodes|, node);
      nodes := Insert(nodes, |nodes|, node);
      len := len + 1;
    }

    /** Insert beside the node at `at`, a place known to the proof only. */
    method InsertNode(oldNode: Node<V>, value: V, after: bool, ghost at: nat) returns (node: Node<V>)
      requires Valid() && at < |nodes| && nodes[at] == oldNode
      modifies this, nodes
      ensures Valid() && dup == old(dup) && matches == old(matches)
      ensures fresh(node) && node.value == value
      ensures nodes == Insert(old(nodes), if after then at + 1 else at, node)
    {
      hide Distinct;
      Neighbours(nodes, at);
      node := new Node(value);
      if after {
        node.prev := oldNode;
        node.next := oldNode.next;
        if tail == oldNode {
          tail := node;
        }
      } else {
        node.next := oldNode;
        node.prev := oldNode.prev;
        if head == oldNode {
          head := node;
        }
      }
      Hook(node, if after then at + 1 else at);
    }

    /** The end of InsertNode: the neighbours the new node names now name it. */
    method Hook(node: Node<V>, ghost i: nat)
      requires i <= |nodes| == len && node !in nodes && Chained(nodes) && Distinct(nodes)
      requires node.prev == Nth(nodes, i - 1) && node.next == Nth(nodes, i)
      modifies this`len, this`nodes, nodes
      ensures nodes == Insert(old(nodes), i, node) && len == |nodes| && Chained(nodes) && Distinct(nodes)
    {
      if i < len {
        LinkAt(nodes, i);
      }
      if i > 0 {
        LinkAt(nodes, i - 1);
      }
      hide Distinct;
      if node.prev != null {
        node.prev.next := node;
      }
      if node.next != null {
        node.next.prev := node;
      }
      ChainedInsert(nodes, i, node);
      InsertDistinct(nodes, i, node);
      nodes := Insert(nodes, i, node);
      len := len + 1;
    }

    method DelNode(node: Node<V>, ghost at: nat)
      requires Valid() && at < |nodes| && nodes[at] == node
      modifies this, nodes
      ensures Valid() && dup == old(dup) && matches == old(matches)
      ensures nodes == Remove(old(nodes), at)
      ensures node.prev == old(node.prev) && node.next == old(node.next)
    {
      hide Distinct;
      Neighbours(nodes, at);
      if node.prev != null {
        node.prev.next := node.next;
      } else {
        head := node.next;
      }
      if node.next != null {
        node.next.prev := node.prev;
      } else {
        tail := node.prev;
      }
      ChainedRemove(nodes, at);
      RemoveDistinct(nodes, at);
      nodes := Remove(nodes, at);
      len := len - 1;
    }

    method Rotate()
      requires Valid()
      modifies this, nodes
      ensures Valid() && dup == old(dup) && matches == old(matches)
      ensures nodes == Rotated(old(nodes))
    {
      var last := tail;
      if len <= 1 {
        return;
      }
      TailToHead(last);
    }

    method TailToHead(last: Node<V>)
      requires Valid() && len > 1 && last == tail
      modifies this`head, this`tail, this`nodes, nodes
      ensures Valid() && nodes == Rotated(old(nodes))
    {
      ghost var s := nodes;
      LinkAt(s, len - 1);
      LinkAt(s, len - 2);
      LinkAt(s, 0);
      hide Distinct;
      tail := last.prev;
      tail.next := null;
      head.prev := last;
      last.prev := null;
      last.next := head;
      head := last;
      hide Rotated;
      ChainedRotate(s);
      nodes := Rotated(s);
    }

    /** Negative indices count from the tail. */
    method Index(index: int) returns (n: Node?<V>)
      requires Valid()
      ensures n == Nth(nodes, if index < 0 then |nodes| + index else index)
    {
      if index < 0 {
        var i := -index - 1;
        n := tail;
        while i > 0 && n != null
          invariant i >= 0 && n == Nth(nodes, |nodes| + index + i)
          decreases i
        {
          n := n.prev;
          i := i - 1;
        }
      } else {
        var i := index;
        n := head;
        while i > 0 && n != null
          invariant i >= 0 && n == Nth(nodes, index - i)
          decreases i
        {
          n := n.next;
          i := i - 1;
        }
      }
    }
  }

  function Rotated<T>(s: seq<T>): seq<T> {
    if |s| <= 1 then s else [s[|s| - 1]] + s[..|s| - 1]
  }

  function Rotations<T>(s: seq<T>, n: nat): seq<T> {
    if n == 0 then s else Rotated(Rotations(s, n - 1))
  }

  /** Each rotation brings one more element from the end to the front; a full turn changes nothing. */
  lemma {:induction false} RotationsAre<T>(s: seq<T>, n: nat)
    requires n <= |s|
    ensures Rotations(s, n) == s[|s| - n..] + s[..|s| - n]
    ensures n == |s| ==> Rotations(s, n) == s
  {
    if n > 0 {
      RotationsAre(s, n - 1);
      var r := s[|s| - n + 1..] + s[..|s| - n + 1];
      assert |s| > 1 ==> r[..|r| - 1] == s[|s| - n + 1..] + s[..|s| - n];
      assert s[|s| - n..] == [s[|s| - n]] + s[|s| - n + 1..];
    }
  }

  datatype Direction = StartHead | StartTail

  lemma WalkStarts<V>(list: List<V>, direction: Direction)
    requires list.Valid()
    ensures var first := if direction == StartHead then list.head else list.tail;
            && first == Visit(list.nodes, direction, 0)
            && (first == null <==> list.nodes == [])
            && (first != null ==>
                 Visit(list.nodes, direction, 1) == if direction == StartHead then first.next else first.prev)
  {
  }

  class Iter<V> {
    var next: Node?<V>
    const direction: Direction

    /** listGetIterator */
    constructor (list: List<V>, direction: Direction)
      ensures next == (if direction == StartHead then list.head else list.tail) && this.direction == direction
    {
      next := if direction == StartHead then list.head else list.tail;
      this.direction := direction;
    }

    method Next() returns (current: Node?<V>)
      modifies this
      ensures current == old(next)
      ensures current != null ==> next == if direction == StartHead then current.next else current.prev
      ensures current == null ==> next == null
    {
      current := next;
      if current != null {
        if direction == StartHead {
          next := current.next;
        } else {
          next := current.prev;
        }
      }
    }
  }

  /** The nodes that are not in `doomed`. */
  function Keep<T>(s: seq<T>, doomed: set<T>): seq<T> {
    if s == [] then []
    else Keep(s[..|s| - 1], doomed) + if s[|s| - 1] in doomed then [] else [s[|s| - 1]]
  }

  lemma {:induction false} KeepConcat<T>(a: seq<T>, b: seq<T>, doomed: set<T>)
    ensures Keep(a + b, doomed) == Keep(a, doomed) + Keep(b, doomed)
  {
    if b == [] {
      assert a + b == a;
    } else {
      KeepConcat(a, b[..|b| - 1], doomed);
      assert (a + b)[..|a + b| - 1] == a + b[..|b| - 1];
    }
  }

  /** The node a walk over `s` meets after `k` others. */
  function Visit<V>(s: seq<Node<V>>, direction: Direction, k: int): Node?<V> {
    if direction == StartHead then Nth(s, k) else Nth(s, |s| - 1 - k)
  }

  /** The list once `k` nodes were met, and the doomed among them deleted. */
  function Halfway<V>(s: seq<Node<V>>, direction: Direction, k: nat, doomed: set<Node<V>>): seq<Node<V>>
    requires k <= |s|
  {
    if direction == StartHead then Keep(s[..k], doomed) + s[k..] else s[..|s| - k] + Keep(s[|s| - k..], doomed)
  }

  function Place<V>(s: seq<Node<V>>, direction: Direction, k: nat, doomed: set<Node<V>>): nat
    requires k < |s|
  {
    if direction == StartHead then |Keep(s[..k], doomed)| else |s| - 1 - k
  }

  lemma HalfwayEnds<V>(s: seq<Node<V>>, direction: Direction, doomed: set<Node<V>>)
    ensures Halfway(s, direction, 0, doomed) == s
    ensures Halfway(s, direction, |s|, doomed) == Keep(s, doomed)
  {
    assert s[..0] == [] && s[0..] == s && s[..|s|] == s && s[|s|..] == [];
  }

  /** The walk stands on the node it met, and the next one is beside it. */
  lemma HalfwayPlace<V>(s: seq<Node<V>>, direction: Direction, k: nat, doomed: set<Node<V>>)
    requires k < |s|
    ensures var m := Halfway(s, direction, k, doomed); var p := Place(s, direction, k, doomed);
            && p < |m| && m[p] == Visit(s, direction, k)
            && Visit(s, direction, k + 1) == if direction == StartHead then Nth(m, p + 1) else Nth(m, p - 1)
  {
  }

  lemma HalfwayStep<V>(s: seq<Node<V>>, direction: Direction, k: nat, doomed: set<Node<V>>)
    requires k < |s|
    ensures var m := Halfway(s, direction, k, doomed); var p := Place(s, direction, k, doomed);
            && p < |m|
            && Halfway(s, direction, k + 1, doomed)
               == if Visit(s, direction, k) in doomed then Remove(m, p) else m
  {
    if direction == StartHead {
      assert s[..k + 1] == s[..k] + [s[k]] && s[k..] == [s[k]] + s[k + 1..];
      KeepConcat(s[..k], [s[k]], doomed);
      KeepOne(s[k], doomed);
      hide Keep;
      RemoveMiddle(Keep(s[..k], doomed), s[k], s[k + 1..]);
    } else {
      var i := |s| - 1 - k;
      assert s[..i + 1] == s[..i] + [s[i]] && s[i..] == [s[i]] + s[i + 1..];
      KeepConcat([s[i]], s[i + 1..], doomed);
      KeepOne(s[i], doomed);
      hide Keep;
      RemoveMiddle(s[..i], s[i], Keep(s[i + 1..], doomed));
    }
  }

  lemma RemoveMiddle<T>(a: seq<T>, x: T, c: seq<T>)
    ensures Remove(a + ([x] + c), |a|) == a + c
    ensures Remove((a + [x]) + c, |a|) == a + c
    ensures (a + [x]) + c == a + ([x] + c)
    ensures a + ([] + c) == (a + []) + c == a + c
  {
  }

  lemma KeepOne<T>(x: T, doomed: set<T>)
    ensures Keep([x], doomed) == if x in doomed then [] else [x]
  {
    assert [x][..0] == [];
    assert Keep([x], doomed) == Keep([x][..0], doomed) + if x in doomed then [] else [x];
  }

  function Reversed<T>(s: seq<T>): (r: seq<T>)
    ensures |r| == |s|
  {
    seq(|s|, i requires 0 <= i < |s| => s[|s| - 1 - i])
  }

  lemma VisitNull<V>(s: seq<Node<V>>, direction: Direction, k: nat)
    ensures Visit(s, direction, k) == null <==> k >= |s|
  {
  }

  lemma VisitAll<V>(s: seq<Node<V>>, direction: Direction, visited: seq<Node<V>>)
    requires |visited| == |s| && forall k :: 0 <= k < |s| ==> visited[k] == Visit(s, direction, k)
    ensures visited == if direction == StartHead then s else Reversed(s)
  {
  }

  lemma HalfwayWithin<V>(s: seq<Node<V>>, direction: Direction, k: nat, doomed: set<Node<V>>)
    requires k <= |s|
    ensures var m := Halfway(s, direction, k, doomed); forall i :: 0 <= i < |m| ==> m[i] in s
  {
    KeepWithin(s[..k], doomed);
    KeepWithin(s[|s| - k..], doomed);
    assert forall x :: x in s[..k] || x in s[k..] || x in s[..|s| - k] || x in s[|s| - k..] ==> x in s;
    hide Keep;
    if direction == StartHead {
      ConcatWithin(Keep(s[..k], doomed), s[k..], s);
    } else {
      ConcatWithin(s[..|s| - k], Keep(s[|s| - k..], doomed), s);
    }
  }

  lemma ConcatWithin<T>(a: seq<T>, b: seq<T>, s: seq<T>)
    requires forall x :: x in a || x in b ==> x in s
    ensures forall i :: 0 <= i < |a + b| ==> (a + b)[i] in s
  {
    forall i | 0 <= i < |a + b| ensures (a + b)[i] in s {
      assert (a + b)[i] == if i < |a| then a[i] else b[i - |a|];
    }
  }

  lemma {:induction false} KeepWithin<T>(s: seq<T>, doomed: set<T>)
    ensures forall x :: x in Keep(s, doomed) <==> x in s && x !in doomed
  {
    if s != [] {
      KeepWithin(s[..|s| - 1], doomed);
      assert s == s[..|s| - 1] + [s[|s| - 1]];
    }
  }

  /** The body of the walk: maybe delete the node it was given, then ask for the next one. */
  method SweepStep<V>(list: List<V>, iter: Iter<V>, node: Node<V>, doomed: set<Node<V>>,
                      ghost s: seq<Node<V>>, ghost k: nat)
    returns (after: Node?<V>)
    requires list.Valid() && k < |s| && list.nodes == Halfway(s, iter.direction, k, doomed)
    requires node == Visit(s, iter.direction, k) && iter.next == Visit(s, iter.direction, k + 1)
    modifies list, s, iter
    ensures list.Valid() && list.nodes == Halfway(s, iter.direction, k + 1, doomed)
    ensures after == Visit(s, iter.direction, k + 1)
    ensures after != null ==> iter.next == Visit(s, iter.direction, k + 2)
  {
    hide List.Valid, Halfway, Place, Keep, Visit, Nth, Remove;
    HalfwayPlace(s, iter.direction, k, doomed);
    HalfwayStep(s, iter.direction, k, doomed);
    HalfwayWithin(s, iter.direction, k, doomed);
    if node in doomed {
      list.DelNode(node, Place(s, iter.direction, k, doomed));
    }
    after := iter.Next();
    VisitNull(s, iter.direction, k + 1);
    if k + 1 < |s| {
      HalfwayPlace(s, iter.direction, k + 1, doomed);
      list.LinkOf(Place(s, iter.direction, k + 1, doomed));
    }
  }

  /** A walk that deletes any of the nodes it is given still meets every node of the list once. */
  method Sweep<V>(list: List<V>, direction: Direction, doomed: set<Node<V>>) returns (visited: seq<Node<V>>)
    requires list.Valid()
    modifies list, list.nodes
    ensures list.Valid()
    ensures visited == if direction == StartHead then old(list.nodes) else Reversed(old(list.nodes))
    ensures list.nodes == Keep(old(list.nodes), doomed)
  {
    hide List.Valid, Halfway, Place, Keep, Visit, Nth, Remove;
    ghost var s := list.nodes;
    HalfwayEnds(s, direction, doomed);
    WalkStarts(list, direction);
    var iter := new Iter(list, direction);
    visited := [];
    var node := iter.Next();
    while node != null
      invariant list.Valid() && |visited| <= |s|
      invariant list.nodes == Halfway(s, direction, |visited|, doomed)
      invariant forall k :: 0 <= k < |visited| ==> visited[k] == Visit(s, direction, k)
      invariant node == Visit(s, direction, |visited|)
      invariant node != null ==> iter.next == Visit(s, direction, |visited| + 1)
      decreases |s| - |visited|
    {
      VisitNull(s, direction, |visited|);
      visited := visited + [node];
      node := SweepStep(list, iter, node, doomed, s, |visited| - 1);
    }
    VisitNull(s, direction, |visited|);
    VisitAll(s, direction, visited);
  }

  /** The copies of all values, or None when one cannot be copied. */
  function Copies<V>(values: seq<V>, dup: Option<V -> Option<V>>): Option<seq<V>> {
    if values == [] then Some([])
    else
      var front := Copies(values[..|values| - 1], dup);
      if front == None then None
      else
        var last := Copy(values[|values| - 1], dup);
        if last == None then None else Some(front.value + [last.value])
  }

  function Copy<V>(value: V, dup: Option<V -> Option<V>>): Option<V> {
    if dup == None then Some(value) else dup.value(value)
  }

  /** Copying shares no node with the original, which keeps its links. */
  method Dup<V>(orig: List<V>) returns (copy: Option<List<V>>)
    requires orig.Valid()
    ensures copy == None <==> Copies(Values(orig.nodes), orig.dup) == None
    ensures copy != None ==>
      && copy.value.Valid() && fresh(copy.value) && fresh(copy.value.nodes)
      && copy.value.dup == orig.dup && copy.value.matches == orig.matches
      && Copies(Values(orig.nodes), orig.dup) == Some(Values(copy.value.nodes))
  {
    ghost var k := 0;
    ghost var s := orig.nodes;
    DupStarts(orig);
    hide Copies, Copy, Values, List.Valid, Nth, Visit, Chained, Distinct, Insert;
    NthNull(s, 0);
    var c := EmptyCopy(orig);
    var iter := new Iter(orig, StartHead);
    var node := iter.Next();
    while node != null
      invariant c.Valid() && fresh(c) && fresh(c.nodes) && c.dup == orig.dup && c.matches == orig.matches
      invariant 0 <= k <= |s| && Copies(Values(s[..k]), orig.dup) == Some(Values(c.nodes))
      invariant node == Nth(s, k) && (node != null ==> iter.next == Nth(s, k + 1))
      invariant forall j {:trigger s[j].next} :: 0 <= j < |s| ==> s[j].next == Nth(s, j + 1)
      decreases |s| - k
    {
      NthNull(s, k);
      var ok := CopyOne(c, node, s, k);
      if !ok {
        return None;
      }
      k := k + 1;
      node := iter.Next();
      NthNull(s, k);
    }
    NthNull(s, k);
    copy := Some(c);
  }

  /** A new list with the same methods. */
  method EmptyCopy<V>(orig: List<V>) returns (c: List<V>)
    ensures c.Valid() && fresh(c) && c.nodes == [] && c.dup == orig.dup && c.matches == orig.matches
  {
    c := new List<V>();
    c.SetMethods(orig.dup, orig.matches);
  }

  lemma DupStarts<V>(orig: List<V>)
    requires orig.Valid()
    ensures var s := orig.nodes;
            && orig.head == Nth(s, 0)
            && (forall j {:trigger s[j].next} :: 0 <= j < |s| ==> s[j].next == Nth(s, j + 1))
            && s[..|s|] == s && Copies(Values(s[..0]), orig.dup) == Some([]) && Values<V>([]) == []
  {
  }

  /** The body of the copying loop. */
  method CopyOne<V>(c: List<V>, node: Node<V>, ghost s: seq<Node<V>>, ghost k: nat) returns (ok: bool)
    requires c.Valid() && k < |s| && node == s[k] && Copies(Values(s[..k]), c.dup) == Some(Values(c.nodes))
    modifies c, c.nodes
    ensures c.Valid() && c.dup == old(c.dup) && c.matches == old(c.matches)
    ensures forall i :: 0 <= i < |c.nodes| ==> c.nodes[i] in old(c.nodes) || fresh(c.nodes[i])
    ensures !ok ==> Copies(Values(s), c.dup) == None
    ensures ok ==> Copies(Values(s[..k + 1]), c.dup) == Some(Values(c.nodes))
  {
    hide Copies, Copy, Values, List.Valid;
    CopiesStep(s, k, c.dup);
    var value := Some(node.value);
    if c.dup != None {
      value := c.dup.value(node.value);
      if value == None {
        return false;
      }
    }
    ghost var before := c.nodes;
    c.AddNodeTail(value.value);
    ValuesSnoc(before, c.nodes);
    forall i | 0 <= i < |before| ensures c.nodes[i] in before {
      assert c.nodes[i] == c.nodes[..|before|][i];
    }
    ok := true;
  }

  lemma ValuesSnoc<V>(s: seq<Node<V>>, t: seq<Node<V>>)
    requires |t| == |s| + 1 && t[..|s|] == s
    ensures Values(t) == Values(s) + [t[|s|].value]
  {
  }

  lemma NthNull<V>(s: seq<Node<V>>, k: nat)
    ensures Nth(s, k) == if k < |s| then s[k] else null
  {
  }

  lemma CopiesStep<V>(s: seq<Node<V>>, k: nat, dup: Option<V -> Option<V>>)
    requires k < |s|
    requires Copies(Values(s[..k]), dup) != None
    ensures Copy(s[k].value, dup) == if dup == None then Some(s[k].value) else dup.value(s[k].value)
    ensures Copy(s[k].value, dup) != None ==>
      Copies(Values(s[..k + 1]), dup) == Some(Copies(Values(s[..k]), dup).value + [Copy(s[k].value, dup).value])
    ensures Copy(s[k].value, dup) == None ==> Copies(Values(s), dup) == None
  {
    ValuesSnoc(s[..k], s[..k + 1]);
    assert Values(s[..k + 1])[..k] == Values(s[..k]);
    if Copy(s[k].value, dup) == None {
      CopiesFail(s, k, dup);
    }
  }

  lemma {:induction false} CopiesFail<V>(s: seq<Node<V>>, k: nat, dup: Option<V -> Option<V>>)
    requires k < |s| && Copy(s[k].value, dup) == None
    ensures Copies(Values(s), dup) == None
    decreases |s|
  {
    var n := |s| - 1;
    ValuesSnoc(s[..n], s);
    assert Values(s)[..n] == Values(s[..n]);
    if k < n {
      CopiesFail(s[..n], k, dup);
    }
  }

  /** Whether a node's value answers to `key`. */
  predicate Answers<V(==)>(value: V, key: V, matches: Option<(V, V) -> bool>) {
    if matches == None then key == value else matches.value(value, key)
  }

  /** The first node whose value matches. */
  method SearchKey<V(==)>(list: List<V>, key: V) returns (found: Node?<V>)
    requires list.Valid()
    ensures found == null ==> forall n <- list.nodes :: !Answers(n.value, key, list.matches)
    ensures found != null ==>
      exists i ::
        && 0 <= i < |list.nodes| && list.nodes[i] == found
        && Answers(found.value, key, list.matches)
        && forall n <- list.nodes[..i] :: !Answers(n.value, key, list.matches)
  {
    WalkStarts(list, StartHead);
    var iter := new Iter(list, StartHead);
    ghost var k := 0;
    ghost var s := list.nodes;
    var node := iter.Next();
    while node != null
      invariant 0 <= k <= |s| && forall n <- s[..k] :: !Answers(n.value, key, list.matches)
      invariant node == Nth(s, k) && (node != null ==> iter.next == Nth(s, k + 1))
      decreases |s| - k
    {
      if list.matches != None {
        if list.matches.value(node.value, key) {
          return node;
        }
      } else {
        if key == node.value {
          return node;
        }
      }
      k := k + 1;
      node := iter.Next();
      if k < |s| {
        list.LinkOf(k);
      }
    }
    found := null;
  }
}
