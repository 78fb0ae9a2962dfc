/** The zipmap of zipmap.c: a string-to-string map packed into one byte buffer.

    A buffer is `<count> entry* <255>`, and an entry is
    `<len>key<len><free>value` followed by `free` unused bytes.  A `<len>` takes one
    byte below 254 and five bytes otherwise.  The first half of this file says what a
    sequence of entries looks like as bytes; the class at the end edits the bytes in
    place, pointer by pointer, and is proved to edit the sequence of entries. */
module Zipmaps {
  import opened Bytes
  import opened Seqs
  import opened Wrappers

  const BIGLEN: byte := 254
  const END: byte := 255
  const VALUE_MAX_FREE := 4

  /** One stored pair; `slack` is what the unused bytes after the value happen to hold. */
  datatype Entry = Entry(key: seq<byte>, val: seq<byte>, slack: seq<byte>)

  // ---------- Lengths ----------

  function LenBytes(n: nat): nat {
    if n < BIGLEN then 1 else 5
  }

  function EncodeLength(n: nat): (s: seq<byte>)
    requires n < UINT_LIMIT
    ensures |s| == LenBytes(n) && s[0] != END
  {
    if n < BIGLEN then [n]
    else
      var q1 := n / 256;
      var q2 := q1 / 256;
      var q3 := q2 / 256;
      [BIGLEN, n % 256, q1 % 256, q2 % 256, q3]
  }

  ghost predicate HasLength(s: seq<byte>, p: nat) {
    p < |s| && (s[p] < BIGLEN || p + 5 <= |s|)
  }

  function DecodeLength(s: seq<byte>, p: nat): nat
    requires HasLength(s, p)
  {
    if s[p] < BIGLEN then s[p]
    else (s[p + 1] as int) + 0x100 * (s[p + 2] as int) + 0x1_0000 * (s[p + 3] as int) + 0x100_0000 * (s[p + 4] as int)
  }

  lemma LengthRoundTrip(s: seq<byte>, p: nat, n: nat)
    requires n < UINT_LIMIT
    requires p + LenBytes(n) <= |s| && s[p..p + LenBytes(n)] == EncodeLength(n)
    ensures HasLength(s, p) && DecodeLength(s, p) == n && s[p] != END
  {
    var t := EncodeLength(n);
    assert forall i :: 0 <= i < |t| ==> s[p + i] == s[p..p + LenBytes(n)][i] == t[i];
    assert s[p] == s[p + 0] == t[0];
    if n >= BIGLEN {
      assert s[p + 1] == t[1] && s[p + 2] == t[2] && s[p + 3] == t[3] && s[p + 4] == t[4];
    }
  }

  // ---------- The bytes of an entry ----------

  /** Bytes an entry needs without slack: zipmapRequiredLength. */
  function RequiredLength(klen: nat, vlen: nat): nat {
    klen + vlen + 3 + (if klen >= BIGLEN then 4 else 0) + (if vlen >= BIGLEN then 4 else 0)
  }

  function Head(key: seq<byte>, val: seq<byte>, free: byte): (s: seq<byte>)
    requires |key| < UINT_LIMIT && |val| < UINT_LIMIT
    ensures |s| == RequiredLength(|key|, |val|)
  {
    EncodeLength(|key|) + key + EncodeLength(|val|) + [free] + val
  }

  ghost predicate Storable(e: Entry) {
    |e.key| < UINT_LIMIT && |e.val| < UINT_LIMIT && |e.slack| < VALUE_MAX_FREE
  }

  function RawLength(e: Entry): (n: nat)
    ensures n >= 3
  {
    RequiredLength(|e.key|, |e.val|) + |e.slack|
  }

  function Encode(e: Entry): (s: seq<byte>)
    requires Storable(e)
    ensures |s| == RawLength(e) && s[0] != END
  {
    Head(e.key, e.val, |e.slack|) + e.slack
  }

  /** A length as it is stored: one byte below 254, or 254 and four bytes, the lowest first. */
  ghost predicate LengthField(f: seq<byte>, n: nat) {
    if n < 254 then f == [n]
    else
      && |f| == 5 && f[0] == 254
      && f[1] as int + 0x100 * f[2] as int + 0x1_0000 * f[3] as int + 0x100_0000 * f[4] as int == n
  }

  lemma LengthFieldIs(f: seq<byte>, n: nat)
    requires n < UINT_LIMIT
    ensures EncodeLength(n) == f <==> LengthField(f, n)
  {
    if LengthField(f, n) && n >= 254 {
      var q := n / 256;
      assert n % 256 == f[1] as int && q == f[2] as int + 0x100 * f[3] as int + 0x1_0000 * f[4] as int;
      assert q % 256 == f[2] as int && q / 256 == f[3] as int + 0x100 * f[4] as int;
    }
  }

  /** The layout of an entry, byte by byte. */
  lemma EncodeExactly(e: Entry, s: seq<byte>)
    requires Storable(e)
    ensures Encode(e) == s
       <==> exists a, b :: LengthField(a, |e.key|) && LengthField(b, |e.val|)
                           && s == a + e.key + b + [|e.slack| as byte] + e.val + e.slack
  {
    hide EncodeLength, LengthField;
    LengthFieldIs(EncodeLength(|e.key|), |e.key|);
    LengthFieldIs(EncodeLength(|e.val|), |e.val|);
    forall a, b | LengthField(a, |e.key|) && LengthField(b, |e.val|)
      ensures a == EncodeLength(|e.key|) && b == EncodeLength(|e.val|)
    {
      LengthFieldIs(a, |e.key|);
      LengthFieldIs(b, |e.val|);
    }
  }

  lemma EncodeWithoutSlack(key: seq<byte>, val: seq<byte>)
    requires |key| < UINT_LIMIT && |val| < UINT_LIMIT
    ensures Encode(Entry(key, val, [])) == Head(key, val, 0)
  {
  }

  /** Where the value of an entry starting at `p` begins (its length field). */
  function ValueAt(p: nat, e: Entry): nat {
    p + LenBytes(|e.key|) + |e.key|
  }

  ghost predicate EntryAt(s: seq<byte>, p: nat, e: Entry)
    requires Storable(e)
  {
    p + RawLength(e) <= |s| && s[p..p + RawLength(e)] == Encode(e)
  }

  /** Every offset the C code computes inside an entry lands on the field it is meant for. */
  lemma EntryFields(s: seq<byte>, p: nat, e: Entry)
    requires Storable(e) && EntryAt(s, p, e)
    ensures HasLength(s, p) && DecodeLength(s, p) == |e.key| && s[p] != END
    ensures s[p + LenBytes(|e.key|)..ValueAt(p, e)] == e.key
    ensures HasLength(s, ValueAt(p, e)) && DecodeLength(s, ValueAt(p, e)) == |e.val|
    ensures var q := ValueAt(p, e) + LenBytes(|e.val|);
            s[q] == |e.slack| && s[q + 1..q + 1 + |e.val|] == e.val &&
            s[q + 1 + |e.val|..p + RawLength(e)] == e.slack
  {
    hide EncodeLength, DecodeLength;
    var v := ValueAt(p, e);
    var q := v + LenBytes(|e.val|);
    SixPartsAt(s, p, EncodeLength(|e.key|), e.key, EncodeLength(|e.val|), [|e.slack| as byte], e.val, e.slack);
    LengthRoundTrip(s, p, |e.key|);
    LengthRoundTrip(s, v, |e.val|);
    assert s[q..q + 1][0] == s[q];
  }

  lemma EntryUnique(s: seq<byte>, p: nat, x: Entry, y: Entry)
    requires Storable(x) && Storable(y) && EntryAt(s, p, x) && EntryAt(s, p, y)
    ensures x == y
  {
    hide EncodeLength, DecodeLength, Encode;
    EntryFields(s, p, x);
    EntryFields(s, p, y);
    assert |x.key| == |y.key| && x.key == y.key;
    assert |x.val| == |y.val| && x.val == y.val;
    assert |x.slack| == |y.slack| && x.slack == y.slack;
  }

  // ---------- The bytes of a whole map ----------

  ghost predicate AllStorable(es: seq<Entry>) {
    forall i :: 0 <= i < |es| ==> Storable(es[i])
  }

  function Encodings(es: seq<Entry>): (parts: seq<seq<byte>>)
    requires AllStorable(es)
    ensures |parts| == |es|
  {
    seq(|es|, i requires 0 <= i < |es| => Encode(es[i]))
  }

  /** A whole buffer: count byte, entries, end byte. */
  function Frame(count: byte, parts: seq<seq<byte>>): seq<byte> {
    [count] + Flatten(parts) + [END]
  }

  function Image(count: byte, es: seq<Entry>): seq<byte>
    requires AllStorable(es)
  {
    Frame(count, Encodings(es))
  }

  /** Distance from the start of the buffer to entry `i`. */
  function Offset(es: seq<Entry>, i: nat): nat
    requires AllStorable(es) && i <= |es|
  {
    1 + |Flatten(Encodings(es)[..i])|
  }

  lemma OffsetZero(es: seq<Entry>)
    requires AllStorable(es)
    ensures Offset(es, 0) == 1
  {
    assert Encodings(es)[..0] == [];
  }

  lemma OffsetPositive(es: seq<Entry>, i: nat)
    requires AllStorable(es) && i <= |es|
    ensures Offset(es, i) >= 1
  {
  }

  lemma FrameAt(count: byte, parts: seq<seq<byte>>, i: nat)
    requires i < |parts|
    ensures var s, p := Frame(count, parts), 1 + |Flatten(parts[..i])|;
            && p + |parts[i]| == 1 + |Flatten(parts[..i + 1])| < |s|
            && s[..p] == [count] + Flatten(parts[..i])
            && s[p..p + |parts[i]|] == parts[i]
            && s[p + |parts[i]|..] == Flatten(parts[i + 1..]) + [END]
  {
    hide Flatten;
    FlattenAt(parts, i);
    FlattenPrefix(parts, i);
    assert Frame(count, parts) == ([count] + Flatten(parts[..i])) + parts[i] + (Flatten(parts[i + 1..]) + [END]);
  }

  /** What stands at the boundary before entry `i`: the entry itself, or the end byte. */
  lemma AtBoundary(count: byte, es: seq<Entry>, i: nat)
    requires AllStorable(es) && i <= |es|
    ensures var s := Image(count, es);
            if i == |es| then Offset(es, i) + 1 == |s| && s[Offset(es, i)] == END
            else EntryAt(s, Offset(es, i), es[i]) && Offset(es, i + 1) == Offset(es, i) + RawLength(es[i])
                 && Offset(es, i + 1) < |s|
  {
    hide Flatten, Encode;
    var parts := Encodings(es);
    if i < |es| {
      FrameAt(count, parts, i);
      assert parts[i] == Encode(es[i]);
    } else {
      assert parts[..i] == parts;
    }
  }

  lemma FrameSplice(count: byte, parts: seq<seq<byte>>, i: nat, mid: seq<seq<byte>>)
    requires i < |parts|
    ensures var s, p := Frame(count, parts), 1 + |Flatten(parts[..i])|;
            && p + |parts[i]| <= |s|
            && s[..p] + Flatten(mid) + s[p + |parts[i]|..] == Frame(count, parts[..i] + mid + parts[i + 1..])
  {
    hide Flatten;
    FrameAt(count, parts, i);
    var a, b, m := Flatten(parts[..i]), Flatten(parts[i + 1..]), Flatten(mid);
    assert Flatten(parts[..i] + mid + parts[i + 1..]) == a + m + b by {
      FlattenConcat(parts[..i], mid);
      FlattenConcat(parts[..i] + mid, parts[i + 1..]);
    }
    Regroup([count], a, m, b, [END]);
  }

  /** Overwriting the bytes of entry `i` with those of another is the same edit of the list. */
  lemma ReplaceImage(count: byte, es: seq<Entry>, i: nat, e: Entry)
    requires AllStorable(es) && i < |es| && Storable(e)
    ensures var s, p := Image(count, es), Offset(es, i);
            && p + RawLength(es[i]) <= |s|
            && s[..p] + Encode(e) + s[p + RawLength(es[i])..] == Image(count, es[i := e])
  {
    hide Flatten, Encode;
    var parts := Encodings(es);
    FrameSplice(count, parts, i, [Encode(e)]);
    FlattenOne(Encode(e));
    assert parts[..i] + [Encode(e)] + parts[i + 1..] == Encodings(es[i := e]);
  }

  /** Cutting out the bytes of entry `i` removes it from the list. */
  lemma CutImage(count: byte, es: seq<Entry>, i: nat)
    requires AllStorable(es) && i < |es|
    ensures var s, p := Image(count, es), Offset(es, i);
            && p + RawLength(es[i]) <= |s|
            && s[..p] + s[p + RawLength(es[i])..] == Image(count, es[..i] + es[i + 1..])
  {
    hide Flatten, Encode;
    var parts := Encodings(es);
    FrameSplice(count, parts, i, []);
    var s, p := Image(count, es), Offset(es, i);
    FlattenNil<byte>();
    assert s[..p] + [] == s[..p];
    assert parts[..i] + [] + parts[i + 1..] == Encodings(es[..i] + es[i + 1..]);
  }

  lemma AppendImage(count: byte, es: seq<Entry>, e: Entry)
    requires AllStorable(es) && Storable(e)
    ensures var s := Image(count, es);
            s[..|s| - 1] + Encode(e) + [END] == Image(count, es + [e])
  {
    hide Flatten, Encode;
    var parts := Encodings(es);
    FlattenConcat(parts, [Encode(e)]);
    FlattenOne(Encode(e));
    assert parts + [Encode(e)] == Encodings(es + [e]);
    assert Frame(count, parts)[..|Frame(count, parts)| - 1] == [count] + Flatten(parts);
  }

  lemma ImageEnds(count: byte, es: seq<Entry>)
    requires AllStorable(es)
    ensures var s := Image(count, es); |s| >= 2 && s[0] == count && s[|s| - 1] == END
  {
  }

  lemma RecountImage(count: byte, count': byte, es: seq<Entry>)
    requires AllStorable(es)
    ensures Image(count, es)[0 := count'] == Image(count', es)
  {
  }

  /** Overwriting the END byte of an enlarged, recounted image with an entry adds that entry. */
  lemma InsertedImage(s: seq<byte>, t: seq<byte>, c: byte, c': byte, es: seq<Entry>, key: seq<byte>, val: seq<byte>)
    requires AllStorable(es) && s == Image(c, es)
    requires |key| < UINT_LIMIT && |val| < UINT_LIMIT && |t| == |s| + RequiredLength(|key|, |val|)
    requires t[..|s| - 1] == s[0 := c'][..|s| - 1] && t[|t| - 1] == END
    ensures var es' := es + [Entry(key, val, [])];
            AllStorable(es') && Splice(t, |s| - 1, Head(key, val, 0)) == Image(c', es')
  {
    hide Image, Encode, Head;
    var e := Entry(key, val, []);
    RecountImage(c, c', es);
    ImageEnds(c, es);
    EncodeWithoutSlack(key, val);
    AppendImage(c', es, e);
    var head := Head(key, val, 0);
    assert t[|s| - 1 + |head|..] == [END];
    assert Splice(t, |s| - 1, head) == s[0 := c'][..|s| - 1] + head + [END];
  }

  /** No two entry lists share an image: the bytes determine the map. */
  lemma {:induction false} ImageInjective(count: byte, a: seq<Entry>, b: seq<Entry>)
    requires AllStorable(a) && AllStorable(b)
    requires Image(count, a) == Image(count, b)
    ensures a == b
    decreases |a|
  {
    hide Flatten, Encode, Image, Frame, Encodings, RequiredLength, Offset;
    OffsetZero(a);
    OffsetZero(b);
    AtBoundary(count, a, 0);
    AtBoundary(count, b, 0);
    var s := Image(count, a);
    if a != [] && b != [] {
      EntryUnique(s, 1, a[0], b[0]);
      CutImage(count, a, 0);
      CutImage(count, b, 0);
      assert a[..0] + a[1..] == a[1..] && b[..0] + b[1..] == b[1..];
      ImageInjective(count, a[1..], b[1..]);
      assert a == [a[0]] + a[1..] && b == [b[0]] + b[1..];
    }
  }

  // ---------- The list of pairs as a map ----------

  ghost predicate DistinctKeys(es: seq<Entry>) {
    forall i, j :: 0 <= i < j < |es| ==> es[i].key != es[j].key
  }

  ghost predicate HasKey(es: seq<Entry>, key: seq<byte>) {
    exists i :: 0 <= i < |es| && es[i].key == key
  }

  /** Position of the first entry with this key; the length of the list if there is none. */
  function Find(es: seq<Entry>, key: seq<byte>): (i: nat)
    ensures i <= |es|
    ensures i < |es| ==> es[i].key == key
    ensures forall j :: 0 <= j < i ==> es[j].key != key
    ensures i < |es| <==> HasKey(es, key)
  {
    if es == [] then 0
    else if es[0].key == key then 0
    else
      assert HasKey(es, key) ==> HasKey(es[1..], key) by {
        if HasKey(es, key) {
          var j :| 0 <= j < |es| && es[j].key == key;
          assert es[1..][j - 1].key == key;
        }
      }
      assert HasKey(es[1..], key) ==> HasKey(es, key) by {
        if HasKey(es[1..], key) {
          var j :| 0 <= j < |es[1..]| && es[1..][j].key == key;
          assert es[j + 1].key == key;
        }
      }
      1 + Find(es[1..], key)
  }

  // The reference model: an association list, oldest key first.

  type Pair = (seq<byte>, seq<byte>)

  function Pairs(es: seq<Entry>): seq<Pair> {
    seq(|es|, i requires 0 <= i < |es| => (es[i].key, es[i].val))
  }

  function Index(ps: seq<Pair>, key: seq<byte>): (i: nat)
    ensures i <= |ps| && (i < |ps| ==> ps[i].0 == key)
    ensures forall j :: 0 <= j < i ==> ps[j].0 != key
  {
    if ps == [] || ps[0].0 == key then 0 else 1 + Index(ps[1..], key)
  }

  function Lookup(ps: seq<Pair>, key: seq<byte>): Option<seq<byte>> {
    var i := Index(ps, key);
    if i == |ps| then None else Some(ps[i].1)
  }

  function Put(ps: seq<Pair>, key: seq<byte>, val: seq<byte>): seq<Pair> {
    var i := Index(ps, key);
    if i == |ps| then ps + [(key, val)] else ps[i := (key, val)]
  }

  function Drop(ps: seq<Pair>, key: seq<byte>): seq<Pair> {
    var i := Index(ps, key);
    if i == |ps| then ps else ps[..i] + ps[i + 1..]
  }

  ghost predicate Distinct(ps: seq<Pair>) {
    forall i, j :: 0 <= i < j < |ps| ==> ps[i].0 != ps[j].0
  }

  lemma IndexOfPairs(es: seq<Entry>, key: seq<byte>)
    ensures Index(Pairs(es), key) == Find(es, key)
  {
    var i, j := Index(Pairs(es), key), Find(es, key);
    assert i < |es| ==> Pairs(es)[i].0 == es[i].key;
    assert j < |es| ==> Pairs(es)[j].0 == es[j].key;
  }

  /** Setting a key is a map update. */
  lemma PutLookup(ps: seq<Pair>, key: seq<byte>, val: seq<byte>, k: seq<byte>)
    ensures Lookup(Put(ps, key, val), k) == if k == key then Some(val) else Lookup(ps, k)
  {
    hide Index;
    var i, j, j' := Index(ps, key), Index(ps, k), Index(Put(ps, key, val), k);
    var ps' := Put(ps, key, val);
    assert forall a :: 0 <= a < |ps| ==> ps'[a].0 == ps[a].0;
    assert i == |ps| ==> ps'[i] == (key, val);
    assert k == key ==> j' == i;
    assert k != key ==> j' == if j == |ps| then |ps'| else j;
  }

  /** Deleting a key removes it from the map and touches no other. */
  lemma DropLookup(ps: seq<Pair>, key: seq<byte>, k: seq<byte>)
    requires Distinct(ps)
    ensures Lookup(Drop(ps, key), k) == if k == key then None else Lookup(ps, k)
  {
    hide Index;
    var i, j, j' := Index(ps, key), Index(ps, k), Index(Drop(ps, key), k);
    var ps' := Drop(ps, key);
    if i < |ps| {
      assert forall a :: 0 <= a < |ps'| ==> ps'[a] == ps[if a < i then a else a + 1];
      if k == key {
        assert forall a :: 0 <= a < |ps| && a != i ==> ps[a].0 != key;
        assert j' == |ps'|;
      } else if j < |ps| {
        assert ps'[if j < i then j else j - 1] == ps[j];
        assert j' == if j < i then j else j - 1;
      } else {
        assert j' == |ps'|;
      }
    }
  }

  /** Slack left behind when `e` is overwritten with a value of `vlen` bytes. */
  function NewSlack(e: Entry, vlen: nat): nat {
    var req := RequiredLength(|e.key|, vlen);
    if RawLength(e) >= req && RawLength(e) - req < VALUE_MAX_FREE then RawLength(e) - req else 0
  }

  /** The bytes that setting `key` can reuse. */
  ghost function OldLength(es: seq<Entry>, key: seq<byte>): nat {
    if HasKey(es, key) then RawLength(es[Find(es, key)]) else 0
  }

  /** `es'` is `es` with `key` set to `val`: replaced where it stands, or appended. */
  ghost predicate IsSet(es: seq<Entry>, key: seq<byte>, val: seq<byte>, es': seq<Entry>) {
    var i := Find(es, key);
    if i == |es| then es' == es + [Entry(key, val, [])]
    else |es'| == |es| && es'[i].key == key && es'[i].val == val
         && |es'[i].slack| == NewSlack(es[i], |val|) && es' == es[i := es'[i]]
  }

  function Removed(es: seq<Entry>, key: seq<byte>): seq<Entry> {
    var i := Find(es, key);
    if i == |es| then es else es[..i] + es[i + 1..]
  }

  lemma SetKeepsDistinct(es: seq<Entry>, key: seq<byte>, val: seq<byte>, es': seq<Entry>)
    requires DistinctKeys(es) && IsSet(es, key, val, es')
    ensures DistinctKeys(es')
  {
    var i := Find(es, key);
    forall a, b | 0 <= a < b < |es'| ensures es'[a].key != es'[b].key {
      if i < |es| {
        assert es'[a].key == es[a].key && es'[b].key == es[b].key;
      }
    }
  }

  lemma SetIsPut(es: seq<Entry>, key: seq<byte>, val: seq<byte>, es': seq<Entry>)
    requires IsSet(es, key, val, es')
    ensures Pairs(es') == Put(Pairs(es), key, val)
  {
    IndexOfPairs(es, key);
  }

  lemma RemovedIsDrop(es: seq<Entry>, key: seq<byte>)
    requires DistinctKeys(es)
    ensures DistinctKeys(Removed(es, key))
    ensures Pairs(Removed(es, key)) == Drop(Pairs(es), key)
  {
    hide Find;
    IndexOfPairs(es, key);
    var i, es' := Find(es, key), Removed(es, key);
    assert i < |es| ==> forall a :: 0 <= a < |es'| ==> es'[a] == es[if a < i then a else a + 1];
  }

  /** Writing into the room made in `s` (which gives `t`) replaces entry `i`. */
  lemma Overwritten(s: seq<byte>, t: seq<byte>, es: seq<Entry>, i: nat, val: seq<byte>, vempty: byte)
    returns (e: Entry)
    requires |s| > 0 && AllStorable(es) && s == Image(s[0], es)
    requires i < |es| && |val| < UINT_LIMIT && vempty < VALUE_MAX_FREE
    requires var p, q := Offset(es, i), Offset(es, i) + RawLength(es[i]);
             var r := p + RequiredLength(|es[i].key|, |val|);
             q <= |s| && r + vempty <= |t| && t[..p] == s[..p] && t[r + vempty..] == s[q..]
    ensures e.key == es[i].key && e.val == val && |e.slack| == vempty
    ensures AllStorable(es[i := e])
    ensures Splice(t, Offset(es, i), Head(e.key, val, vempty)) == Image(s[0], es[i := e])
    ensures Image(s[0], es[i := e])[0] == s[0]
  {
    hide Image, Encodings, RequiredLength, Splice, EncodeLength, Offset;
    var p, q := Offset(es, i), Offset(es, i) + RawLength(es[i]);
    var r := p + RequiredLength(|es[i].key|, |val|);
    var slack := t[r..r + vempty];
    e := Entry(es[i].key, val, slack);
    assert t[r..] == slack + s[q..] by {
      assert t[r..] == t[r..r + vempty] + t[r + vempty..];
    }
    SpliceEdited(t, s, p, q, Head(e.key, val, vempty), slack);
    ReplaceImage(s[0], es, i, e);
    ImageEnds(s[0], es[i := e]);
  }

  // ---------- The buffer ----------

  class Zipmap {
    var zm: array<byte>
    ghost var entries: seq<Entry>

    ghost predicate Valid()
      reads this, zm
    {
      && 0 < zm.Length < UINT_LIMIT
      && AllStorable(entries) && DistinctKeys(entries)
      && zm[0] <= BIGLEN
      && (zm[0] < BIGLEN ==> zm[0] == |entries|)
      && zm[..] == Image(zm[0], entries)
    }

    /** zipmapNew */
    constructor ()
      ensures Valid() && fresh(zm) && entries == []
    {
      zm := new byte[2];
      entries := [];
      new;
      zm[0] := 0;
      zm[1] := END;
    }

    /** zipmapDecodeLength */
    method LengthAt(p: nat) returns (n: nat)
      requires HasLength(zm[..], p)
      ensures n == DecodeLength(zm[..], p)
    {
      n := zm[p];
      if n >= BIGLEN {
        n := zm[p + 1] as nat + 0x100 * (zm[p + 2] as nat) + 0x1_0000 * (zm[p + 3] as nat)
             + 0x100_0000 * (zm[p + 4] as nat);
      }
    }

    /** What the bytes from the boundary of entry `i` on say. */
    lemma ReadEntry(i: nat)
      requires Valid() && i <= |entries|
      ensures var p := Offset(entries, i);
              if i == |entries| then p + 1 == zm.Length && zm[p] == END
              else
                var e := entries[i];
                var v := ValueAt(p, e);
                var q := v + LenBytes(|e.val|);
                && Offset(entries, i + 1) == p + RawLength(e) == q + 1 + |e.val| + |e.slack| < zm.Length
                && HasLength(zm[..], p) && DecodeLength(zm[..], p) == |e.key| && zm[p] != END
                && zm[p + LenBytes(|e.key|)..v] == e.key
                && HasLength(zm[..], v) && DecodeLength(zm[..], v) == |e.val|
                && zm[q] == |e.slack| && zm[q + 1..q + 1 + |e.val|] == e.val
    {
      hide Encode, EncodeLength, DecodeLength, Flatten;
      AtBoundary(zm[0], entries, i);
      if i < |entries| {
        EntryFields(zm[..], Offset(entries, i), entries[i]);
        var e, p := entries[i], Offset(entries, i);
        var v := ValueAt(p, e);
        var q := v + LenBytes(|e.val|);
        assert zm[..][p + LenBytes(|e.key|)..v] == zm[p + LenBytes(|e.key|)..v];
        assert zm[..][q + 1..q + 1 + |e.val|] == zm[q + 1..q + 1 + |e.val|];
      }
    }

    /** memcmp against the bytes at `p`. */
    method MemCmp(p: nat, bytes: seq<byte>) returns (same: bool)
      requires p + |bytes| <= zm.Length
      ensures same <==> zm[p..p + |bytes|] == bytes
    {
      for j := 0 to |bytes|
        invariant zm[p..p + j] == bytes[..j]
      {
        if zm[p + j] != bytes[j] {
          assert zm[p..p + |bytes|][j] != bytes[j];
          return false;
        }
      }
      return true;
    }

    lemma FirstEntry()
      requires Valid()
      ensures AllStorable(entries) && Offset(entries, 0) == 1 < zm.Length
    {
      OffsetZero(entries);
    }

    /** zipmapLookupRaw.  Offsets stand for pointers and -1 for NULL. */
    method LookupRaw(key: Option<seq<byte>>, wantTotal: bool) returns (k: int, totlen: nat)
      requires Valid()
      ensures k == if key.Some? && Find(entries, key.value) < |entries| then Offset(entries, Find(entries, key.value))
                   else -1
      ensures wantTotal ==> totlen == zm.Length
    {
      hide Image, Encodings, Offset, DecodeLength, HasLength, DistinctKeys, AllStorable, Storable, RawLength;
      hide RequiredLength;
      hide Encode, Head, EncodeLength, Flatten, Valid, Find, HasKey, Frame;
      FirstEntry();
      var p := 1;
      k, totlen := -1, 0;
      ghost var i, n := 0, if key.Some? then Find(entries, key.value) else |entries|;
      while zm[p] != END
        invariant i <= |entries| && p == Offset(entries, i) < zm.Length
        invariant k == if n < i then Offset(entries, n) else -1
        decreases |entries| - i
      {
        ReadEntry(i);
        var l := LengthAt(p);
        var llen := LenBytes(l);
        if key.Some? && k == -1 && l == |key.value| {
          var same := MemCmp(p + llen, key.value);
          if same {
            k := p;
            if !wantTotal {
              return;
            }
          }
        }
        p := p + llen + l;
        l := LengthAt(p);
        p := p + LenBytes(l);
        var free := zm[p];
        p := p + l + 1 + free;
        i := i + 1;
      }
      ReadEntry(i);
      totlen := p + 1;
    }

    /** zipmapRawEntryLength */
    method RawEntryLength(p: nat, ghost e: Entry) returns (n: nat)
      requires Storable(e) && EntryAt(zm[..], p, e)
      ensures n == RawLength(e)
    {
      hide Encode, DecodeLength, EncodeLength;
      EntryFields(zm[..], p, e);
      var l := LengthAt(p);
      n := LenBytes(l) + l;
      l := LengthAt(p + n);
      var used := LenBytes(l);
      used := used + (zm[p + n + used] as nat) + 1 + l;
      n := n + used;
    }

    /** zipmapResize: a new block with the old prefix, closed by the end byte. */
    method Resize(len: nat)
      requires 0 < len
      modifies this`zm
      ensures fresh(zm) && zm.Length == len && zm[len - 1] == END
      ensures forall j :: 0 <= j < len - 1 && j < old(zm.Length) ==> zm[j] == old(zm[j])
    {
      var block := new byte[len];
      forall j | 0 <= j < len && j < zm.Length {
        block[j] := zm[j];
      }
      block[len - 1] := END;
      zm := block;
    }

    /** memmove within the buffer: all bytes are read before any is written. */
    method MemMove(dst: nat, src: nat, n: nat)
      requires dst + n <= zm.Length && src + n <= zm.Length
      modifies zm
      ensures forall j :: 0 <= j < zm.Length ==> zm[j] == old(if dst <= j < dst + n then zm[src + (j - dst)] else zm[j])
    {
      forall j | 0 <= j < n {
        zm[dst + j] := zm[src + j];
      }
    }

    /** memcpy into the buffer. */
    method MemCpy(p: nat, bytes: seq<byte>)
      requires p + |bytes| <= zm.Length
      modifies zm
      ensures zm[..] == Splice(old(zm[..]), p, bytes)
    {
      forall j | 0 <= j < |bytes| {
        zm[p + j] := bytes[j];
      }
    }

    /** Opens a gap: the tail that started at `p + freelen` starts at `p + reqlen` afterwards. */
    method Grow(p: nat, freelen: nat, reqlen: nat)
      requires 0 < p && freelen < reqlen && p + freelen < zm.Length && zm[zm.Length - 1] == END
      modifies this`zm
      ensures fresh(zm) && zm.Length == old(zm.Length) - freelen + reqlen
      ensures zm[..p] == old(zm[..p])
      ensures zm[p + reqlen..] == old(zm[p + freelen..])
    {
      var zmlen := zm.Length;
      Resize(zmlen - freelen + reqlen);
      MemMove(p + reqlen, p + freelen, zmlen - (p + freelen + 1));
    }

    /** Closes a gap: the converse of Grow. */
    method Shrink(p: nat, freelen: nat, reqlen: nat)
      requires 0 < p && reqlen < freelen && p + freelen < zm.Length && zm[zm.Length - 1] == END
      modifies this`zm, zm
      ensures fresh(zm) && zm.Length == old(zm.Length) - freelen + reqlen
      ensures zm[..p] == old(zm[..p])
      ensures zm[p + reqlen..] == old(zm[p + freelen..])
    {
      var zmlen := zm.Length;
      MemMove(p + reqlen, p + freelen, zmlen - (p + freelen + 1));
      Resize(zmlen - freelen + reqlen);
    }

    method WriteKey(p: nat, key: seq<byte>)
      requires |key| < UINT_LIMIT && p + LenBytes(|key|) + |key| <= zm.Length
      modifies zm
      ensures zm[..] == Splice(old(zm[..]), p, EncodeLength(|key|) + key)
    {
      ghost var s := zm[..];
      var kl := EncodeLength(|key|);
      hide EncodeLength, Splice;
      MemCpy(p, kl);
      MemCpy(p + |kl|, key);
      SpliceSplice(s, p, kl, key);
    }

    method WriteValue(p: nat, val: seq<byte>, vempty: byte)
      requires |val| < UINT_LIMIT && p + LenBytes(|val|) + 1 + |val| <= zm.Length
      modifies zm
      ensures zm[..] == Splice(old(zm[..]), p, EncodeLength(|val|) + [vempty] + val)
    {
      ghost var s := zm[..];
      var vl := EncodeLength(|val|);
      hide EncodeLength, Splice;
      MemCpy(p, vl);
      MemCpy(p + |vl|, [vempty]);
      SpliceSplice(s, p, vl, [vempty]);
      MemCpy(p + |vl| + 1, val);
      SpliceSplice(s, p, vl + [vempty], val);
    }

    /** The last block of zipmapSet: key and value, but not the slack behind them. */
    method WriteEntry(p: nat, key: seq<byte>, val: seq<byte>, vempty: byte)
      requires |key| < UINT_LIMIT && |val| < UINT_LIMIT
      requires p + RequiredLength(|key|, |val|) <= zm.Length
      modifies zm
      ensures zm[..] == Splice(old(zm[..]), p, Head(key, val, vempty))
    {
      ghost var s := zm[..];
      ghost var k, v := EncodeLength(|key|) + key, EncodeLength(|val|) + [vempty] + val;
      assert k + v == Head(key, val, vempty);
      hide EncodeLength, Splice;
      WriteKey(p, key);
      WriteValue(p + LenBytes(|key|) + |key|, val, vempty);
      SpliceSplice(s, p, k, v);
    }

    /** zipmapSet */
    method Set(key: seq<byte>, val: seq<byte>) returns (update: bool)
      requires Valid()
      requires |key| < UINT_LIMIT && |val| < UINT_LIMIT
      requires zm.Length + RequiredLength(|key|, |val|) - OldLength(entries, key) < UINT_LIMIT
      modifies this, zm
      ensures Valid() && (zm == old(zm) || fresh(zm))
      ensures update <==> HasKey(old(entries), key)
      ensures IsSet(old(entries), key, val, entries)
      ensures Pairs(entries) == Put(old(Pairs(entries)), key, val)
      ensures zm.Length <= old(zm.Length) + RequiredLength(|key|, |val|)
    {
      var reqlen := RequiredLength(|key|, |val|);
      var at, zmlen := LookupRaw(Some(key), true);
      if at == -1 {
        update := false;
        Insert(key, val, reqlen);
      } else {
        update := true;
        Overwrite(at, key, val, reqlen);
      }
      SetIsPut(old(entries), key, val, entries);
    }

    /** zipmapSet, key absent: enlarge, count, write at the end. */
    method Insert(key: seq<byte>, val: seq<byte>, reqlen: nat)
      requires Valid() && !HasKey(entries, key)
      requires |key| < UINT_LIMIT && |val| < UINT_LIMIT && reqlen == RequiredLength(|key|, |val|)
      requires zm.Length + reqlen < UINT_LIMIT
      modifies this
      ensures Valid() && fresh(zm) && entries == old(entries) + [Entry(key, val, [])]
      ensures zm.Length == old(zm.Length) + reqlen
    {
      hide Image, Encodings, Encode, Head, DistinctKeys, HasKey, Splice, AllStorable;
      ghost var s, c := zm[..], zm[0];
      var zmlen := zm.Length;
      ImageEnds(c, entries);
      EnlargeAndCount(zmlen + reqlen);
      ghost var t := zm[..];
      WriteEntry(zmlen - 1, key, val, 0);
      InsertedImage(s, t, c, t[0], entries, key, val);
      SetKeepsDistinct(entries, key, val, entries + [Entry(key, val, [])]);
      ImageEnds(t[0], entries + [Entry(key, val, [])]);
      entries := entries + [Entry(key, val, [])];
    }

    /** The resize of an insertion, and the count byte, which stays at 254 once it is there. */
    method EnlargeAndCount(len: nat)
      requires 0 < zm.Length < len && zm[0] <= BIGLEN
      modifies this`zm
      ensures fresh(zm) && zm.Length == len && zm[len - 1] == END
      ensures zm[0] == old(zm[0]) + if old(zm[0]) < BIGLEN then 1 else 0
      ensures zm[..old(zm.Length)] == old(zm[..])[0 := zm[0]]
    {
      Resize(len);
      if zm[0] < BIGLEN {
        zm[0] := zm[0] + 1;
      }
    }

    /** zipmapSet, key present, first part: make the block at `p` large enough, or give spare bytes back. */
    method MakeRoom(p: nat, freelen: nat, reqlen: nat) returns (vempty: byte)
      requires 0 < p && p + freelen < zm.Length && zm[zm.Length - 1] == END
      modifies this`zm, zm
      ensures zm == old(zm) || fresh(zm)
      ensures vempty == if freelen >= reqlen && freelen - reqlen < VALUE_MAX_FREE then freelen - reqlen else 0
      ensures zm.Length == old(zm.Length) - freelen + reqlen + vempty
      ensures zm[..p] == old(zm[..p])
      ensures zm[p + reqlen + vempty..] == old(zm[p + freelen..])
    {
      vempty := 0;
      if freelen < reqlen {
        Grow(p, freelen, reqlen);
      } else if freelen - reqlen >= VALUE_MAX_FREE {
        Shrink(p, freelen, reqlen);
      } else {
        vempty := freelen - reqlen;
      }
    }

    /** zipmapSet, key present. */
    method Overwrite(p: nat, key: seq<byte>, val: seq<byte>, reqlen: nat)
      requires Valid() && HasKey(entries, key) && p == Offset(entries, Find(entries, key))
      requires |key| < UINT_LIMIT && |val| < UINT_LIMIT && reqlen == RequiredLength(|key|, |val|)
      requires zm.Length + reqlen - RawLength(entries[Find(entries, key)]) < UINT_LIMIT
      modifies this, zm
      ensures Valid() && (zm == old(zm) || fresh(zm)) && IsSet(old(entries), key, val, entries)
      ensures zm.Length <= old(zm.Length) + reqlen
    {
      hide Image, Encodings, Encode, Head, DistinctKeys, HasKey, Splice, RequiredLength;
      ghost var s, i := zm[..], Find(entries, key);
      AtBoundary(zm[0], entries, i);
      ImageEnds(zm[0], entries);
      var freelen := RawEntryLength(p, entries[i]);
      var vempty := MakeRoom(p, freelen, reqlen);
      ghost var t := zm[..];
      WriteEntry(p, key, val, vempty);
      ghost var e := Overwritten(s, t, entries, i, val, vempty);
      entries := entries[i := e];
      SetKeepsDistinct(old(entries), key, val, entries);
    }

    /** The memmove and resize of zipmapDel: the entry at `p` is gone, the count byte is not yet adjusted. */
    method Cut(p: nat, ghost i: nat)
      requires Valid() && i < |entries| && p == Offset(entries, i)
      modifies this`zm, zm
      ensures fresh(zm) && 0 < zm.Length < old(zm.Length)
      ensures AllStorable(entries[..i] + entries[i + 1..]) && zm[0] == old(zm[0])
      ensures zm[..] == Image(zm[0], entries[..i] + entries[i + 1..])
    {
      hide Image, Encodings, Encode, DistinctKeys, HasKey, Offset, DecodeLength, RequiredLength;
      ghost var s := zm[..];
      AtBoundary(zm[0], entries, i);
      ImageEnds(zm[0], entries);
      assert p >= 1 by { OffsetPositive(entries, i); }
      var freelen := RawEntryLength(p, entries[i]);
      Shrink(p, freelen, 0);
      CutImage(s[0], entries, i);
      assert zm[..] == s[..p] + s[p + freelen..] by {
        assert zm[..] == zm[..p] + zm[p..];
      }
      ImageEnds(s[0], entries[..i] + entries[i + 1..]);
    }

    /** zipmapDel */
    method Del(key: seq<byte>) returns (deleted: bool)
      requires Valid()
      modifies this, zm
      ensures Valid() && (zm == old(zm) || fresh(zm))
      ensures deleted <==> HasKey(old(entries), key)
      ensures entries == Removed(old(entries), key)
      ensures Pairs(entries) == Drop(old(Pairs(entries)), key)
      ensures zm.Length <= old(zm.Length)
    {
      var p, zmlen := LookupRaw(Some(key), true);
      RemovedIsDrop(entries, key);
      deleted := p != -1;
      if deleted {
        hide Image, Encodings, DistinctKeys, Find, Offset;
        ghost var i := Find(entries, key);
        Cut(p, i);
        entries := entries[..i] + entries[i + 1..];
        ghost var c := zm[0];
        if zm[0] < BIGLEN {
          zm[0] := zm[0] - 1;
        }
        RecountImage(c, zm[0], entries);
      }
    }

    /** zipmapGet: where the value is, and how long. */
    method Get(key: seq<byte>) returns (found: bool, value: nat, vlen: nat)
      requires Valid()
      ensures found <==> HasKey(entries, key)
      ensures found ==> value + vlen <= zm.Length && Some(zm[value..value + vlen]) == Lookup(Pairs(entries), key)
    {
      hide Image, Encodings, Offset, DecodeLength, HasLength, DistinctKeys, AllStorable, Storable, RawLength;
      hide RequiredLength;
      hide Encode, Head, EncodeLength, Flatten, Find, HasKey, Frame, Index;
      var p, _ := LookupRaw(Some(key), false);
      IndexOfPairs(entries, key);
      value, vlen, found := 0, 0, p != -1;
      if found {
        ReadEntry(Find(entries, key));
        var l := LengthAt(p);
        var v := p + LenBytes(l) + l;
        vlen := LengthAt(v);
        value := v + LenBytes(vlen) + 1;
      }
    }

    /** zipmapExists */
    method Exists(key: seq<byte>) returns (found: bool)
      requires Valid()
      ensures found <==> Lookup(Pairs(entries), key).Some?
    {
      var p, _ := LookupRaw(Some(key), false);
      IndexOfPairs(entries, key);
      found := p != -1;
    }

    /** zipmapNext at the boundary of entry `i`: -1 past the last entry, otherwise the next boundary. */
    method Next(p: nat, ghost i: nat) returns (next: int, key: nat, klen: nat, value: nat, vlen: nat)
      requires Valid() && i <= |entries| && p == Offset(entries, i)
      ensures next == if i == |entries| then -1 else Offset(entries, i + 1)
      ensures next != -1 ==>
                && key + klen <= zm.Length && value + vlen <= zm.Length
                && (zm[key..key + klen], zm[value..value + vlen]) == Pairs(entries)[i]
    {
      hide Image, Encodings, Offset, DecodeLength, HasLength, DistinctKeys, AllStorable, Storable, RawLength;
      hide RequiredLength;
      hide Encode, Head, EncodeLength, Flatten, Find, HasKey, Frame, Index;
      ReadEntry(i);
      next, key, klen, value, vlen := -1, 0, 0, 0, 0;
      if zm[p] == END {
        return;
      }
      klen := LengthAt(p);
      key := p + LenBytes(klen);
      var v := key + klen;
      vlen := LengthAt(v);
      var free := v + LenBytes(vlen);
      value := free + 1;
      next := value + vlen + zm[free];
    }

    /** The documented loop over zipmapRewind and zipmapNext: every pair once, in order. */
    method Items() returns (items: seq<Pair>)
      requires Valid()
      ensures items == Pairs(entries)
    {
      hide Image, Encodings, Offset, DecodeLength, HasLength, DistinctKeys, AllStorable, Storable, RawLength;
      hide RequiredLength;
      hide Encode, Head, EncodeLength, Flatten, Find, HasKey, Frame, Index;
      items := [];
      ghost var i := 0;
      FirstEntry();
      var p := 1;
      while true
        invariant i <= |entries| && p == Offset(entries, i)
        invariant items == Pairs(entries)[..i]
        decreases |entries| - i
      {
        var next, key, klen, value, vlen := Next(p, i);
        if next == -1 {
          break;
        }
        items := items + [(zm[key..key + klen], zm[value..value + vlen])];
        p := next;
        i := i + 1;
      }
    }

    /** zipmapLen: the count byte, or a scan that stores its result back when it fits again. */
    method Len() returns (len: nat)
      requires Valid()
      modifies zm
      ensures Valid() && len == |entries|
      ensures zm[..] == old(zm[..]) || zm[..] == old(zm[..])[0 := len as byte]
    {
      hide Image, Encodings, Offset, DecodeLength, HasLength, DistinctKeys, AllStorable, Storable, RawLength;
      hide RequiredLength;
      hide Encode, Head, EncodeLength, Flatten, Find, HasKey, Frame, Index;
      len := 0;
      if zm[0] < BIGLEN {
        len := zm[0];
      } else {
        FirstEntry();
        var p := 1;
        while true
          invariant len <= |entries| && p == Offset(entries, len)
          decreases |entries| - len
          modifies {}
        {
          var next, _, _, _, _ := Next(p, len);
          if next == -1 {
            break;
          }
          p := next;
          len := len + 1;
        }
        if len < BIGLEN {
          RecountImage(zm[0], len, entries);
          ImageEnds(len, entries);
          zm[0] := len;
        }
      }
    }

    /** zipmapBlobLen */
    method BlobLen() returns (n: nat)
      requires Valid()
      ensures n == zm.Length
    {
      var _, totlen := LookupRaw(None, true);
      n := totlen;
    }
  }

  // ---------- Runs ----------

  datatype Op = SetOp(key: seq<byte>, val: seq<byte>) | DelOp(key: seq<byte>) | LenOp

  function After(ps: seq<Pair>, ops: seq<Op>): seq<Pair> {
    if ops == [] then ps
    else
      var prior := After(ps, ops[..|ops| - 1]);
      match ops[|ops| - 1]
      case SetOp(key, val) => Put(prior, key, val)
      case DelOp(key) => Drop(prior, key)
      case LenOp => prior
  }

  /** Upper bound on how many bytes the operations can add. */
  function Growth(ops: seq<Op>): nat {
    if ops == [] then 0
    else Growth(ops[..|ops| - 1]) +
         match ops[|ops| - 1] case SetOp(key, val) => RequiredLength(|key|, |val|) case _ => 0
  }

  lemma {:induction false} GrowthMonotone(ops: seq<Op>, i: nat)
    requires i <= |ops|
    ensures Growth(ops[..i]) <= Growth(ops)
    decreases |ops|
  {
    if i == |ops| {
      assert ops[..i] == ops;
    } else {
      var front := ops[..|ops| - 1];
      GrowthMonotone(front, i);
      assert front[..i] == ops[..i];
    }
  }

  /** Any run that stays within 32-bit sizes keeps the buffer well-formed, keeps the count byte honest
      and leaves the pairs the same run leaves in the association list. */
  method Run(z: Zipmap, ops: seq<Op>)
    requires z.Valid() && z.zm.Length + Growth(ops) < UINT_LIMIT
    modifies z, z.zm
    ensures z.Valid() && Pairs(z.entries) == After(old(Pairs(z.entries)), ops)
  {
    hide Put, Drop, Pairs, Zipmap.Valid;
    for i := 0 to |ops|
      invariant z.Valid() && (z.zm == old(z.zm) || fresh(z.zm))
      invariant z.zm.Length <= old(z.zm.Length) + Growth(ops[..i])
      invariant Pairs(z.entries) == After(old(Pairs(z.entries)), ops[..i])
    {
      assert ops[..i + 1][..i] == ops[..i];
      GrowthMonotone(ops, i + 1);
      match ops[i]
      case SetOp(key, val) => var _ := z.Set(key, val);
      case DelOp(key) => var _ := z.Del(key);
      case LenOp => var _ := z.Len();
    }
    assert ops[..|ops|] == ops;
  }
}
