/** Facts about concatenating sequences that the byte formats below have in common. */
module Seqs {

  lemma SliceOfSlice<T>(s: seq<T>, lo: nat, hi: nat, i: nat, j: nat)
    requires lo <= hi <= |s| && i <= j <= hi - lo
    ensures s[lo..hi][i..j] == s[lo + i..lo + j]
  {
    var a, b := s[lo..hi][i..j], s[lo + i..lo + j];
    forall x | 0 <= x < |a| ensures a[x] == b[x] {
      assert a[x] == s[lo..hi][i + x];
    }
  }

  /** `s` with the bytes from `p` on overwritten by `x`. */
  function Splice<T>(s: seq<T>, p: nat, x: seq<T>): (r: seq<T>)
    requires p + |x| <= |s|
    ensures |r| == |s|
  {
    s[..p] + x + s[p + |x|..]
  }

  lemma SpliceSplice<T>(s: seq<T>, p: nat, x: seq<T>, y: seq<T>)
    requires p + |x| + |y| <= |s|
    ensures Splice(Splice(s, p, x), p + |x|, y) == Splice(s, p, x + y)
  {
    var r := Splice(s, p, x);
    assert r[..p + |x|] == s[..p] + x;
    assert r[p + |x| + |y|..] == s[p + |x + y|..];
  }

  /** Overwriting part of an edited copy `t` of `s`, whose tail is `slack` and the tail of `s`. */
  lemma SpliceEdited<T>(t: seq<T>, s: seq<T>, p: nat, q: nat, x: seq<T>, slack: seq<T>)
    requires p <= q <= |s| && p + |x| <= |t|
    requires t[..p] == s[..p] && t[p + |x|..] == slack + s[q..]
    ensures Splice(t, p, x) == s[..p] + (x + slack) + s[q..]
  {
  }

  lemma Regroup<T>(a: seq<T>, b: seq<T>, m: seq<T>, c: seq<T>, d: seq<T>)
    ensures (a + b) + m + (c + d) == a + (b + m + c) + d
  {
  }

  lemma SixParts<T>(a: seq<T>, b: seq<T>, c: seq<T>, d: seq<T>, e: seq<T>, f: seq<T>)
    ensures var t := a + b + c + d + e + f;
            var n1 := |a| + |b|; var n2 := n1 + |c|; var n3 := n2 + |d|; var n4 := n3 + |e|;
            && t[..|a|] == a && t[|a|..n1] == b && t[n1..n2] == c && t[n2..n3] == d
            && t[n3..n4] == e && t[n4..] == f
  {
    var t1 := a + b;
    var t2 := t1 + c;
    var t3 := t2 + d;
    var t4 := t3 + e;
    var t := t4 + f;
    assert t[..|t4|] == t4;
    assert t4[..|t3|] == t3;
    assert t3[..|t2|] == t2;
    assert t2[..|t1|] == t1;
    assert forall i :: 0 <= i < |t3| ==> t[i] == t3[i];
    assert forall i :: 0 <= i < |t1| ==> t[i] == t1[i];
  }

  /** The same six parts, found inside a longer sequence. */
  lemma SixPartsAt<T>(s: seq<T>, p: nat, a: seq<T>, b: seq<T>, c: seq<T>, d: seq<T>, e: seq<T>, f: seq<T>)
    requires var n := |a| + |b| + |c| + |d| + |e| + |f|;
             p + n <= |s| && s[p..p + n] == a + b + c + d + e + f
    ensures var n1 := p + |a|; var n2 := n1 + |b|; var n3 := n2 + |c|; var n4 := n3 + |d|; var n5 := n4 + |e|;
            && s[p..n1] == a && s[n1..n2] == b && s[n2..n3] == c && s[n3..n4] == d
            && s[n4..n5] == e && s[n5..n5 + |f|] == f
  {
    SixParts(a, b, c, d, e, f);
    var n1 := |a|; var n2 := n1 + |b|; var n3 := n2 + |c|; var n4 := n3 + |d|; var n5 := n4 + |e|;
    var n := n5 + |f|;
    SliceOfSlice(s, p, p + n, 0, n1);
    SliceOfSlice(s, p, p + n, n1, n2);
    SliceOfSlice(s, p, p + n, n2, n3);
    SliceOfSlice(s, p, p + n, n3, n4);
    SliceOfSlice(s, p, p + n, n4, n5);
    SliceOfSlice(s, p, p + n, n5, n);
  }

  function Flatten<T>(parts: seq<seq<T>>): seq<T> {
    if parts == [] then [] else parts[0] + Flatten(parts[1..])
  }

  lemma {:induction false} FlattenConcat<T>(a: seq<seq<T>>, b: seq<seq<T>>)
    ensures Flatten(a + b) == Flatten(a) + Flatten(b)
  {
    if a == [] {
      assert a + b == b;
    } else {
      FlattenConcat(a[1..], b);
      assert (a + b)[1..] == a[1..] + b;
      assert (a + b)[0] == a[0];
      Associate(a[0], Flatten(a[1..]), Flatten(b));
    }
  }

  lemma Associate<T>(a: seq<T>, b: seq<T>, c: seq<T>)
    ensures a + (b + c) == (a + b) + c
  {
  }

  lemma FlattenNil<T>()
    ensures Flatten<T>([]) == []
  {
  }

  lemma FlattenOne<T>(part: seq<T>)
    ensures Flatten([part]) == part
  {
    assert Flatten([part]) == part + Flatten([part][1..]);
  }

  lemma FlattenPrefix<T>(parts: seq<seq<T>>, i: nat)
    requires i < |parts|
    ensures Flatten(parts[..i + 1]) == Flatten(parts[..i]) + parts[i]
  {
    hide Flatten;
    assert parts[..i + 1] == parts[..i] + [parts[i]];
    FlattenConcat(parts[..i], [parts[i]]);
    FlattenOne(parts[i]);
  }

  /** The flattened sequence, cut before part `i` and after it. */
  lemma FlattenAt<T>(parts: seq<seq<T>>, i: nat)
    requires i < |parts|
    ensures Flatten(parts) == Flatten(parts[..i]) + parts[i] + Flatten(parts[i + 1..])
  {
    hide Flatten;
    FlattenPrefix(parts, i);
    assert Flatten(parts) == Flatten(parts[..i + 1]) + Flatten(parts[i + 1..]) by {
      assert parts == parts[..i + 1] + parts[i + 1..];
      FlattenConcat(parts[..i + 1], parts[i + 1..]);
    }
  }

  ghost predicate Distinct<T>(s: seq<T>) {
    forall i, j :: 0 <= i < j < |s| ==> s[i] != s[j]
  }
}
