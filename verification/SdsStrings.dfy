/** The dynamic string of sds.c: a buffer with its used length and its free space behind it. */
module SdsStrings {
  import opened CStrings
  import opened Seqs
  import opened Wrappers

  const MAX_PREALLOC := 1024 * 1024

  // ---------- Trimming, as a function ----------

  /** strchr(cset, c) != NULL; the terminator of `cset` counts as a member. */
  predicate InSet(cset: cstring, c: cchar) {
    c == NUL || c in cset
  }

  function TrimStart(s: cstring, cset: cstring): cstring {
    if s != [] && InSet(cset, s[0]) then TrimStart(s[1..], cset) else s
  }

  function TrimEnd(s: cstring, cset: cstring): cstring {
    if s != [] && InSet(cset, s[|s| - 1]) then TrimEnd(s[..|s| - 1], cset) else s
  }

  function Trim(s: cstring, cset: cstring): cstring {
    TrimEnd(TrimStart(s, cset), cset)
  }

  ghost predicate Trimmed(s: cstring, cset: cstring) {
    s != [] ==> !InSet(cset, s[0]) && !InSet(cset, s[|s| - 1])
  }

  ghost predicate AllIn(s: cstring, cset: cstring) {
    forall i :: 0 <= i < |s| ==> InSet(cset, s[i])
  }

  /** `r` is what is left of `s` when members of the set are taken off both ends. */
  ghost predicate IsTrimOf(r: cstring, s: cstring, cset: cstring) {
    exists a: cstring, b: cstring :: s == a + r + b && AllIn(a, cset) && AllIn(b, cset)
  }

  lemma {:induction false} TrimStartSpec(s: cstring, cset: cstring) returns (a: cstring)
    ensures s == a + TrimStart(s, cset) && AllIn(a, cset)
    ensures TrimStart(s, cset) != [] ==> !InSet(cset, TrimStart(s, cset)[0])
  {
    if s != [] && InSet(cset, s[0]) {
      var rest := TrimStartSpec(s[1..], cset);
      a := [s[0]] + rest;
      assert s == [s[0]] + s[1..];
    } else {
      a := [];
      assert s == a + s;
    }
  }

  lemma {:induction false} TrimEndSpec(s: cstring, cset: cstring) returns (b: cstring)
    ensures s == TrimEnd(s, cset) + b && AllIn(b, cset)
    ensures TrimEnd(s, cset) != [] ==> !InSet(cset, TrimEnd(s, cset)[|TrimEnd(s, cset)| - 1])
  {
    if s != [] && InSet(cset, s[|s| - 1]) {
      var rest := TrimEndSpec(s[..|s| - 1], cset);
      b := rest + [s[|s| - 1]];
      assert s == s[..|s| - 1] + [s[|s| - 1]];
      assert TrimEnd(s, cset) + rest + [s[|s| - 1]] == TrimEnd(s, cset) + b;
    } else {
      b := [];
      assert s == s + b;
    }
  }

  /** Trimming strips members of the set only, and strips them all. */
  lemma TrimSpec(s: cstring, cset: cstring)
    ensures IsTrimOf(Trim(s, cset), s, cset) && Trimmed(Trim(s, cset), cset)
  {
    hide TrimStart, TrimEnd;
    var t := TrimStart(s, cset);
    var a := TrimStartSpec(s, cset);
    var b := TrimEndSpec(t, cset);
    var r := TrimEnd(t, cset);
    assert s == a + r + b;
    if r != [] {
      assert r[0] == t[0];
    }
  }

  lemma {:induction false} TrimStartSkips(a: cstring, t: cstring, cset: cstring)
    requires AllIn(a, cset)
    ensures TrimStart(a + t, cset) == TrimStart(t, cset)
  {
    if a == [] {
      assert a + t == t;
    } else {
      assert (a + t)[1..] == a[1..] + t;
      TrimStartSkips(a[1..], t, cset);
    }
  }

  lemma {:induction false} TrimEndSkips(r: cstring, b: cstring, cset: cstring)
    requires AllIn(b, cset)
    ensures TrimEnd(r + b, cset) == TrimEnd(r, cset)
    decreases |b|
  {
    if b == [] {
      assert r + b == r;
    } else {
      var n := |b| - 1;
      assert (r + b)[..|r + b| - 1] == r + b[..n];
      TrimEndSkips(r, b[..n], cset);
    }
  }

  /** There is one way to trim. */
  lemma TrimUnique(s: cstring, r: cstring, cset: cstring)
    requires IsTrimOf(r, s, cset) && Trimmed(r, cset)
    ensures Trim(s, cset) == r
  {
    hide TrimStart, TrimEnd;
    var a: cstring, b: cstring :| s == a + r + b && AllIn(a, cset) && AllIn(b, cset);
    assert a + r + b == a + (r + b);
    TrimStartSkips(a, r + b, cset);
    if r == [] {
      assert r + b == b + [];
      TrimStartSkips(b, [], cset);
      TrimNothing(cset);
    } else {
      TrimStops(r, b, cset);
      TrimEndSkips(r, b, cset);
    }
  }

  lemma TrimNothing(cset: cstring)
    ensures TrimStart([], cset) == [] && TrimEnd([], cset) == []
  {
  }

  lemma TrimStops(r: cstring, b: cstring, cset: cstring)
    requires r != [] && Trimmed(r, cset)
    ensures TrimStart(r + b, cset) == r + b && TrimEnd(r, cset) == r
  {
  }

  lemma TrimOfTrimmed(s: cstring, cset: cstring)
    requires Trimmed(s, cset)
    ensures Trim(s, cset) == s
  {
  }

  // ---------- Splitting and joining ----------

  function Join(argv: seq<cstring>, sep: cstring): cstring {
    if argv == [] then []
    else if |argv| == 1 then argv[0]
    else argv[0] + sep + Join(argv[1..], sep)
  }

  predicate Match(s: cstring, j: nat, sep: cstring) {
    j + |sep| <= |s| && s[j..j + |sep|] == sep
  }

  ghost predicate NoMatch(s: cstring, sep: cstring) {
    forall j: nat :: !Match(s, j, sep)
  }

  /** The tokens of `s[start..]` when the separator is known not to occur before `j`. */
  function TokensFrom(s: cstring, sep: cstring, start: nat, j: nat): seq<cstring>
    requires |sep| >= 1 && start <= j <= |s|
    decreases |s| - j
  {
    if j + |sep| > |s| then [s[start..]]
    else if Match(s, j, sep) then [s[start..j]] + TokensFrom(s, sep, j + |sep|, j + |sep|)
    else TokensFrom(s, sep, start, j + 1)
  }

  function Tokens(s: cstring, sep: cstring): seq<cstring>
    requires |sep| >= 1
  {
    if s == [] then [] else TokensFrom(s, sep, 0, 0)
  }

  lemma JoinCons(first: cstring, rest: seq<cstring>, sep: cstring)
    requires rest != []
    ensures Join([first] + rest, sep) == first + sep + Join(rest, sep)
  {
    assert ([first] + rest)[1..] == rest;
  }

  /** The tokens joined with the separator give the string back, and none contains the separator. */
  lemma {:induction false} TokensFromSpec(s: cstring, sep: cstring, start: nat, j: nat)
    requires |sep| >= 1 && start <= j <= |s|
    requires forall k: nat :: start <= k < j ==> !Match(s, k, sep)
    ensures TokensFrom(s, sep, start, j) != []
    ensures Join(TokensFrom(s, sep, start, j), sep) == s[start..]
    ensures forall t :: t in TokensFrom(s, sep, start, j) ==> NoMatch(t, sep)
    decreases |s| - j
  {
    if j + |sep| > |s| {
      TokenHasNoMatch(s, sep, start, |s|);
      assert s[start..|s|] == s[start..];
    } else if Match(s, j, sep) {
      var rest := TokensFrom(s, sep, j + |sep|, j + |sep|);
      TokensFromSpec(s, sep, j + |sep|, j + |sep|);
      TokenHasNoMatch(s, sep, start, j);
      JoinCons(s[start..j], rest, sep);
      hide NoMatch, Join;
      assert s[start..] == s[start..j] + sep + s[j + |sep|..];
    } else {
      TokensFromSpec(s, sep, start, j + 1);
    }
  }

  lemma TokenHasNoMatch(s: cstring, sep: cstring, start: nat, end: nat)
    requires |sep| >= 1 && start <= end <= |s|
    requires forall k: nat :: start <= k && k + |sep| <= end ==> !Match(s, k, sep)
    ensures NoMatch(s[start..end], sep)
  {
    forall k: nat ensures !Match(s[start..end], k, sep) {
      if Match(s[start..end], k, sep) {
        SliceOfSlice(s, start, end, k, k + |sep|);
        assert Match(s, start + k, sep);
      }
    }
  }

  /** The same for the whole string. */
  lemma TokensJoined(s: cstring, sep: cstring)
    requires |sep| >= 1
    ensures Join(Tokens(s, sep), sep) == s
    ensures forall t :: t in Tokens(s, sep) ==> NoMatch(t, sep)
  {
    if s != [] {
      TokensFromSpec(s, sep, 0, 0);
    }
  }

  /** Scanning a string that begins with a separator-free token. */
  lemma {:induction false} TokensStep(s: cstring, c: cchar, start: nat, j: nat, end: nat)
    requires start <= j <= end <= |s|
    requires forall k :: j <= k < end ==> s[k] != c
    requires end < |s| ==> s[end] == c
    ensures TokensFrom(s, [c], start, j)
         == if end == |s| then [s[start..]] else [s[start..end]] + TokensFrom(s, [c], end + 1, end + 1)
    decreases end - j
  {
    if j < end {
      assert !Match(s, j, [c]) by { assert s[j..j + 1] == [s[j]]; }
      TokensStep(s, c, start, j + 1, end);
    } else if j < |s| {
      assert s[j..j + 1] == [s[j]];
    }
  }

  /** Tokens of a suffix are found whatever stands before it. */
  lemma {:induction false} TokensOfJoined(s: cstring, start: nat, c: cchar, tokens: seq<cstring>)
    requires tokens != [] && forall i :: 0 <= i < |tokens| ==> Avoids(tokens[i], c)
    requires start <= |s| && s[start..] == Join(tokens, [c])
    ensures TokensFrom(s, [c], start, start) == tokens
    decreases |tokens|
  {
    var t, end := tokens[0], start + |tokens[0]|;
    var tail := if |tokens| == 1 then [] else [c] + Join(tokens[1..], [c]);
    assert s[start..] == t + tail;
    assert s[start..end] == t;
    assert forall k :: start <= k < end ==> s[k] == s[start..end][k - start];
    if |tokens| == 1 {
      TokensStep(s, c, start, start, end);
      assert tokens == [t];
    } else {
      assert s[end] == s[start..][|t|] == c;
      assert s[end + 1..] == s[start..][|t| + 1..] == Join(tokens[1..], [c]);
      TokensStep(s, c, start, start, end);
      TokensOfJoined(s, end + 1, c, tokens[1..]);
      assert tokens == [t] + tokens[1..];
    }
  }

  lemma JoinEmpty(tokens: seq<cstring>, c: cchar)
    ensures Join(tokens, [c]) == [] <==> tokens == [] || tokens == [[]]
  {
  }

  /** Splitting undoes joining with one character - except that the single empty token disappears. */
  lemma JoinedTokens(tokens: seq<cstring>, c: cchar)
    requires forall i :: 0 <= i < |tokens| ==> Avoids(tokens[i], c)
    ensures Tokens(Join(tokens, [c]), [c]) == tokens <==> tokens != [[]]
  {
    var s := Join(tokens, [c]);
    JoinEmpty(tokens, c);
    if s != [] {
      assert s[0..] == s;
      TokensOfJoined(s, 0, c, tokens);
    }
  }

  // ---------- Splitting takes the separator where it first occurs ----------

  ghost predicate NoMatchBelow(u: cstring, n: nat, sep: cstring) {
    forall k: nat :: k < n ==> !Match(u, k, sep)
  }

  /** With the separator behind it, unless it is the last, the separator does not begin inside the token. */
  ghost predicate EndsFirst(t: cstring, sep: cstring, last: bool) {
    NoMatchBelow(if last then t else t + sep, |t|, sep)
  }

  ghost predicate Leftmost(tokens: seq<cstring>, sep: cstring) {
    forall i :: 0 <= i < |tokens| ==> EndsFirst(tokens[i], sep, i == |tokens| - 1)
  }

  /** What matches inside a slice matches in the string. */
  lemma MatchInSlice(s: cstring, lo: nat, hi: nat, k: nat, sep: cstring)
    requires lo <= hi <= |s|
    ensures Match(s[lo..hi], k, sep) <==> lo + k + |sep| <= hi && Match(s, lo + k, sep)
  {
    if lo + k + |sep| <= hi {
      SliceOfSlice(s, lo, hi, k, k + |sep|);
    }
  }

  lemma TokenEndsFirst(s: cstring, sep: cstring, start: nat, end: nat)
    requires |sep| >= 1 && start <= end <= |s|
    requires forall k: nat :: start <= k < end ==> !Match(s, k, sep)
    ensures EndsFirst(s[start..end], sep, true)
    ensures Match(s, end, sep) ==> EndsFirst(s[start..end], sep, false)
  {
    forall k: nat | k < end - start ensures !Match(s[start..end], k, sep) {
      MatchInSlice(s, start, end, k, sep);
    }
    if Match(s, end, sep) {
      forall k: nat | k < end - start ensures !Match(s[start..end] + sep, k, sep) {
        assert s[start..end] + sep == s[start..end + |sep|];
        MatchInSlice(s, start, end + |sep|, k, sep);
      }
    }
  }

  lemma LeftmostCons(t: cstring, rest: seq<cstring>, sep: cstring)
    requires EndsFirst(t, sep, rest == []) && Leftmost(rest, sep)
    ensures Leftmost([t] + rest, sep)
  {
    hide EndsFirst;
    var all := [t] + rest;
    forall i | 0 <= i < |all| ensures EndsFirst(all[i], sep, i == |all| - 1) {
      if i > 0 {
        assert all[i] == rest[i - 1];
      }
    }
  }

  lemma {:induction false} TokensAreLeftmost(s: cstring, sep: cstring, start: nat, j: nat)
    requires |sep| >= 1 && start <= j <= |s|
    requires forall k: nat :: start <= k < j ==> !Match(s, k, sep)
    ensures TokensFrom(s, sep, start, j) != [] && Leftmost(TokensFrom(s, sep, start, j), sep)
    decreases |s| - j
  {
    hide Match, EndsFirst, Leftmost;
    if j + |sep| > |s| {
      NoRoom(s, sep, j);
      TokenEndsFirst(s, sep, start, |s|);
      assert s[start..|s|] == s[start..];
      NoTokens(sep);
      LeftmostCons(s[start..], [], sep);
      assert [s[start..]] + [] == [s[start..]];
    } else if Match(s, j, sep) {
      TokensAreLeftmost(s, sep, j + |sep|, j + |sep|);
      TokenEndsFirst(s, sep, start, j);
      LeftmostCons(s[start..j], TokensFrom(s, sep, j + |sep|, j + |sep|), sep);
    } else {
      TokensAreLeftmost(s, sep, start, j + 1);
    }
  }

  lemma NoRoom(s: cstring, sep: cstring, j: nat)
    requires j + |sep| > |s|
    ensures forall k: nat :: k >= j ==> !Match(s, k, sep)
  {
  }

  lemma NoTokens(sep: cstring)
    ensures Leftmost([], sep)
  {
  }

  lemma {:induction false} ScanTo(s: cstring, sep: cstring, start: nat, j: nat, end: nat)
    requires |sep| >= 1 && start <= j <= end <= |s|
    requires (forall k: nat :: j <= k < end ==> !Match(s, k, sep)) && (end == |s| || Match(s, end, sep))
    ensures end < |s| ==> end + |sep| <= |s|
    ensures TokensFrom(s, sep, start, j)
         == if end == |s| then [s[start..]] else [s[start..end]] + TokensFrom(s, sep, end + |sep|, end + |sep|)
    decreases end - j
  {
    if j < end {
      if j + |sep| <= |s| {
        ScanTo(s, sep, start, j + 1, end);
      }
    }
  }

  lemma {:induction false} LeftmostTokens(s: cstring, sep: cstring, start: nat, tokens: seq<cstring>)
    requires |sep| >= 1 && tokens != [] && Leftmost(tokens, sep)
    requires start <= |s| && s[start..] == Join(tokens, sep)
    ensures TokensFrom(s, sep, start, start) == tokens
    decreases |tokens|
  {
    hide Match, EndsFirst;
    var t, rest := tokens[0], tokens[1..];
    var end := start + |t|;
    if |tokens| == 1 {
      NotBefore(s, sep, start, t, true);
      ScanTo(s, sep, start, start, end);
      assert tokens == [t];
    } else {
      var tail := Join(rest, sep);
      assert s[start..] == t + sep + tail;
      assert s[start..end + |sep|] == t + sep;
      assert s[end + |sep|..] == tail && s[start..end] == t;
      NotBefore(s, sep, start, t, false);
      ScanTo(s, sep, start, start, end);
      forall i | 0 <= i < |rest| ensures EndsFirst(rest[i], sep, i == |rest| - 1) {
        assert rest[i] == tokens[i + 1];
      }
      LeftmostTokens(s, sep, end + |sep|, rest);
      assert tokens == [t] + rest;
    }
  }

  /** The separator does not begin in the string where it does not begin in the token. */
  lemma NotBefore(s: cstring, sep: cstring, start: nat, t: cstring, last: bool)
    requires EndsFirst(t, sep, last)
    requires var u := if last then t else t + sep; start + |u| <= |s| && s[start..start + |u|] == u
    requires last ==> start + |t| == |s|
    ensures forall k: nat :: start <= k < start + |t| ==> !Match(s, k, sep)
    ensures !last ==> Match(s, start + |t|, sep)
  {
    var u := if last then t else t + sep;
    forall k: nat | start <= k < start + |t| ensures !Match(s, k, sep) {
      MatchInSlice(s, start, start + |u|, k - start, sep);
    }
    if !last {
      assert u[|t|..] == sep;
      MatchInSlice(s, start, start + |u|, |t|, sep);
    }
  }

  /** The tokens of a string that is not empty are the only ones that join to it and in which each separator is
      taken where it first occurs. */
  lemma TokensExactly(s: cstring, sep: cstring, tokens: seq<cstring>)
    requires |sep| >= 1 && s != []
    ensures Tokens(s, sep) == tokens <==> tokens != [] && Join(tokens, sep) == s && Leftmost(tokens, sep)
  {
    hide Join, Leftmost;
    TokensJoined(s, sep);
    TokensAreLeftmost(s, sep, 0, 0);
    assert s[0..] == s;
    if tokens != [] && Join(tokens, sep) == s && Leftmost(tokens, sep) {
      LeftmostTokens(s, sep, 0, tokens);
    }
  }

  /** sdssplitlen; None stands for the NULL returned for an empty separator. */
  method SplitLen(s: cstring, sep: cstring) returns (r: Option<seq<cstring>>)
    ensures r == if |sep| < 1 then None else Some(Tokens(s, sep))
  {
    if |sep| < 1 {
      return None;
    }
    if |s| == 0 {
      return Some([]);
    }
    hide TokensFrom;
    var tokens, start, j := [], 0, 0;
    while j < |s| - (|sep| - 1)
      invariant 0 <= start <= j <= |s|
      invariant Tokens(s, sep) == tokens + TokensFrom(s, sep, start, j)
      decreases |s| - j
    {
      TokensFromStep(s, sep, start, j);
      if (|sep| == 1 && s[j] == sep[0]) || s[j..j + |sep|] == sep {
        assert |sep| == 1 ==> s[j..j + 1] == [s[j]] && sep == [sep[0]];
        tokens := tokens + [s[start..j]];
        start := j + |sep|;
        j := j + |sep| - 1;
      }
      j := j + 1;
    }
    TokensFromStep(s, sep, start, j);
    tokens := tokens + [s[start..]];
    r := Some(tokens);
  }

  lemma TokensFromStep(s: cstring, sep: cstring, start: nat, j: nat)
    requires |sep| >= 1 && start <= j <= |s|
    ensures TokensFrom(s, sep, start, j)
         == if j + |sep| > |s| then [s[start..]]
            else if s[j..j + |sep|] == sep then [s[start..j]] + TokensFrom(s, sep, j + |sep|, j + |sep|)
            else TokensFrom(s, sep, start, j + 1)
  {
  }

  // ---------- Joining C strings ----------

  function CStrs(argv: seq<cstring>): (r: seq<cstring>)
    ensures |r| == |argv| && forall i :: 0 <= i < |r| ==> r[i] == CStr(argv[i])
  {
    seq(|argv|, i requires 0 <= i < |argv| => CStr(argv[i]))
  }

  /** What sdsjoin gives: it takes its arguments up to their first NUL. */
  function JoinC(argv: seq<cstring>, sep: cstring): cstring {
    Join(CStrs(argv), CStr(sep))
  }

  lemma JoinNothing(sep: cstring)
    ensures Join([], sep) == []
  {
  }

  lemma JoinStep(all: seq<cstring>, j: nat, sep: cstring, join: cstring)
    requires j < |all|
    ensures join + Join(all[j..], sep)
         == if j == |all| - 1 then join + all[j] + [] else join + all[j] + sep + Join(all[j + 1..], sep)
  {
    assert all[j..][1..] == all[j + 1..];
    if j == |all| - 1 {
      assert join + all[j] + [] == join + all[j];
    } else {
      var tail := Join(all[j + 1..], sep);
      assert join + (all[j] + sep + tail) == join + all[j] + sep + tail;
    }
  }

  /** sdsjoin */
  method JoinAll(argv: seq<cstring>, sep: cstring) returns (join: cstring)
    ensures join == JoinC(argv, sep)
  {
    hide CStr, Join;
    join := [];
    ghost var all := CStrs(argv);
    assert all[0..] == all && [] + Join(all, CStr(sep)) == Join(all, CStr(sep));
    JoinNothing(CStr(sep));
    for j := 0 to |argv|
      invariant Join(all, CStr(sep)) == join + (if j < |argv| then Join(all[j..], CStr(sep)) else [])
    {
      JoinStep(all, j, CStr(sep), join);
      join := join + CStr(argv[j]);
      if j != |argv| - 1 {
        join := join + CStr(sep);
      }
    }
  }

  lemma {:induction false} JoinNoNul(argv: seq<cstring>, sep: cstring)
    requires NoNul(sep) && forall i :: 0 <= i < |argv| ==> NoNul(argv[i])
    ensures NoNul(Join(argv, sep))
  {
    if |argv| > 1 {
      JoinNoNul(argv[1..], sep);
    }
  }

  /** A join has no NUL only if no part has one, and neither has the separator once it is used. */
  lemma {:induction false} NoNulParts(argv: seq<cstring>, sep: cstring)
    requires NoNul(Join(argv, sep))
    ensures forall i :: 0 <= i < |argv| ==> NoNul(argv[i])
    ensures |argv| > 1 ==> NoNul(sep)
  {
    if |argv| > 1 {
      var rest := Join(argv[1..], sep);
      var all := argv[0] + sep + rest;
      forall i | 0 <= i < |argv[0]| ensures argv[0][i] != NUL {
        assert all[i] == argv[0][i];
      }
      forall i | 0 <= i < |sep| ensures sep[i] != NUL {
        assert all[|argv[0]| + i] == sep[i];
      }
      forall i | 0 <= i < |rest| ensures rest[i] != NUL {
        assert all[|argv[0]| + |sep| + i] == rest[i];
      }
      NoNulParts(argv[1..], sep);
      assert forall i :: 0 < i < |argv| ==> argv[i] == argv[1..][i - 1];
    }
  }

  lemma CStrsSame(argv: seq<cstring>)
    requires forall i :: 0 <= i < |argv| ==> NoNul(argv[i])
    ensures CStrs(argv) == argv
  {
    forall i | 0 <= i < |argv| ensures CStr(argv[i]) == argv[i] {
      CStrNoNul(argv[i]);
    }
  }

  /** Without NUL in the parts, and in the separator where it is used, sdsjoin is the plain join. */
  lemma JoinCPlain(argv: seq<cstring>, sep: cstring)
    requires (forall i :: 0 <= i < |argv| ==> NoNul(argv[i])) && (|argv| > 1 ==> NoNul(sep))
    ensures JoinC(argv, sep) == Join(argv, sep)
  {
    CStrsSame(argv);
    if |argv| > 1 {
      CStrNoNul(sep);
    }
  }

  lemma JoinCNoNul(argv: seq<cstring>, sep: cstring)
    ensures NoNul(JoinC(argv, sep))
  {
    JoinNoNul(CStrs(argv), CStr(sep));
  }

  /** Joining the tokens of a string gives it back exactly when it has no NUL. */
  lemma SplitThenJoin(s: cstring, sep: cstring)
    requires |sep| >= 1
    ensures JoinC(Tokens(s, sep), sep) == s <==> NoNul(s)
    ensures forall t :: t in Tokens(s, sep) ==> NoMatch(t, sep)
  {
    hide Tokens, Join, JoinC, NoMatch;
    TokensJoined(s, sep);
    JoinCNoNul(Tokens(s, sep), sep);
    if NoNul(s) {
      NoNulParts(Tokens(s, sep), sep);
      JoinCPlain(Tokens(s, sep), sep);
    }
  }

  /** Splitting undoes joining with one character exactly when the tokens have no NUL, are not the
      single empty token, and are not kept apart by NUL itself. */
  lemma JoinThenSplit(tokens: seq<cstring>, c: cchar)
    requires forall i :: 0 <= i < |tokens| ==> Avoids(tokens[i], c)
    ensures Tokens(JoinC(tokens, [c]), [c]) == tokens
       <==> (forall i :: 0 <= i < |tokens| ==> NoNul(tokens[i])) && (c == NUL ==> |tokens| <= 1) && tokens != [[]]
  {
    hide Tokens, Join, JoinC, NoMatch, Avoids;
    var s := JoinC(tokens, [c]);
    JoinCNoNul(tokens, [c]);
    if Tokens(s, [c]) == tokens {
      TokensJoined(s, [c]);
      NoNulParts(tokens, [c]);
      assert [c][0] == c;
    }
    if (forall i :: 0 <= i < |tokens| ==> NoNul(tokens[i])) && (c == NUL ==> |tokens| <= 1) {
      JoinCPlain(tokens, [c]);
      JoinedTokens(tokens, c);
    }
  }

  /** "a\0b" has one token for a comma, and joining it gives "a". */
  lemma JoinCutsAtNul()
    ensures var s: cstring := ['a', NUL, 'b'];
            Tokens(s, [',']) == [s] && JoinC(Tokens(s, [',']), [',']) == ['a']
  {
    var s: cstring := ['a', NUL, 'b'];
    assert s[0..] == s;
    TokensStep(s, ',', 0, 0, 3);
    assert s[1..][0] == NUL && CStr(s[1..]) == [];
    assert CStr(s) == ['a'];
    var cut := CStrs([s]);
    assert |cut| == 1 && cut[0] == ['a'];
  }

  // ---------- The string object ----------

  class Sds {
    var buf: array<cchar>
    var len: nat
    var free: nat

    ghost predicate Valid()
      reads this, buf
    {
      buf.Length == len + free + 1 && buf[len] == NUL
    }

    function Contents(): cstring
      requires Valid()
      reads this, buf
    {
      buf[..len]
    }

    /** sdsnewlen */
    constructor (init: cstring)
      ensures Valid() && fresh(buf) && Contents() == init && free == 0
    {
      buf := new cchar[|init| + 1](i => if 0 <= i < |init| then init[i] else NUL);
      len := |init|;
      free := 0;
    }

    /** sdsMakeRoomFor: room for `addlen` more bytes, doubling small strings ahead of need. */
    method MakeRoomFor(addlen: nat)
      requires Valid()
      modifies this
      ensures Valid() && len == old(len) && Contents() == old(Contents())
      ensures buf == old(buf) || fresh(buf)
      ensures free >= addlen
      ensures free == if old(free) >= addlen then old(free)
                      else if len + addlen < MAX_PREALLOC then len + 2 * addlen
                      else addlen + MAX_PREALLOC
    {
      if free >= addlen {
        return;
      }
      var newlen := len + addlen;
      if newlen < MAX_PREALLOC {
        newlen := newlen * 2;
      } else {
        newlen := newlen + MAX_PREALLOC;
      }
      var block := new cchar[newlen + 1];
      forall i | 0 <= i < buf.Length && i <= newlen {
        block[i] := buf[i];
      }
      buf := block;
      free := newlen - len;
    }

    /** sdscatlen */
    method CatLen(t: cstring)
      requires Valid()
      modifies this, buf
      ensures Valid() && (buf == old(buf) || fresh(buf))
      ensures Contents() == old(Contents()) + t
      ensures len + free >= old(len + free)
    {
      var curlen := len;
      MakeRoomFor(|t|);
      forall i | 0 <= i < |t| {
        buf[curlen + i] := t[i];
      }
      len := curlen + |t|;
      free := free - |t|;
      buf[curlen + |t|] := NUL;
    }

    /** sdscpylen: when the block is too small it is grown by what is missing. */
    method CpyLen(t: cstring)
      requires Valid()
      modifies this, buf
      ensures Valid() && (buf == old(buf) || fresh(buf))
      ensures Contents() == t
    {
      var totlen := free + len;
      if totlen < |t| {
        MakeRoomFor(|t| - len);
        totlen := free + len;
      }
      forall i | 0 <= i < |t| {
        buf[i] := t[i];
      }
      buf[|t|] := NUL;
      len := |t|;
      free := totlen - |t|;
    }

    /** sdsgrowzero */
    method GrowZero(n: nat)
      requires Valid()
      modifies this, buf
      ensures Valid() && (buf == old(buf) || fresh(buf))
      ensures n <= old(len) ==> Contents() == old(Contents())
      ensures n > old(len) ==> Contents() == old(Contents()) + seq(n - old(len), _ => NUL)
    {
      var curlen := len;
      if n <= curlen {
        return;
      }
      MakeRoomFor(n - curlen);
      forall i | curlen <= i <= n {
        buf[i] := NUL;
      }
      var totlen := len + free;
      len := n;
      free := totlen - len;
    }

    /** sdstrim: two pointers walk in from the ends, then what is between them moves to the front. */
    method TrimInPlace(cset: cstring)
      requires Valid()
      modifies this`len, this`free, buf
      ensures Valid()
      ensures Contents() == Trim(old(Contents()), cset)
      ensures len + free == old(len + free)
    {
      hide Trim, TrimStart, TrimEnd;
      ghost var s := Contents();
      var sp, ep := TrimBounds(cset);
      var n := if sp > ep then 0 else ep - sp + 1;
      if sp != 0 {
        forall i | 0 <= i < n {
          buf[i] := buf[sp + i];
        }
      }
      buf[n] := NUL;
      free := free + (len - n);
      len := n;
      assert sp <= ep ==> Contents() == s[sp..ep + 1];
    }

    /** The two pointer loops of sdstrim. */
    method TrimBounds(cset: cstring) returns (sp: int, ep: int)
      requires Valid()
      ensures 0 <= sp <= len && -1 <= ep < len
      ensures Trim(Contents(), cset) == if sp > ep then [] else Contents()[sp..ep + 1]
    {
      hide Trim, TrimStart, TrimEnd;
      ghost var s := Contents();
      var end := len - 1;
      sp, ep := 0, end;
      assert s[0..] == s;
      while sp <= end && InSet(cset, buf[sp])
        invariant 0 <= sp <= len
        invariant TrimStart(s[sp..], cset) == TrimStart(s, cset)
      {
        TrimStartStep(s, sp, cset);
        sp := sp + 1;
      }
      ghost var t := s[sp..];
      TrimStartStep(s, sp, cset);
      TrimUnfold(s, cset);
      TrimNothing(cset);
      assert s[sp..ep + 1] == t;
      while ep > 0 && InSet(cset, buf[ep])
        invariant -1 <= ep < len && (ep == -1 ==> len == 0)
        invariant sp <= ep + 1 ==> TrimEnd(s[sp..ep + 1], cset) == TrimEnd(t, cset)
        invariant ep + 1 < sp ==> TrimEnd(t, cset) == []
        decreases ep
      {
        if sp <= ep {
          TrimEndStep(s, sp, ep + 1, cset);
        } else if sp == ep + 1 {
          assert s[sp..ep + 1] == [];
        }
        ep := ep - 1;
      }
      if sp == ep + 1 {
        assert s[sp..ep + 1] == [];
      }
      if sp <= ep {
        TrimEndStep(s, sp, ep + 1, cset);
      }
    }
  }

  lemma TrimStartStep(s: cstring, sp: nat, cset: cstring)
    requires sp <= |s|
    ensures TrimStart(s[sp..], cset)
         == if sp < |s| && InSet(cset, s[sp]) then TrimStart(s[sp + 1..], cset) else s[sp..]
  {
    if sp < |s| {
      assert s[sp..][1..] == s[sp + 1..];
    }
  }

  lemma TrimEndStep(s: cstring, sp: nat, hi: nat, cset: cstring)
    requires sp < hi <= |s|
    ensures TrimEnd(s[sp..hi], cset) == if InSet(cset, s[hi - 1]) then TrimEnd(s[sp..hi - 1], cset) else s[sp..hi]
  {
    assert s[sp..hi][..hi - sp - 1] == s[sp..hi - 1];
  }

  lemma TrimUnfold(s: cstring, cset: cstring)
    ensures Trim(s, cset) == TrimEnd(TrimStart(s, cset), cset)
  {
  }
}
