/** Bytes and C strings, and the character classes of the "C" locale that the text formats use. */
module CStrings {
  type cchar = c: char | c as int < 256
  type cstring = seq<cchar>

  const NUL: cchar := '\0'
  const BELL: cchar := 7 as char
  const BACKSPACE: cchar := 8 as char
  const VTAB: cchar := 11 as char
  const FORMFEED: cchar := 12 as char

  /** `s[i]` of a NUL-terminated string; reading the terminator is allowed, reading past it is not. */
  function At(s: cstring, i: nat): cchar
    requires i <= |s|
  {
    if i < |s| then s[i] else NUL
  }

  predicate IsSpace(c: cchar) {
    c == ' ' || c == '\t' || c == '\n' || c == VTAB || c == FORMFEED || c == '\r'
  }

  predicate IsPrint(c: cchar) {
    ' ' <= c <= '~'
  }

  predicate IsDigit(c: cchar) {
    '0' <= c <= '9'
  }

  predicate IsAlpha(c: cchar) {
    'a' <= c <= 'z' || 'A' <= c <= 'Z'
  }

  predicate IsHexDigit(c: cchar) {
    '0' <= c <= '9' || 'a' <= c <= 'f' || 'A' <= c <= 'F'
  }

  function HexValue(c: cchar): (v: nat)
    ensures v < 16
  {
    if '0' <= c <= '9' then c as int - '0' as int
    else if 'a' <= c <= 'f' then c as int - 'a' as int + 10
    else if 'A' <= c <= 'F' then c as int - 'A' as int + 10
    else 0
  }

  function HexDigit(v: nat): (c: cchar)
    requires v < 16
    ensures IsHexDigit(c) && HexValue(c) == v
  {
    if v < 10 then ('0' as int + v) as char else ('a' as int + v - 10) as char
  }

  function ToLower(c: cchar): cchar {
    if 'A' <= c <= 'Z' then (c as int + 32) as char else c
  }

  function Lower(s: cstring): (r: cstring)
    ensures |r| == |s|
  {
    seq(|s|, i requires 0 <= i < |s| => ToLower(s[i]))
  }

  /** First position from `p` on that does not hold white space. */
  function SkipBlanks(s: cstring, p: nat): (q: nat)
    requires p <= |s|
    ensures p <= q <= |s| && !IsSpace(At(s, q))
    decreases |s| - p
  {
    if IsSpace(At(s, p)) then SkipBlanks(s, p + 1) else p
  }

  /** `t` stands in `s` at `p`. */
  ghost predicate Stands(s: cstring, p: nat, t: cstring) {
    p + |t| <= |s| && s[p..p + |t|] == t
  }

  lemma StandsSplit(s: cstring, p: nat, t: cstring, u: cstring)
    requires Stands(s, p, t + u)
    ensures Stands(s, p, t) && Stands(s, p + |t|, u)
  {
    assert s[p..p + |t|] == s[p..p + |t + u|][..|t|];
    assert s[p + |t|..p + |t| + |u|] == s[p..p + |t + u|][|t|..];
  }

  lemma StandsAt(s: cstring, p: nat, t: cstring, i: nat)
    requires Stands(s, p, t) && i < |t|
    ensures At(s, p + i) == t[i]
  {
    assert s[p..p + |t|][i] == s[p + i];
  }

  predicate NoNul(s: cstring) {
    forall i :: 0 <= i < |s| ==> s[i] != NUL
  }

  predicate Avoids(s: cstring, c: cchar) {
    forall i :: 0 <= i < |s| ==> s[i] != c
  }

  /** The C string a buffer holds. */
  function CStr(s: cstring): (r: cstring)
    ensures NoNul(r)
  {
    if s == [] || s[0] == NUL then [] else [s[0]] + CStr(s[1..])
  }

  lemma {:induction false} CStrPrefix(s: cstring)
    ensures |CStr(s)| <= |s| && CStr(s) == s[..|CStr(s)|]
  {
    if s != [] && s[0] != NUL {
      CStrPrefix(s[1..]);
      assert CStr(s) == [s[0]] + s[1..][..|CStr(s[1..])|];
    }
  }

  lemma {:induction false} CStrNoNul(s: cstring)
    requires NoNul(s)
    ensures CStr(s) == s
  {
    if s != [] {
      CStrNoNul(s[1..]);
    }
  }

  lemma {:induction false} CStrStops(s: cstring, rest: cstring)
    requires NoNul(s)
    ensures CStr(s + [NUL] + rest) == s
  {
    if s != [] {
      CStrStops(s[1..], rest);
      assert (s + [NUL] + rest)[1..] == s[1..] + [NUL] + rest;
    }
  }
}
