/** Base 64 of section 4 of RFC 4648, as the encoder and decoder compute it.  Bytes are numbers below 256:
    masks and shifts of the code are written as quotients and remainders by powers of two. */
module Base64 {
  import opened Bytes
  import opened Seqs

  const UPPER := "ABCDEFGHIJKLMNOPQRSTUVWXYZ"
  const LOWER := "abcdefghijklmnopqrstuvwxyz"
  const OTHER := "0123456789+/"
  const ALPHABET: string := UPPER + LOWER + OTHER

  predicate IsBase64(c: char) {
    'A' <= c <= 'Z' || 'a' <= c <= 'z' || '0' <= c <= '9' || c == '+' || c == '/'
  }

  /** base64_chars.find, as an unsigned char: 255 for a character that is not there. */
  function Find(c: char): byte {
    if 'A' <= c <= 'Z' then c as int - 'A' as int
    else if 'a' <= c <= 'z' then c as int - 'a' as int + 26
    else if '0' <= c <= '9' then c as int - '0' as int + 52
    else if c == '+' then 62
    else if c == '/' then 63
    else 255
  }

  lemma Upper()
    ensures forall i :: 0 <= i < |UPPER| ==> UPPER[i] as int == 'A' as int + i
  {
  }

  lemma Lower()
    ensures forall i :: 0 <= i < |LOWER| ==> LOWER[i] as int == 'a' as int + i
  {
  }

  lemma Other()
    ensures forall i :: 0 <= i < |OTHER| ==>
      OTHER[i] as int == if i < 10 then '0' as int + i else if i == 10 then '+' as int else '/' as int
  {
  }

  /** The alphabet and the search in it are inverses. */
  lemma AlphabetFound()
    ensures |ALPHABET| == 64
    ensures forall i :: 0 <= i < 64 ==> IsBase64(ALPHABET[i]) && Find(ALPHABET[i]) == i
    ensures forall c :: IsBase64(c) ==> Find(c) < 64 && ALPHABET[Find(c)] == c
  {
    Upper();
    Lower();
    Other();
  }

  /** The alphabet by character codes: capitals, small letters, digits, plus and slash. */
  lemma AlphabetTable(d: nat)
    requires d < 64
    ensures |ALPHABET| == 64
    ensures ALPHABET[d] as int == if d < 26 then 65 + d else if d < 52 then 97 + (d - 26)
                                  else if d < 62 then 48 + (d - 52) else if d == 62 then 43 else 47
  {
    Upper();
    Lower();
    Other();
  }

  /** Three bytes side by side make a number of 24 bits; four digits of 6 bits make another. */
  function Group24(a: byte, b: byte, c: byte): (v: nat)
    ensures v < 0x100_0000
  {
    a * 0x10000 + b * 0x100 + c
  }

  /** Digit `k` of the 24 bits, counted from the left. */
  function Digit(v: nat, k: nat): nat
    requires k < 4
  {
    if k == 0 then v / 0x40000 else if k == 1 then v / 0x1000 % 0x40 else if k == 2 then v / 0x40 % 0x40 else v % 0x40
  }

  function Letters(v: nat, n: nat): string
    requires v < 0x100_0000 && n <= 4
  {
    AlphabetFound();
    seq(n, k requires 0 <= k < n => ALPHABET[Digit(v, k)])
  }

  /** The encoding as the standard describes it: full groups, then one of two last groups with padding. */
  function Encoded(bytes: seq<byte>): string {
    if |bytes| >= 3 then Letters(Group24(bytes[0], bytes[1], bytes[2]), 4) + Encoded(bytes[3..])
    else if |bytes| == 2 then Letters(Group24(bytes[0], bytes[1], 0), 3) + "="
    else if |bytes| == 1 then Letters(Group24(bytes[0], 0, 0), 2) + "=="
    else ""
  }

  /** The bytes that four six-bit digits spell. */
  function Triple(d0: byte, d1: byte, d2: byte, d3: byte): (r: seq<byte>)
    ensures |r| == 3
  {
    [(d0 * 4 + d1 / 16 % 4) % 256, (d1 % 16 * 16 + d2 / 4 % 16) % 256, (d2 % 4 * 64 + d3) % 256]
  }

  /** What the decoder makes of characters of the alphabet: the last group may be incomplete. */
  function Decoded(s: string): seq<byte> {
    if |s| >= 4 then Triple(Find(s[0]), Find(s[1]), Find(s[2]), Find(s[3])) + Decoded(s[4..])
    else if |s| == 3 then Triple(Find(s[0]), Find(s[1]), Find(s[2]), Find('\0'))[..2]
    else if |s| == 2 then Triple(Find(s[0]), Find(s[1]), Find('\0'), Find('\0'))[..1]
    else []
  }

  /** The decoder stops at the first character outside the alphabet, such as '='. */
  function Body(s: string): string {
    if s != "" && s[0] != '=' && IsBase64(s[0]) then [s[0]] + Body(s[1..]) else ""
  }

  lemma Over18Bits(q: nat, r: nat)
    requires r < 0x40000
    ensures (0x40000 * q + r) / 0x40000 == q
  {
  }

  lemma Over12Bits(q: nat, r: nat)
    requires r < 0x1000
    ensures (0x1000 * q + r) / 0x1000 == q
  {
  }

  lemma Over6Bits(q: nat, r: nat)
    requires r < 0x40
    ensures (0x40 * q + r) / 0x40 == q && (0x40 * q + r) % 0x40 == r
  {
  }

  lemma DigitsOfGroup(a: byte, b: byte, c: byte)
    ensures var v := Group24(a, b, c);
            && Digit(v, 0) == a / 4 < 64
            && Digit(v, 1) == a % 4 * 16 + b / 16 < 64
            && Digit(v, 2) == b % 16 * 4 + c / 64 < 64
            && Digit(v, 3) == c % 64 < 64
  {
    var v := Group24(a, b, c);
    Over18Bits(a / 4, a % 4 * 0x10000 + b * 0x100 + c);
    Over12Bits(a * 16 + b / 16, b % 16 * 0x100 + c);
    Over6Bits(a * 1024 + b * 4 + c / 64, c % 64);
    Over6Bits(a / 4, a % 4 * 16 + b / 16);
    Over6Bits(a * 16 + b / 16, b % 16 * 4 + c / 64);
  }

  lemma FirstByte(a: byte, x: nat)
    requires x < 16
    ensures (a / 4 * 4 + (a % 4 * 16 + x) / 16 % 4) % 256 == a
  {
    assert (a % 4 * 16 + x) / 16 == a % 4;
  }

  lemma SecondByte(b: byte, x: nat, y: nat)
    requires x < 4 && y < 4
    ensures ((x * 16 + b / 16) % 16 * 16 + (b % 16 * 4 + y) / 4 % 16) % 256 == b
  {
    assert (x * 16 + b / 16) % 16 == b / 16;
    assert (b % 16 * 4 + y) / 4 == b % 16;
  }

  lemma ThirdByte(c: byte, x: nat)
    requires x < 16
    ensures ((x * 4 + c / 64) % 4 * 64 + c % 64) % 256 == c
  {
    assert (x * 4 + c / 64) % 4 == c / 64;
  }

  lemma TripleOfThree(a: byte, b: byte, c: byte)
    ensures Triple(a / 4, a % 4 * 16 + b / 16, b % 16 * 4 + c / 64, c % 64) == [a, b, c]
  {
    FirstByte(a, b / 16);
    SecondByte(b, a % 4, c / 64);
    ThirdByte(c, b % 16);
  }

  lemma TripleOfTwo(a: byte, b: byte, x: byte)
    ensures Triple(a / 4, a % 4 * 16 + b / 16, b % 16 * 4, x)[..2] == [a, b]
  {
    FirstByte(a, b / 16);
    SecondByte(b, a % 4, 0);
  }

  lemma TripleOfOne(a: byte, x: byte, y: byte)
    ensures Triple(a / 4, a % 4 * 16, x, y)[..1] == [a]
  {
    FirstByte(a, 0);
  }

  lemma LettersOf(a: byte, b: byte, c: byte, n: nat)
    requires n <= 4
    ensures var v := Group24(a, b, c); var s := Letters(v, n);
            && |s| == n
            && (forall k :: 0 <= k < n ==> IsBase64(s[k]) && s[k] != '=' && Find(s[k]) == Digit(v, k))
  {
    DigitsOfGroup(a, b, c);
    AlphabetFound();
  }

  lemma {:induction false} BodyConcat(u: string, w: string)
    requires forall k :: 0 <= k < |u| ==> IsBase64(u[k]) && u[k] != '='
    ensures Body(u + w) == u + Body(w)
  {
    if u == "" {
      assert u + w == w;
    } else {
      assert (u + w)[1..] == u[1..] + w;
      BodyConcat(u[1..], w);
    }
  }

  lemma BodyOfPadding(w: string)
    requires w != "" ==> w[0] == '='
    ensures Body(w) == ""
  {
  }

  lemma DecodeGroup(a: byte, b: byte, c: byte, rest: string)
    ensures Decoded(Letters(Group24(a, b, c), 4) + rest) == [a, b, c] + Decoded(rest)
  {
    var s := Letters(Group24(a, b, c), 4) + rest;
    LettersOf(a, b, c, 4);
    DigitsOfGroup(a, b, c);
    TripleOfThree(a, b, c);
    hide Letters, Triple, Digit, Group24, Find;
    assert s[4..] == rest;
  }

  lemma DecodeTwo(a: byte, b: byte)
    ensures Decoded(Letters(Group24(a, b, 0), 3)) == [a, b]
  {
    LettersOf(a, b, 0, 3);
    DigitsOfGroup(a, b, 0);
    TripleOfTwo(a, b, Find('\0'));
    hide Letters, Triple, Digit, Group24, Find;
  }

  lemma DecodeOne(a: byte)
    ensures Decoded(Letters(Group24(a, 0, 0), 2)) == [a]
  {
    LettersOf(a, 0, 0, 2);
    DigitsOfGroup(a, 0, 0);
    TripleOfOne(a, Find('\0'), Find('\0'));
    hide Letters, Triple, Digit, Group24, Find;
  }

  lemma EncodedBy(bytes: seq<byte>)
    ensures |bytes| >= 3 ==>
      Encoded(bytes) == Letters(Group24(bytes[0], bytes[1], bytes[2]), 4) + Encoded(bytes[3..])
    ensures |bytes| == 2 ==> Encoded(bytes) == Letters(Group24(bytes[0], bytes[1], 0), 3) + "="
    ensures |bytes| == 1 ==> Encoded(bytes) == Letters(Group24(bytes[0], 0, 0), 2) + "=="
    ensures |bytes| == 0 ==> Encoded(bytes) == ""
  {
  }

  /** Decoding gives back what was encoded. */
  lemma {:induction false} RoundTrip(bytes: seq<byte>)
    ensures Decoded(Body(Encoded(bytes))) == bytes
  {
    hide Letters, Group24, Decoded, Body;
    EncodedBy(bytes);
    if |bytes| >= 3 {
      var a, b, c := bytes[0], bytes[1], bytes[2];
      LettersOf(a, b, c, 4);
      BodyConcat(Letters(Group24(a, b, c), 4), Encoded(bytes[3..]));
      DecodeGroup(a, b, c, Body(Encoded(bytes[3..])));
      RoundTrip(bytes[3..]);
      assert bytes == [a, b, c] + bytes[3..];
    } else if |bytes| == 2 {
      LettersOf(bytes[0], bytes[1], 0, 3);
      BodyConcat(Letters(Group24(bytes[0], bytes[1], 0), 3), "=");
      BodyOfPadding("=");
      DecodeTwo(bytes[0], bytes[1]);
      assert Body(Encoded(bytes)) == Letters(Group24(bytes[0], bytes[1], 0), 3);
    } else if |bytes| == 1 {
      LettersOf(bytes[0], 0, 0, 2);
      BodyConcat(Letters(Group24(bytes[0], 0, 0), 2), "==");
      BodyOfPadding("==");
      DecodeOne(bytes[0]);
      assert Body(Encoded(bytes)) == Letters(Group24(bytes[0], 0, 0), 2);
    } else {
      BodyOfPadding("");
      DecodeNone();
    }
  }

  lemma DecodeNone()
    ensures Decoded("") == []
  {
  }

  predicate Padded(s: string, n: nat, pad: nat) {
    |s| == n && forall k :: 0 <= k < |s| ==> if k < n - pad then IsBase64(s[k]) else s[k] == '='
  }

  lemma PaddedConcat(u: string, s: string, n: nat, pad: nat)
    requires (forall k :: 0 <= k < |u| ==> IsBase64(u[k])) && Padded(s, n, pad) && pad <= n
    ensures Padded(u + s, |u| + n, pad)
  {
  }

  function PadLength(n: nat): nat {
    if n % 3 == 0 then 0 else 3 - n % 3
  }

  function EncodedLength(n: nat): nat {
    (n + 2) / 3 * 4
  }

  lemma LengthStep(n: nat)
    requires n >= 3
    ensures EncodedLength(n) == 4 + EncodedLength(n - 3) && PadLength(n) == PadLength(n - 3)
    ensures PadLength(n - 3) <= EncodedLength(n - 3)
  {
  }

  lemma ShortLengths()
    ensures EncodedLength(0) == 0 && EncodedLength(1) == 4 && EncodedLength(2) == 4
    ensures PadLength(0) == 0 && PadLength(1) == 2 && PadLength(2) == 1
  {
  }

  /** Length, alphabet and padding of the encoding. */
  lemma {:induction false} EncodedShape(bytes: seq<byte>)
    ensures Padded(Encoded(bytes), EncodedLength(|bytes|), PadLength(|bytes|))
  {
    hide Encoded, Letters, Group24, Padded, IsBase64, EncodedLength, PadLength, Digit, Find;
    ShortLengths();
    EncodedBy(bytes);
    if |bytes| >= 3 {
      LengthStep(|bytes|);
      LettersOf(bytes[0], bytes[1], bytes[2], 4);
      EncodedShape(bytes[3..]);
      PaddedConcat(Letters(Group24(bytes[0], bytes[1], bytes[2]), 4), Encoded(bytes[3..]),
                   EncodedLength(|bytes| - 3), PadLength(|bytes| - 3));
    } else if |bytes| == 2 {
      LettersOf(bytes[0], bytes[1], 0, 3);
      PaddedEnd("=");
      PaddedConcat(Letters(Group24(bytes[0], bytes[1], 0), 3), "=", 1, 1);
    } else if |bytes| == 1 {
      LettersOf(bytes[0], 0, 0, 2);
      PaddedEnd("==");
      PaddedConcat(Letters(Group24(bytes[0], 0, 0), 2), "==", 2, 2);
    } else {
      PaddedEnd("");
    }
  }

  lemma PaddedEnd(s: string)
    requires forall k :: 0 <= k < |s| ==> s[k] == '='
    ensures Padded(s, |s|, |s|)
  {
  }

  /** The four digits of a group, from its three bytes, as the code masks and shifts them. */
  method Split(three: array<byte>, four: array<byte>)
    requires three.Length == 3 && four.Length == 4
    modifies four
    ensures forall k :: 0 <= k < 4 ==> four[k] == Digit(Group24(three[0], three[1], three[2]), k) < 64
  {
    DigitsOfGroup(three[0], three[1], three[2]);
    hide Digit, Group24;
    four[0] := three[0] / 4;
    four[1] := three[0] % 4 * 16 + three[1] / 16;
    four[2] := three[1] % 16 * 4 + three[2] / 64;
    four[3] := three[2] % 64;
  }

  /** The loops that append `n` letters of a group. */
  method AppendLetters(ret: string, three: array<byte>, four: array<byte>, n: nat) returns (r: string)
    requires three.Length == 3 && four.Length == 4 && three != four && n <= 4
    modifies four
    ensures r == ret + Letters(Group24(three[0], three[1], three[2]), n)
  {
    Split(three, four);
    AlphabetFound();
    hide Digit, Group24;
    r := ret;
    for i := 0 to n
      invariant r == ret + Letters(Group24(three[0], three[1], three[2]), n)[..i]
    {
      r := r + [ALPHABET[four[i]]];
    }
  }

  /** base64_encode */
  method Encode(bytes: seq<byte>) returns (ret: string)
    ensures ret == Encoded(bytes)
  {
    hide Encoded, Letters, Group24;
    ret := "";
    var i := 0;
    var three, four := new byte[3](_ => 0), new byte[4](_ => 0);
    assert bytes[0..] == bytes;
    for n := 0 to |bytes|
      invariant 0 <= i < 3 && i <= n && three != four
      invariant (i >= 1 ==> three[0] == bytes[n - i]) && (i >= 2 ==> three[1] == bytes[n - i + 1])
      invariant ret + Encoded(bytes[n - i..]) == Encoded(bytes)
    {
      three[i] := bytes[n];
      i := i + 1;
      if i == 3 {
        EncodedBy(bytes[n - 2..]);
        assert bytes[n - 2..][3..] == bytes[n + 1..];
        ghost var before, rest := ret, Encoded(bytes[n + 1..]);
        ret := AppendLetters(ret, three, four, 4);
        Associate(before, ret[|before|..], rest);
        i := 0;
      }
    }
    EncodedBy(bytes[|bytes| - i..]);
    if i != 0 {
      ret := AppendLast(ret, three, four, i, bytes[|bytes| - i..]);
    }
  }

  /** The last group, filled up with zeros, and the padding. */
  method AppendLast(ret: string, three: array<byte>, four: array<byte>, n: nat, ghost tail: seq<byte>)
    returns (r: string)
    requires three.Length == 3 && four.Length == 4 && three != four && 1 <= n <= 2 && |tail| == n
    requires three[0] == tail[0] && (n == 2 ==> three[1] == tail[1])
    modifies three, four
    ensures r == ret + Encoded(tail)
  {
    hide Encoded, Letters, Group24;
    EncodedBy(tail);
    for j := n to 3
      invariant three[0] == tail[0] && (n == 2 ==> three[1] == tail[1])
      invariant forall k :: n <= k < j ==> three[k] == 0
    {
      three[j] := 0;
    }
    r := AppendLetters(ret, three, four, n + 1);
    ghost var letters := r;
    var i := n;
    while i < 3
      invariant n <= i <= 3 && r == letters + seq(i - n, _ => '=')
    {
      r := r + "=";
      i := i + 1;
    }
  }

  /** The loops that decode the first `n` letters, the others being NUL, and append `n - 1` bytes. */
  method AppendBytes(ret: seq<byte>, letters: array<char>, n: nat) returns (r: seq<byte>)
    requires letters.Length == 4 && 1 <= n <= 4
    requires forall k :: n <= k < 4 ==> letters[k] == '\0'
    ensures r == ret + Decoded(letters[..n])
  {
    var four := new byte[4](_ => 0);
    for i := 0 to 4
      invariant forall k :: 0 <= k < i ==> four[k] == Find(letters[k])
    {
      four[i] := Find(letters[i]);
    }
    hide Find;
    var three := new byte[3](_ => 0);
    var d0: int, d1: int, d2: int, d3: int := four[0], four[1], four[2], four[3];
    three[0] := (d0 * 4 + d1 / 16 % 4) % 256;
    three[1] := (d1 % 16 * 16 + d2 / 4 % 16) % 256;
    three[2] := (d2 % 4 * 64 + d3) % 256;
    assert three[..] == Triple(four[0], four[1], four[2], four[3]);
    DecodedGroup(letters[..n]);
    hide Triple, Decoded;
    r := ret;
    for i := 0 to n - 1
      invariant r == ret + three[..][..i]
    {
      r := r + [three[i]];
    }
  }

  lemma DecodedGroup(s: string)
    requires |s| <= 4
    ensures var z := Find('\0');
            && (|s| == 4 ==> Decoded(s) == Triple(Find(s[0]), Find(s[1]), Find(s[2]), Find(s[3])))
            && (|s| == 3 ==> Decoded(s) == Triple(Find(s[0]), Find(s[1]), Find(s[2]), z)[..2])
            && (|s| == 2 ==> Decoded(s) == Triple(Find(s[0]), Find(s[1]), z, z)[..1])
            && (|s| <= 1 ==> Decoded(s) == [])
  {
  }

  lemma DecodedMore(s: string)
    requires |s| >= 4
    ensures Decoded(s) == Decoded(s[..4]) + Decoded(s[4..])
  {
    assert s[..4][4..] == "";
  }

  lemma BodyStep(s: string, n: nat)
    requires n <= |s|
    ensures n < |s| && s[n] != '=' && IsBase64(s[n]) ==> Body(s[n..]) == [s[n]] + Body(s[n + 1..])
    ensures n == |s| || s[n] == '=' || !IsBase64(s[n]) ==> Body(s[n..]) == ""
  {
    if n < |s| {
      assert s[n..][1..] == s[n + 1..];
    }
  }

  /** base64_decode */
  method Decode(s: string) returns (ret: seq<byte>)
    ensures ret == Decoded(Body(s))
  {
    hide Decoded, Body, IsBase64;
    ret := [];
    var i, n := 0, 0;
    var letters := new char[4](_ => '\0');
    assert s[0..] == s && letters[..0] == "" && "" + Body(s) == Body(s);
    while n < |s| && s[n] != '=' && IsBase64(s[n])
      invariant 0 <= i < 4 && n <= |s|
      invariant Decoded(Body(s)) == ret + Decoded(letters[..i] + Body(s[n..]))
      decreases |s| - n
    {
      BodyStep(s, n);
      ghost var rest := letters[..i] + Body(s[n..]);
      letters[i] := s[n];
      i := i + 1;
      n := n + 1;
      assert rest == letters[..i] + Body(s[n..]);
      if i == 4 {
        DecodedMore(rest);
        assert rest[..4] == letters[..4] && rest[4..] == Body(s[n..]);
        ret := AppendBytes(ret, letters, 4);
        i := 0;
        assert letters[..0] + Body(s[n..]) == Body(s[n..]);
      }
    }
    BodyStep(s, n);
    assert letters[..i] + "" == letters[..i];
    if i != 0 {
      ghost var last := letters[..i];
      for j := i to 4
        invariant letters[..i] == last
        invariant forall k :: i <= k < j ==> letters[k] == '\0'
      {
        letters[j] := '\0';
      }
      ret := AppendBytes(ret, letters, i);
    } else {
      DecodeNone();
    }
  }

  // ---------- The standard, in numbers ----------

  /** The number that four characters of the alphabet stand for, in base 64. */
  function Value64(s: string): nat
    requires |s| == 4
  {
    Find(s[0]) as int * 0x40000 + Find(s[1]) as int * 0x1000 + Find(s[2]) as int * 0x40 + Find(s[3]) as int
  }

  lemma FourDigits(v: nat)
    requires v < 0x100_0000
    ensures Digit(v, 0) * 0x40000 + Digit(v, 1) * 0x1000 + Digit(v, 2) * 0x40 + Digit(v, 3) == v
  {
  }

  lemma GroupValue(a: byte, b: byte, c: byte)
    ensures Value64(Letters(Group24(a, b, c), 4)) == a as int * 0x10000 + b as int * 0x100 + c as int
  {
    LettersOf(a, b, c, 4);
    FourDigits(Group24(a, b, c));
    hide Find, Digit, Letters;
  }

  lemma LastLetters(a: byte, b: byte)
    ensures Letters(Group24(a, b, 0), 3) + "A" == Letters(Group24(a, b, 0), 4)
    ensures Letters(Group24(a, 0, 0), 2) + "AA" == Letters(Group24(a, 0, 0), 4)
  {
    DigitsOfGroup(a, b, 0);
    DigitsOfGroup(a, 0, 0);
    AlphabetTable(0);
    hide Digit, Group24;
  }

  /** Section 4 of RFC 4648: every four characters stand for the number that the three bytes make, the first byte
      highest; with one or two bytes left, the missing ones count as zero and padding stands for the last
      characters, which would be A. */
  lemma {:induction false} EncodedExactly(bytes: seq<byte>)
    ensures |bytes| == 0 ==> Encoded(bytes) == ""
    ensures |bytes| == 1 ==>
      var s := Encoded(bytes);
      |s| == 4 && s[2..] == "==" && Value64(s[..2] + "AA") == bytes[0] as int * 0x10000
    ensures |bytes| == 2 ==>
      var s := Encoded(bytes);
      |s| == 4 && s[3..] == "=" && Value64(s[..3] + "A") == bytes[0] as int * 0x10000 + bytes[1] as int * 0x100
    ensures |bytes| >= 3 ==>
      var s := Encoded(bytes);
      && |s| >= 4 && s[4..] == Encoded(bytes[3..])
      && Value64(s[..4]) == bytes[0] as int * 0x10000 + bytes[1] as int * 0x100 + bytes[2] as int
  {
    hide Letters, Group24, Digit, Find, Value64, Encoded;
    EncodedBy(bytes);
    if |bytes| >= 3 {
      GroupValue(bytes[0], bytes[1], bytes[2]);
      LettersOf(bytes[0], bytes[1], bytes[2], 4);
      var s := Letters(Group24(bytes[0], bytes[1], bytes[2]), 4) + Encoded(bytes[3..]);
      assert s[..4] == Letters(Group24(bytes[0], bytes[1], bytes[2]), 4) && s[4..] == Encoded(bytes[3..]);
    } else if |bytes| == 2 {
      GroupValue(bytes[0], bytes[1], 0);
      LettersOf(bytes[0], bytes[1], 0, 3);
      LastLetters(bytes[0], bytes[1]);
      var u := Letters(Group24(bytes[0], bytes[1], 0), 3);
      assert (u + "=")[..3] == u && (u + "=")[3..] == "=";
    } else if |bytes| == 1 {
      GroupValue(bytes[0], 0, 0);
      LettersOf(bytes[0], 0, 0, 2);
      LastLetters(bytes[0], 0);
      var u := Letters(Group24(bytes[0], 0, 0), 2);
      assert (u + "==")[..2] == u && (u + "==")[2..] == "==";
    }
  }

  lemma TripleValue(d0: byte, d1: byte, d2: byte, d3: byte)
    requires d0 < 64 && d1 < 64 && d2 < 64 && d3 < 64
    ensures var r := Triple(d0, d1, d2, d3);
            r[0] as int * 0x10000 + r[1] as int * 0x100 + r[2] as int
            == d0 as int * 0x40000 + d1 as int * 0x1000 + d2 as int * 0x40 + d3 as int
  {
    assert d1 == 16 * (d1 / 16) + d1 % 16 && d2 == 4 * (d2 / 4) + d2 % 4;
    assert (d0 * 4 + d1 / 16) % 256 == d0 * 4 + d1 / 16;
    assert (d1 % 16 * 16 + d2 / 4) % 256 == d1 % 16 * 16 + d2 / 4;
    assert (d2 % 4 * 64 + d3) % 256 == d2 % 4 * 64 + d3;
  }

  /** Decoding: four characters give the three bytes of the number they stand for; of two or three that are left, one
      or two bytes are complete; a single one gives none. */
  lemma DecodedExactly(s: string)
    requires forall i :: 0 <= i < |s| ==> IsBase64(s[i])
    ensures |s| >= 4 ==>
      var r := Decoded(s);
      && |r| >= 3 && r[3..] == Decoded(s[4..])
      && r[0] as int * 0x10000 + r[1] as int * 0x100 + r[2] as int == Value64(s[..4])
    ensures |s| == 3 ==> var r := Decoded(s); |r| == 2 && r[0] as int * 0x100 + r[1] as int == Value64(s + "A") / 0x100
    ensures |s| == 2 ==> var r := Decoded(s); |r| == 1 && r[0] as int == Value64(s + "AA") / 0x10000
    ensures |s| < 2 ==> Decoded(s) == []
  {
    AlphabetFound();
    assert forall i :: 0 <= i < |s| ==> Find(s[i]) < 64;
    if |s| >= 4 {
      var t := Triple(Find(s[0]), Find(s[1]), Find(s[2]), Find(s[3]));
      TripleValue(Find(s[0]), Find(s[1]), Find(s[2]), Find(s[3]));
      assert (t + Decoded(s[4..]))[3..] == Decoded(s[4..]);
    } else if |s| == 3 {
      TripleValue(Find(s[0]), Find(s[1]), Find(s[2]), 0);
    } else if |s| == 2 {
      TripleValue(Find(s[0]), Find(s[1]), 0, 0);
    }
  }

  /** What is decoded is the longest part of the text, from its beginning, in which every character is of the
      alphabet. */
  lemma {:induction false} BodyLongest(s: string)
    ensures Body(s) <= s && (forall i :: 0 <= i < |Body(s)| ==> IsBase64(s[i]))
    ensures |Body(s)| < |s| ==> !IsBase64(s[|Body(s)|])
  {
    if s != "" && s[0] != '=' && IsBase64(s[0]) {
      BodyLongest(s[1..]);
    }
  }

  method EncodeThenDecode(bytes: seq<byte>) returns (back: seq<byte>)
    ensures back == bytes
  {
    var text := Encode(bytes);
    RoundTrip(bytes);
    back := Decode(text);
  }
}
