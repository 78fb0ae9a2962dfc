/** The streaming MD5 of md5.cpp over an arbitrary block function, against the one-shot definition
    of RFC 1321 (sections 3.1 to 3.5). */
module Md5 {
  import opened Bytes
  import opened Seqs

  type word = w: int | 0 <= w < 0x1_0000_0000
  type Chain = s: seq<word> | |s| == 4 witness [0, 0, 0, 0]

  /** MD5Transform: mixes one 64-byte block into the chaining value. */
  type Transform = (Chain, seq<byte>) -> Chain

  const INITIAL: Chain := [0x67452301, 0xefcdab89, 0x98badcfe, 0x10325476]
  const WORD := 0x1_0000_0000
  const TWO_WORDS := 0x1_0000_0000_0000_0000

  // ---------- The one-shot definition ----------

  function Fold(f: Transform, h: Chain, m: seq<byte>): Chain
    requires |m| % 64 == 0
  {
    if m == [] then h else f(Fold(f, h, m[..|m| - 64]), m[|m| - 64..])
  }

  function Zeros(n: nat): (s: seq<byte>)
    ensures |s| == n
  {
    seq(n, _ => 0)
  }

  function LittleEndian(w: word): (s: seq<byte>)
    ensures |s| == 4
  {
    [w % 0x100, w / 0x100 % 0x100, w / 0x1_0000 % 0x100, w / 0x100_0000]
  }

  /** Number of padding bytes, the leading 0x80 included. */
  function PadLength(n: nat): (k: nat)
    ensures 1 <= k <= 64 && (n + k) % 64 == 56
  {
    var index := n % 64;
    if index < 56 then 56 - index else 120 - index
  }

  /** The bit length modulo 2^64, low-order byte first. */
  function BitLength(n: nat): (s: seq<byte>)
    ensures |s| == 8
  {
    var bits := 8 * n % TWO_WORDS;
    LittleEndian(bits % WORD) + LittleEndian(bits / WORD)
  }

  lemma PadTotal(n: nat)
    ensures (n + PadLength(n) + 8) % 64 == 0
  {
    var q := n / 64;
    assert n + PadLength(n) + 8 == 64 * (q + 1) || n + PadLength(n) + 8 == 64 * (q + 2);
  }

  /** Sections 3.1 and 3.2: the message, a one bit, zeros to 56 modulo 64, and the bit length. */
  function Pad(m: seq<byte>): (p: seq<byte>)
    ensures |p| % 64 == 0
  {
    PadTotal(|m|);
    m + ([0x80] + Zeros(PadLength(|m|) - 1)) + BitLength(|m|)
  }

  function Output(h: Chain): seq<byte> {
    LittleEndian(h[0]) + LittleEndian(h[1]) + LittleEndian(h[2]) + LittleEndian(h[3])
  }

  function Digest(f: Transform, m: seq<byte>): seq<byte> {
    Output(Fold(f, INITIAL, Pad(m)))
  }

  /** The number that bytes stand for, low-order byte first. */
  function Value(s: seq<byte>): nat {
    if s == [] then 0 else s[0] + 0x100 * Value(s[1..])
  }

  lemma ValueOfFour(s: seq<byte>)
    requires |s| == 4
    ensures Value(s) == s[0] as int + 0x100 * s[1] as int + 0x1_0000 * s[2] as int + 0x100_0000 * s[3] as int
  {
    assert s[1..][1..] == [s[2], s[3]] && [s[2], s[3]][1..] == [s[3]] && [s[3]][1..] == [];
  }

  lemma Quotients(w: nat)
    ensures w / 0x1_0000 == w / 0x100 / 0x100 && w / 0x100_0000 == w / 0x100 / 0x100 / 0x100
  {
  }

  lemma SplitByte(w: nat)
    ensures w == w % 0x100 + 0x100 * (w / 0x100)
  {
  }

  lemma LittleEndianValue(w: word)
    ensures Value(LittleEndian(w)) == w
  {
    hide Value;
    ValueOfFour(LittleEndian(w));
    Quotients(w);
    var q1 := w / 0x100;
    var q2 := q1 / 0x100;
    SplitByte(w);
    SplitByte(q1);
    SplitByte(q2);
  }

  lemma {:induction false} ValueConcat(a: seq<byte>, b: seq<byte>)
    requires |a| == 4
    ensures Value(a + b) == Value(a) + WORD * Value(b)
  {
    ValueOfFour(a);
    assert a + b == [a[0]] + ([a[1]] + ([a[2]] + ([a[3]] + b)));
    ValueCons(a[3], b);
    ValueCons(a[2], [a[3]] + b);
    ValueCons(a[1], [a[2]] + ([a[3]] + b));
    ValueCons(a[0], [a[1]] + ([a[2]] + ([a[3]] + b)));
  }

  lemma ValueCons(x: byte, s: seq<byte>)
    ensures Value([x] + s) == x + 0x100 * Value(s)
  {
    assert ([x] + s)[1..] == s;
  }

  /** The padded message, byte by byte: the message, 0x80, as few zeros as fill up blocks of 64 with eight bytes to
      spare, and in these the number of bits modulo 2^64, low-order byte first. */
  lemma PadExactly(m: seq<byte>)
    ensures var p, n := Pad(m), |m|;
            && |p| % 64 == 0 && n + 9 <= |p| < n + 73
            && p[..n] == m && p[n] == 0x80
            && (forall i :: n < i < |p| - 8 ==> p[i] == 0)
            && Value(p[|p| - 8..]) == 8 * n % 0x1_0000_0000_0000_0000
  {
    hide LittleEndian;
    var bits := 8 * |m| % TWO_WORDS;
    LittleEndianValue(bits % WORD);
    LittleEndianValue(bits / WORD);
    ValueConcat(LittleEndian(bits % WORD), LittleEndian(bits / WORD));
    assert Pad(m)[|Pad(m)| - 8..] == BitLength(|m|);
    hide Value;
  }

  /** The chaining value that section 3.3 starts from, as its table of bytes. */
  lemma InitialBytes()
    ensures Output(INITIAL) == [0x01, 0x23, 0x45, 0x67, 0x89, 0xab, 0xcd, 0xef,
                                0xfe, 0xdc, 0xba, 0x98, 0x76, 0x54, 0x32, 0x10]
  {
  }

  /** The digest is the final chaining value, word by word, low-order byte first. */
  lemma OutputWords(h: Chain, i: nat)
    requires i < 4
    ensures |Output(h)| == 16 && Value(Output(h)[4 * i..4 * i + 4]) == h[i]
  {
    LittleEndianValue(h[i]);
    assert Output(h)[4 * i..4 * i + 4] == LittleEndian(h[i]);
  }

  /** The padding length is the only one the standard allows. */
  lemma PadLengthUnique(n: nat, k: nat)
    requires 1 <= k <= 64 && (n + k) % 64 == 56
    ensures k == PadLength(n)
  {
  }

  lemma FoldStep(f: Transform, h: Chain, m: seq<byte>, k: nat)
    requires k % 64 == 0 && k + 64 <= |m|
    ensures Fold(f, h, m[..k + 64]) == f(Fold(f, h, m[..k]), m[k..k + 64])
  {
    var p := m[..k + 64];
    assert p[..|p| - 64] == m[..k] && p[|p| - 64..] == m[k..k + 64];
  }

  // ---------- The bit count ----------

  /** The two-word addition of Update, with its carry. */
  function AddCount(c0: word, c1: word, len: nat): (word, word)
    requires len < UINT_LIMIT
  {
    var bits := len * 8 % WORD;
    var c0' := (c0 + bits) % WORD;
    var c1' := if c0' < bits then (c1 + 1) % WORD else c1;
    (c0', (c1' + len / 0x2000_0000) % WORD)
  }

  /** The count is eight times the length, modulo 2^64. */
  ghost predicate Counts(c0: word, c1: word, n: nat) {
    c0 + WORD * c1 == 8 * n % TWO_WORDS
  }

  lemma ModTwoWords(q: int, r: int)
    requires 0 <= r < TWO_WORDS
    ensures (q * TWO_WORDS + r) % TWO_WORDS == r
  {
  }

  lemma Mod64(q: int, r: int)
    requires 0 <= r < 64
    ensures (64 * q + r) % 64 == r
  {
  }

  lemma AddCountCorrect(c0: word, c1: word, n: nat, len: nat)
    requires Counts(c0, c1, n) && len < UINT_LIMIT
    ensures var (d0, d1) := AddCount(c0, c1, len); Counts(d0, d1, n + len)
  {
    var q := 8 * n / TWO_WORDS;
    var k := AddCountCarry(c0, c1, len);
    var (d0, d1) := AddCount(c0, c1, len);
    assert 8 * (n + len) == (q + k) * TWO_WORDS + (d0 + WORD * d1);
    ModTwoWords(q + k, d0 + WORD * d1);
  }

  /** The two words hold the sum but for a carry out of the upper one. */
  lemma AddCountCarry(c0: word, c1: word, len: nat) returns (k: int)
    requires len < UINT_LIMIT
    ensures var (d0, d1) := AddCount(c0, c1, len);
            c0 + WORD * c1 + 8 * len == k * TWO_WORDS + (d0 + WORD * d1)
  {
    var bits, hi := len * 8 % WORD, len / 0x2000_0000;
    assert len * 8 == bits + WORD * hi;
    var (d0, d1) := AddCount(c0, c1, len);
    var k0 := if d0 < bits then 1 else 0;
    assert c0 + bits == d0 + WORD * k0;
    var mid := if d0 < bits then (c1 + 1) % WORD else c1;
    var k1 := if mid != c1 + k0 then 1 else 0;
    assert c1 + k0 == mid + WORD * k1;
    var k2 := (mid + hi) / WORD;
    assert mid + hi == d1 + WORD * k2;
    k := k1 + k2;
  }

  /** The bytes already in the buffer, recovered from the low count word. */
  lemma CountIndex(c0: word, c1: word, n: nat)
    requires Counts(c0, c1, n)
    ensures c0 / 8 % 64 == n % 64
  {
    var x := 8 * n / TWO_WORDS * WORD + c1;
    assert 8 * n == WORD * x + c0;
    LowWord(n, x, c0);
  }

  lemma LowWord(n: nat, x: int, c0: nat)
    requires 8 * n == WORD * x + c0
    ensures c0 / 8 % 64 == n % 64
  {
    var d, e := c0 / 8, c0 / 8 / 64;
    assert n == WORD / 8 * x + d;
    assert n == 64 * (WORD / 512 * x + e) + (d - 64 * e);
    Mod64(WORD / 512 * x + e, d - 64 * e);
  }

  // ---------- The context ----------

  /** Length of the full blocks of a message of `n` bytes. */
  function Whole(n: nat): (k: nat)
    ensures k % 64 == 0 && k == n - n % 64
  {
    n / 64 * 64
  }

  /** The bytes in the buffer after `message` and those of `input` together stay below 2^32. */
  predicate Fits(message: seq<byte>, input: seq<byte>) {
    |message| % 64 + |input| < UINT_LIMIT
  }

  class CMD5 {
    const transform: Transform
    var state: Chain
    var count0: word
    var count1: word
    var buffer: array<byte>
    ghost var message: seq<byte>

    /** Full blocks are folded into the state, the rest waits in the buffer, the count is right. */
    ghost predicate Valid()
      reads this, buffer
    {
      var n := |message|;
      && buffer.Length == 64
      && Counts(count0, count1, n)
      && state == Fold(transform, INITIAL, message[..Whole(n)])
      && buffer[..n % 64] == message[Whole(n)..]
    }

    constructor (transform: Transform)
      ensures Valid() && fresh(buffer) && message == [] && this.transform == transform
    {
      this.transform := transform;
      state, count0, count1 := INITIAL, 0, 0;
      buffer := new byte[64];
      message := [];
    }

    method Init()
      requires buffer.Length == 64
      modifies this`state, this`count0, this`count1, this`message
      ensures Valid() && message == []
    {
      count0, count1 := 0, 0;
      state := INITIAL;
      message := [];
    }

    method MemCpy(at: nat, bytes: seq<byte>)
      requires at + |bytes| <= buffer.Length
      modifies buffer
      ensures buffer[..] == Splice(old(buffer[..]), at, bytes)
    {
      forall j | 0 <= j < |bytes| {
        buffer[at + j] := bytes[j];
      }
    }

    /** Update.  `i + 63` is a 32-bit sum, so the bytes in the buffer and the new ones together must
        stay below 2^32: GuardWraps shows that the loop reads on past the input otherwise. */
    method Update(input: seq<byte>)
      requires Valid() && Fits(message, input)
      modifies this`state, this`count0, this`count1, this`message, buffer
      ensures Valid() && message == old(message) + input
    {
      var inputLen := |input|;
      CountIndex(count0, count1, |message|);
      AddCountCorrect(count0, count1, |message|, inputLen);
      var index := count0 / 8 % 64;
      var bits := inputLen * 8 % WORD;
      count0 := (count0 + bits) % WORD;
      if count0 < bits {
        count1 := (count1 + 1) % WORD;
      }
      count1 := (count1 + inputLen / 0x2000_0000) % WORD;
      Absorb(input, index);
    }

    /** The part of Update that moves bytes. */
    method Absorb(input: seq<byte>, index: nat)
      requires buffer.Length == 64 && index == |message| % 64 && index + |input| < UINT_LIMIT
      requires (|message| - index) % 64 == 0 && state == Fold(transform, INITIAL, message[..|message| - index])
      requires buffer[..index] == message[|message| - index..]
      requires Counts(count0, count1, |message| + |input|)
      modifies this`state, this`message, buffer
      ensures Valid() && message == old(message) + input
    {
      hide Fold, Splice, Counts, Whole;
      var partLen, i, at := 64 - index, 0, index;
      ghost var m, start := message + input, |message| - index;
      ghost var cut := start;
      WholeUnfold(|message|);
      if |input| >= partLen {
        i := FullBlocks(input, index);
        cut := |message| + i;
        at := 0;
        ghost var b := buffer[..];
        MemCpy(at, input[i..]);
        SpliceAt(b, at, input[i..]);
        NextCut(|message|, index, i);
        assert m[cut..] == input[i..];
      } else {
        ghost var b := buffer[..];
        MemCpy(at, input[i..]);
        Appended(b, message, input, index);
        assert m[..start] == message[..start];
      }
      WholeIs(|m|, cut);
      message := m;
    }

    /** The branch of Update that completes the buffered block and the full blocks after it. */
    method FullBlocks(input: seq<byte>, index: nat) returns (i: nat)
      requires buffer.Length == 64 && index == |message| % 64 && index + |input| < UINT_LIMIT
      requires 64 - index <= |input|
      requires state == Fold(transform, INITIAL, message[..|message| - index])
      requires buffer[..index] == message[|message| - index..]
      modifies this`state, buffer
      ensures i <= |input| < i + 64 && (index + i) % 64 == 0
      ensures state == Fold(transform, INITIAL, (message + input)[..|message| + i])
    {
      hide Fold, Splice;
      var partLen := 64 - index;
      ghost var m, start := message + input, |message| - index;
      FullBuffer(buffer[..], message, input, index);
      MemCpy(index, input[..partLen]);
      FoldStep(transform, INITIAL, m, start);
      assert message[..start] == m[..start];
      state := transform(state, buffer[..]);
      i := partLen;
      ghost var k := 1;
      while (i + 63) % WORD < |input|
        invariant i <= |input| && index + i == 64 * k
        invariant state == Fold(transform, INITIAL, m[..|message| + i])
        decreases |input| - i
      {
        NoWrap(index, i, k, |input|);
        FoldStep(transform, INITIAL, m, |message| + i);
        SliceOfSecond(message, input, i, 64);
        state := transform(state, input[i..i + 64]);
        i := i + 64;
        k := k + 1;
      }
      NoWrap(index, i, k, |input|);
    }

    /** Final: pads, appends the bit count saved beforehand, and wipes the context. */
    method Final() returns (digest: seq<byte>)
      requires Valid()
      modifies this`state, this`count0, this`count1, this`message, buffer
      ensures digest == Digest(transform, old(message))
      ensures count0 == count1 == 0 && state == [0, 0, 0, 0] && buffer.Length == 64
      ensures forall i :: 0 <= i < 64 ==> buffer[i] == 0
    {
      hide Fold, Counts, LittleEndian, BitLength;
      ghost var m := message;
      var bits := LittleEndian(count0) + LittleEndian(count1);
      SavedCount(count0, count1, |m|);
      CountIndex(count0, count1, |m|);
      var index := count0 / 8 % 64;
      var padLen := if index < 56 then 56 - index else 120 - index;
      var padding := PADDING[..padLen];
      Update(padding);
      Update(bits);
      assert message == Pad(m);
      assert message[..Whole(|message|)] == message;
      digest := Output(state);
      state, count0, count1 := [0, 0, 0, 0], 0, 0;
      forall i | 0 <= i < 64 {
        buffer[i] := 0;
      }
    }

    /** MessageDigest: the digest of the input repeated. */
    method MessageDigest(input: seq<byte>, iteration: int) returns (digest: seq<byte>)
      requires buffer.Length == 64 && forall i: nat :: i < iteration ==> Fits(Repeat(input, i), input)
      modifies this`state, this`count0, this`count1, this`message, buffer
      ensures digest == Digest(transform, Repeat(input, if iteration < 0 then 0 else iteration))
    {
      hide Fold, Counts, Digest, Valid, Repeat;
      Init();
      var i := 0;
      RepeatStep(input, 0);
      while i < iteration
        invariant 0 <= i && Valid()
        invariant i <= (if iteration < 0 then 0 else iteration)
        invariant message == Repeat(input, i)
        decreases iteration - i
      {
        RepeatStep(input, i);
        Update(input);
        i := i + 1;
      }
      digest := Final();
    }

    /** However the message is cut into pieces, the digest is that of the whole. */
    method DigestOfPieces(pieces: seq<seq<byte>>) returns (digest: seq<byte>)
      requires buffer.Length == 64 && forall i :: 0 <= i < |pieces| ==> Fits(Flatten(pieces[..i]), pieces[i])
      modifies this`state, this`count0, this`count1, this`message, buffer
      ensures digest == Digest(transform, Flatten(pieces))
    {
      hide Fold, Counts, Digest, Flatten, Valid;
      Init();
      FlattenNil<byte>();
      assert pieces[..0] == [];
      for i := 0 to |pieces|
        invariant Valid() && message == Flatten(pieces[..i])
      {
        FlattenPrefix(pieces, i);
        Update(pieces[i]);
      }
      assert pieces[..|pieces|] == pieces;
      digest := Final();
    }
  }

  const PADDING: seq<byte> := [0x80] + Zeros(63)

  function Repeat(m: seq<byte>, n: nat): seq<byte> {
    if n == 0 then [] else Repeat(m, n - 1) + m
  }

  lemma RepeatStep(m: seq<byte>, n: nat)
    ensures Repeat(m, 0) == [] && Repeat(m, n + 1) == Repeat(m, n) + m
  {
  }

  lemma SavedCount(c0: word, c1: word, n: nat)
    requires Counts(c0, c1, n)
    ensures BitLength(n) == LittleEndian(c0) + LittleEndian(c1)
  {
    hide LittleEndian;
  }

  /** The 32-bit sum of the loop guard is exact as long as the bytes seen fit in 32 bits. */
  lemma NoWrap(index: nat, i: nat, k: nat, len: nat)
    requires index + i == 64 * k && i <= len && index + len < UINT_LIMIT
    ensures (i + 63) % WORD == i + 63
  {
  }

  /** The exact condition: at the last block boundary the guard would let the loop run past the input
      if and only if the buffered and the new bytes together do not fit in 32 bits. */
  lemma GuardWraps(index: nat, len: nat, i: nat, k: nat)
    requires index < 64 && len < UINT_LIMIT
    requires index + i == 64 * k && i <= len < i + 64
    ensures (i + 63) % WORD < len <==> index + len >= UINT_LIMIT
  {
    if index + len >= UINT_LIMIT {
      assert 64 * k <= index + len < 64 * k + 64;
      assert 64 * k == UINT_LIMIT;
      assert i + 63 - WORD == 63 - index;
      assert (i + 63) % WORD == 63 - index;
    }
  }

  lemma SliceOfSecond(a: seq<byte>, b: seq<byte>, i: nat, n: nat)
    requires i + n <= |b|
    ensures (a + b)[|a| + i..|a| + i + n] == b[i..i + n]
  {
  }

  lemma NextCut(n: nat, index: nat, i: nat)
    requires index == n % 64 && (index + i) % 64 == 0
    ensures (n + i) % 64 == 0
  {
    var a, c := n / 64, (index + i) / 64;
    assert n + i == 64 * (a + c) + 0;
    Mod64(a + c, 0);
  }

  lemma WholeUnfold(n: nat)
    ensures Whole(n) == n - n % 64 && Whole(n) % 64 == 0
  {
  }

  lemma WholeIs(n: nat, cut: nat)
    requires cut % 64 == 0 && cut <= n < cut + 64
    ensures Whole(n) == cut && n % 64 == n - cut
  {
    var c := cut / 64;
    assert n == 64 * c + (n - cut);
    Mod64(c, n - cut);
  }

  lemma FullBuffer(b: seq<byte>, message: seq<byte>, input: seq<byte>, index: nat)
    requires |b| == 64 && index <= |message| && index < 64 && |input| >= 64 - index
    requires b[..index] == message[|message| - index..]
    ensures Splice(b, index, input[..64 - index]) == (message + input)[|message| - index..|message| - index + 64]
  {
  }

  lemma SpliceAt(b: seq<byte>, at: nat, x: seq<byte>)
    requires at + |x| <= |b|
    ensures Splice(b, at, x)[at..at + |x|] == x
  {
  }

  lemma Appended(b: seq<byte>, message: seq<byte>, input: seq<byte>, index: nat)
    requires |b| == 64 && index <= |message| && index + |input| < 64
    requires b[..index] == message[|message| - index..]
    ensures Splice(b, index, input)[..index + |input|] == (message + input)[|message| - index..]
  {
  }
}
