/** Streaming MD5: buffering, the 64-bit bit count held in two 32-bit words, and
    padding (sections 3.1 and 3.2 of RFC 1321). The compression function is a
    parameter: every result holds for any such function. */
module Md5 {
  import opened SeqFacts

  const W := 0x1_0000_0000

  type uint32 = x: int | 0 <= x < W
  type byte = x: int | 0 <= x < 256

  datatype State = State(a: uint32, b: uint32, c: uint32, d: uint32)

  const INIT := State(0x67452301, 0xefcdab89, 0x98badcfe, 0x10325476)

  type Compress = (State, seq<byte>) -> State

  // ----- Reference definition

  /** Compress the whole 64-byte blocks of `m`, left to right. */
  function Fold(f: Compress, st: State, m: seq<byte>): State
    decreases |m|
  {
    if |m| < 64 then st else Fold(f, f(st, m[..64]), m[64..])
  }

  function Zeros(n: nat): (r: seq<byte>)
    ensures |r| == n
  {
    seq(n, _ => 0)
  }

  /** Padding bytes up to the length field: at least one. */
  function PadLen(n: nat): nat {
    if n % 64 < 56 then 56 - n % 64 else 120 - n % 64
  }

  function Padding(n: nat): (r: seq<byte>)
    ensures |r| == n
  {
    if n == 0 then [] else [0x80] + Zeros(n - 1)
  }

  function EncodeWord(x: uint32): (r: seq<byte>)
    ensures |r| == 4
  {
    [x % 256, x / 256 % 256, x / 65536 % 256, x / 16777216 % 256]
  }

  function DecodeWord(b: seq<byte>): uint32
    requires |b| == 4
  {
    b[0] as int + b[1] as int * 256 + b[2] as int * 65536 + b[3] as int * 16777216
  }

  function EncodeWords(w: seq<uint32>): (r: seq<byte>)
    ensures |r| == 4 * |w|
  {
    if w == [] then [] else EncodeWord(w[0]) + EncodeWords(w[1..])
  }

  function DecodeWords(b: seq<byte>): (r: seq<uint32>)
    requires |b| % 4 == 0
    ensures 4 * |r| == |b|
  {
    if b == [] then [] else [DecodeWord(b[..4])] + DecodeWords(b[4..])
  }

  /** The message length in bits modulo 2^64, low word first. */
  function LengthField(n: nat): (r: seq<byte>)
    ensures |r| == 8
  {
    EncodeWords([8 * n % W, 8 * n / W % W])
  }

  function Pad(m: seq<byte>): seq<byte> {
    m + Padding(PadLen(|m|)) + LengthField(|m|)
  }

  function Words(st: State): seq<uint32> { [st.a, st.b, st.c, st.d] }

  function Digest(f: Compress, m: seq<byte>): seq<byte> {
    EncodeWords(Words(Fold(f, INIT, Pad(m))))
  }

  // ----- Properties of the reference

  lemma DivMod64(q: nat, r: nat)
    requires r < 64
    ensures (64 * q + r) / 64 == q && (64 * q + r) % 64 == r
  {
  }

  lemma PadLenFits(n: nat)
    ensures 1 <= PadLen(n) <= 64 && (n + PadLen(n)) % 64 == 56 && (n + PadLen(n) + 8) % 64 == 0
  {
    var q := n / 64 + (if n % 64 < 56 then 0 else 1);
    assert n == 64 * (n / 64) + n % 64;
    DivMod64(q, 56);
    DivMod64(q + 1, 0);
  }

  /** The padding of RFC 1321 section 3.1: one to 64 bytes, up to 56 modulo 64,
      and with the length field the padded message is whole blocks. */
  lemma PaddedIsWholeBlocks(m: seq<byte>)
    ensures 1 <= PadLen(|m|) <= 64 && (|m| + PadLen(|m|)) % 64 == 56
    ensures |Pad(m)| % 64 == 0 && m <= Pad(m)
  {
    PadLenFits(|m|);
    assert |Pad(m)| == |m| + PadLen(|m|) + 8;
  }

  lemma Quotients(x: uint32)
    ensures x / 256 / 256 == x / 65536 && x / 65536 / 256 == x / 16777216 && x / 16777216 < 256
  {
  }

  lemma WordReadsBack(x: uint32)
    ensures DecodeWord(EncodeWord(x)) == x
  {
    Quotients(x);
    var a, b := x / 256, x / 65536;
    assert x == x % 256 + 256 * a && a == a % 256 + 256 * b && b == b % 256 + 256 * (x / 16777216);
  }

  /** Decode inverts Encode. */
  lemma {:induction false} WordsReadBack(w: seq<uint32>)
    ensures DecodeWords(EncodeWords(w)) == w
  {
    if w != [] {
      WordReadsBack(w[0]);
      WordsReadBack(w[1..]);
      var b := EncodeWords(w);
      assert b[..4] == EncodeWord(w[0]) && b[4..] == EncodeWords(w[1..]);
    }
  }

  lemma EncodeInjective(v: seq<uint32>, w: seq<uint32>)
    requires EncodeWords(v) == EncodeWords(w)
    ensures v == w
  {
    WordsReadBack(v);
    WordsReadBack(w);
  }

  lemma TwoWords(x: nat, y: nat)
    requires x < W * W && y < W * W && x % W == y % W && x / W % W == y / W % W
    ensures x == y
  {
    assert x / W < W && y / W < W;
  }

  lemma LengthFieldInjective(n: nat, k: nat)
    requires 8 * n < W * W && 8 * k < W * W
    requires LengthField(n) == LengthField(k)
    ensures n == k
  {
    var v, w: seq<uint32> := [8 * n % W, 8 * n / W % W], [8 * k % W, 8 * k / W % W];
    EncodeInjective(v, w);
    assert v[0] == w[0] && v[1] == w[1];
    TwoWords(8 * n, 8 * k);
  }

  /** Messages below 2^61 bytes are told apart by their padded forms. */
  lemma PadInjective(a: seq<byte>, b: seq<byte>)
    requires |a| < 0x2000_0000_0000_0000 && |b| < 0x2000_0000_0000_0000
    requires Pad(a) == Pad(b)
    ensures a == b
  {
    LastEight(a);
    LastEight(b);
    LengthFieldInjective(|a|, |b|);
    assert a == Pad(a)[..|a|] && b == Pad(b)[..|b|];
  }

  lemma LastEight(m: seq<byte>)
    ensures |Pad(m)| >= 8 && Pad(m)[|Pad(m)| - 8..] == LengthField(|m|)
  {
  }

  lemma {:induction false} FoldConcat(f: Compress, st: State, a: seq<byte>, b: seq<byte>)
    requires |a| % 64 == 0
    ensures Fold(f, st, a + b) == Fold(f, Fold(f, st, a), b)
    decreases |a|
  {
    if |a| == 0 {
      assert a + b == b;
    } else {
      assert (a + b)[..64] == a[..64] && (a + b)[64..] == a[64..] + b;
      FoldConcat(f, f(st, a[..64]), a[64..], b);
    }
  }

  /** One more block at the end of whole blocks is one more compression. */
  lemma FoldNextBlock(f: Compress, st: State, m: seq<byte>, q: nat)
    requires 64 * q + 64 <= |m|
    ensures Fold(f, st, m[..64 * q + 64]) == f(Fold(f, st, m[..64 * q]), m[64 * q..64 * q + 64])
  {
    var block := m[64 * q..64 * q + 64];
    assert m[..64 * q + 64] == m[..64 * q] + block;
    FoldConcat(f, st, m[..64 * q], block);
    assert block[..64] == block && block[64..] == [];
  }

  /** A partial block at the end does not count. */
  lemma FoldIgnoresTail(f: Compress, st: State, m: seq<byte>, q: nat)
    requires 64 * q <= |m| < 64 * q + 64
    ensures Fold(f, st, m) == Fold(f, st, m[..64 * q])
  {
    assert m == m[..64 * q] + m[64 * q..];
    FoldConcat(f, st, m[..64 * q], m[64 * q..]);
  }

  // ----- The reference in the terms of RFC 1321

  /** The number that bytes stand for, the low-order byte first. */
  function LowFirst(b: seq<byte>): nat {
    if b == [] then 0 else b[0] as int + 256 * LowFirst(b[1..])
  }

  lemma FourBytes(b: seq<byte>)
    requires |b| == 4
    ensures LowFirst(b) == b[0] as int + 256 * b[1] as int + 65536 * b[2] as int + 16777216 * b[3] as int
  {
    assert b[1..][1..] == b[2..] && b[2..][1..] == b[3..] && b[3..][1..] == [];
    assert LowFirst(b[3..]) == b[3] && LowFirst(b[2..]) == b[2] as int + 256 * b[3] as int;
    assert LowFirst(b[1..]) == b[1] as int + 256 * LowFirst(b[2..]);
  }

  lemma WordLowFirst(x: uint32)
    ensures LowFirst(EncodeWord(x)) == x
  {
    FourBytes(EncodeWord(x));
    WordReadsBack(x);
  }

  lemma EightBytes(a: seq<byte>, b: seq<byte>)
    requires |a| == 4
    ensures LowFirst(a + b) == LowFirst(a) + W * LowFirst(b)
  {
    var s := a + b;
    assert s[1..][1..] == s[2..] && s[2..][1..] == s[3..] && s[3..][1..] == b;
    FourBytes(a);
    assert LowFirst(s[3..]) == a[3] as int + 256 * LowFirst(b);
    assert LowFirst(s[2..]) == a[2] as int + 256 * LowFirst(s[3..]);
    assert LowFirst(s[1..]) == a[1] as int + 256 * LowFirst(s[2..]);
  }

  lemma TwoWordsBack(n: nat)
    ensures n % W + W * (n / W % W) == n % 0x1_0000_0000_0000_0000
  {
    var q, r := n / W, n % W;
    var s, t := q / W, q % W;
    assert n == W * q + r && q == W * s + t;
    RestIs(n, s, W * t + r);
  }

  lemma RestIs(n: nat, k: nat, r: nat)
    requires n == 0x1_0000_0000_0000_0000 * k + r && r < 0x1_0000_0000_0000_0000
    ensures n % 0x1_0000_0000_0000_0000 == r
  {
  }

  lemma LengthFieldIs(n: nat)
    ensures LowFirst(LengthField(n)) == 8 * n % 0x1_0000_0000_0000_0000
  {
    var lo: uint32, hi: uint32 := 8 * n % W, 8 * n / W % W;
    assert [lo, hi][1..] == [hi] && [hi][1..] == [];
    assert EncodeWords([hi]) == EncodeWord(hi) + [] == EncodeWord(hi);
    EightBytes(EncodeWord(lo), EncodeWord(hi));
    WordLowFirst(lo);
    WordLowFirst(hi);
    TwoWordsBack(8 * n);
  }

  /** The padded message of sections 3.1 and 3.2: the message, a byte with its high bit set,
      zeros, and in the last eight bytes, the low-order one first, the length in bits. */
  lemma PadIsRfc(m: seq<byte>)
    ensures var p := Pad(m);
            |p| % 64 == 0 && |m| + 9 <= |p| <= |m| + 72 && p[..|m|] == m && p[|m|] == 0x80
            && (forall i :: |m| < i < |p| - 8 ==> p[i] == 0)
            && LowFirst(p[|p| - 8..]) == 8 * |m| % 0x1_0000_0000_0000_0000
  {
    PaddedIsWholeBlocks(m);
    PadLenFits(|m|);
    var front := m + Padding(PadLen(|m|));
    assert Pad(m) == front + LengthField(|m|);
    assert Pad(m)[|front|..] == LengthField(|m|);
    LengthFieldIs(|m|);
  }

  /** Section 3.3: the chaining starts at four words whose bytes, low-order first, count up and
      down again. */
  lemma InitBytes()
    ensures LowFirst([0x01, 0x23, 0x45, 0x67]) == INIT.a && LowFirst([0x89, 0xab, 0xcd, 0xef]) == INIT.b
    ensures LowFirst([0xfe, 0xdc, 0xba, 0x98]) == INIT.c && LowFirst([0x76, 0x54, 0x32, 0x10]) == INIT.d
  {
    FourBytes([0x01, 0x23, 0x45, 0x67]);
    FourBytes([0x89, 0xab, 0xcd, 0xef]);
    FourBytes([0xfe, 0xdc, 0xba, 0x98]);
    FourBytes([0x76, 0x54, 0x32, 0x10]);
  }

  lemma EncodeCons(x: uint32, w: seq<uint32>)
    ensures EncodeWords([x] + w) == EncodeWord(x) + EncodeWords(w)
  {
    Tail(x, w);
  }

  lemma FourWords(st: State)
    ensures EncodeWords(Words(st)) == EncodeWord(st.a) + EncodeWord(st.b) + EncodeWord(st.c) + EncodeWord(st.d)
  {
    assert Words(st) == [st.a] + ([st.b] + ([st.c] + ([st.d] + [])));
    EncodeCons(st.a, [st.b] + ([st.c] + ([st.d] + [])));
    EncodeCons(st.b, [st.c] + ([st.d] + []));
    EncodeCons(st.c, [st.d] + []);
    EncodeCons(st.d, []);
    var a, b, c, d := EncodeWord(st.a), EncodeWord(st.b), EncodeWord(st.c), EncodeWord(st.d);
    assert d + [] == d;
    Assoc4(a, b, c, d);
    Assoc(b, c, d);
  }

  /** Section 3.4: one state after the other, block by block. */
  lemma {:induction false} FoldSteps(f: Compress, st: State, m: seq<byte>) returns (states: seq<State>)
    requires |m| % 64 == 0
    ensures |states| == |m| / 64 + 1 && states[0] == st && states[|m| / 64] == Fold(f, st, m)
    ensures forall i :: 0 <= i < |m| / 64 ==> states[i + 1] == f(states[i], m[64 * i..64 * i + 64])
    decreases |m|
  {
    if |m| < 64 {
      states := [st];
    } else {
      var rest := FoldSteps(f, f(st, m[..64]), m[64..]);
      states := [st] + rest;
      forall i | 0 <= i < |m| / 64 ensures states[i + 1] == f(states[i], m[64 * i..64 * i + 64]) {
        if i > 0 { assert m[64..][64 * (i - 1)..64 * (i - 1) + 64] == m[64 * i..64 * i + 64]; }
      }
    }
  }

  /** Section 3.5: the digest is the four words of the last state, each low-order byte first. */
  lemma DigestIsRfc(f: Compress, m: seq<byte>)
    ensures var d, st := Digest(f, m), Fold(f, INIT, Pad(m));
            |d| == 16 && LowFirst(d[..4]) == st.a && LowFirst(d[4..8]) == st.b && LowFirst(d[8..12]) == st.c
            && LowFirst(d[12..]) == st.d
  {
    var d, st := Digest(f, m), Fold(f, INIT, Pad(m));
    var a, b, c, e := EncodeWord(st.a), EncodeWord(st.b), EncodeWord(st.c), EncodeWord(st.d);
    FourWords(st);
    assert d[..4] == a && d[4..8] == b && d[8..12] == c && d[12..] == e;
    WordLowFirst(st.a);
    WordLowFirst(st.b);
    WordLowFirst(st.c);
    WordLowFirst(st.d);
  }

  // ----- The 32-bit loop guard of MD5Update

  /** In round k the guard i + 63 < inputLen means the same in 32 bits as it does
      on unbounded numbers, or the round is never reached. */
  predicate GuardAgrees(k: nat, index: nat, inputLen: nat)
    requires index < 64
  {
    var i := 64 - index + 64 * k;
    i <= inputLen ==> ((i + 63) % W < inputLen <==> i + 63 < inputLen)
  }

  /** Exactly when buffered and new bytes together stay below 2^32 does the
      32-bit guard stop the block loop where it should. */
  lemma GuardNeverWrapsIff(index: nat, inputLen: nat)
    requires index < 64 && inputLen < W
    ensures (forall k: nat :: GuardAgrees(k, index, inputLen)) <==> index + inputLen < W
  {
    if index + inputLen >= W {
      assert !GuardAgrees(0x3ff_ffff, index, inputLen);
    }
  }

  /** The smallest case: one byte is buffered and 2^32 - 1 arrive. At the last byte the guard
      holds, because 63 more wrap around, and a block is taken from behind the input. */
  lemma GuardWraps()
    ensures var i, inputLen := 64 - 1 + 64 * 0x3ff_ffff, 0xffff_ffff;
            !GuardAgrees(0x3ff_ffff, 1, inputLen) && i <= inputLen && (i + 63) % W < inputLen <= i + 63
  {
  }

  /** Below 2^32 the guard says whether a whole block is left. */
  lemma GuardHolds(index: nat, inputLen: nat, i: nat, k: nat)
    requires index + inputLen < W && i <= inputLen && index + i == 64 * k
    ensures (i + 63) % W < inputLen <==> i + 64 <= inputLen
  {
    assert 64 * k <= W - 64;
  }

  // ----- The context

  method MemCpy(dst: array<byte>, at: nat, src: seq<byte>, from: nat, n: nat)
    requires at + n <= dst.Length && from + n <= |src|
    modifies dst
    ensures dst[..at + n] == old(dst[..at]) + src[from..from + n]
  {
    var i := 0;
    while i < n
      invariant 0 <= i <= n
      invariant dst[..at + i] == old(dst[..at]) + src[from..from + i]
    {
      dst[at + i] := src[from + i];
      i := i + 1;
    }
  }

  /** The loop of Encode. */
  method Encode(input: seq<uint32>) returns (output: seq<byte>)
    ensures output == EncodeWords(input)
  {
    output := [];
    var i := 0;
    while i < |input|
      invariant 0 <= i <= |input|
      invariant output + EncodeWords(input[i..]) == EncodeWords(input)
    {
      SplitAt(input, i);
      Tail(input[i], input[i + 1..]);
      Assoc(output, EncodeWord(input[i]), EncodeWords(input[i + 1..]));
      output := output + [input[i] % 256, input[i] / 256 % 256, input[i] / 65536 % 256, input[i] / 16777216 % 256];
      i := i + 1;
    }
  }

  lemma FirstWord(input: seq<byte>, j: nat)
    requires j + 4 <= |input| && (|input| - j) % 4 == 0
    ensures (|input| - (j + 4)) % 4 == 0
    ensures DecodeWords(input[j..]) == [DecodeWord(input[j..j + 4])] + DecodeWords(input[j + 4..])
  {
    assert input[j..][..4] == input[j..j + 4] && input[j..][4..] == input[j + 4..];
  }

  /** The loop of Decode. */
  method Decode(input: seq<byte>) returns (output: seq<uint32>)
    requires |input| % 4 == 0
    ensures output == DecodeWords(input)
  {
    output := [];
    var j := 0;
    while j < |input|
      invariant 0 <= j <= |input| && j % 4 == 0
      invariant output + DecodeWords(input[j..]) == DecodeWords(input)
    {
      var w: uint32 := input[j] as int + input[j + 1] as int * 256 + input[j + 2] as int * 65536
          + input[j + 3] as int * 16777216;
      FirstWord(input, j);
      Assoc(output, [w], DecodeWords(input[j + 4..]));
      output := output + [w];
      j := j + 4;
    }
  }

  /** The two count words hold 8 n modulo 2^64. */
  predicate Counts(lo: uint32, hi: uint32, n: nat) {
    lo == 8 * n % W && hi == 8 * n / W % W
  }

  lemma DivMod(x: int, q: int, r: int)
    requires x == W * q + r && 0 <= r < W
    ensures x / W == q && x % W == r
  {
  }

  lemma ModDrop(x: int, y: int)
    ensures (x % W + y) % W == (x + y) % W
  {
    var t := x / W;
    assert x % W + y == x + y - W * t;
    var u := (x + y) / W;
    DivMod(x % W + y, u - t, (x + y) % W);
  }

  /** Adding a chunk to the two-word count: 32-bit shift, carry out of the low
      word, and the bits shifted out of the chunk length. */
  lemma CountAdds(lo: uint32, hi: uint32, n: nat, k: nat)
    requires Counts(lo, hi, n) && k < W
    ensures var shifted := 8 * k % W;
            var lo' := (lo + shifted) % W;
            var carry := if lo' < shifted then 1 else 0;
            Counts(lo', ((hi + carry) % W + k / 0x2000_0000) % W, n + k)
  {
    var q, r, shifted := 8 * n / W, k / 0x2000_0000, 8 * k % W;
    DivMod(8 * k, r, 8 * (k % 0x2000_0000));
    var sum := lo + shifted;
    var carry := if sum % W < shifted then 1 else 0;
    DivMod(sum, carry, sum - W * carry) by {
      if sum >= W { DivMod(sum, 1, sum - W); } else { DivMod(sum, 0, sum); }
    }
    DivMod(8 * (n + k), q + r + carry, sum % W);
    ModDrop(hi + carry, r);
    ModDrop(q, carry + r);
  }

  lemma CarryIn(hi: uint32, carry: bool)
    ensures (if carry then (hi + 1) % W else hi) == (hi + if carry then 1 else 0) % W
  {
  }

  lemma IndexOfCount(lo: uint32, n: nat)
    requires lo == 8 * n % W
    ensures lo / 8 % 64 == n % 64
  {
    assert 8 * n == W * (8 * n / W) + lo;
  }

  lemma Parts<T>(m: seq<T>, input: seq<T>, k: nat)
    requires k <= |m|
    ensures (m + input)[..k] == m[..k] && (m + input)[k..] == m[k..] + input
  {
  }

  lemma Whole<T>(s: seq<T>, i: nat)
    requires i <= |s|
    ensures s[i..i + (|s| - i)] == s[i..] && s[0..|s|] == s && [] + s[i..] == s[i..]
  {
  }

  /** What is buffered of `m`, and the block it becomes a part of once `input` is appended. */
  lemma FirstBlock(f: Compress, m: seq<byte>, input: seq<byte>, q: nat, index: nat)
    requires |m| == 64 * q + index && index < 64 <= index + |input|
    ensures var all := m + input;
            |all| == |m| + |input| && all[|m|..] == input
            && all[64 * q..64 * q + 64] == m[64 * q..] + input[0..64 - index]
            && Fold(f, INIT, m) == Fold(f, INIT, all[..64 * q])
  {
    FoldIgnoresTail(f, INIT, m, q);
    Parts(m, input, 64 * q);
  }

  /** Whole blocks, and less than a block behind them. */
  lemma LastPart(f: Compress, m: seq<byte>, input: seq<byte>, q: nat, i: nat)
    requires |m| + i == 64 * q && i <= |input| < i + 64
    ensures var all := m + input;
            |all| == 64 * q + (|input| - i) && all[64 * q..] == input[i..i + (|input| - i)]
            && Fold(f, INIT, all) == Fold(f, INIT, all[..64 * q])
  {
    FoldIgnoresTail(f, INIT, m + input, q);
    Whole(input, i);
  }

  /** Less than a block, more of it. */
  lemma SamePart(f: Compress, m: seq<byte>, input: seq<byte>, q: nat, index: nat)
    requires |m| == 64 * q + index && index + |input| < 64
    ensures var all := m + input;
            all[64 * q..] == m[64 * q..] + input[0..|input|] && Fold(f, INIT, all) == Fold(f, INIT, m)
  {
    FoldIgnoresTail(f, INIT, m, q);
    FoldIgnoresTail(f, INIT, m + input, q);
    Parts(m, input, 64 * q);
    Whole(input, 0);
  }

  /** A block of the input is a block of the message. */
  lemma InputBlock(f: Compress, all: seq<byte>, input: seq<byte>, q: nat, index: nat, i: nat, k: nat)
    requires |all| == 64 * q + index + |input| && all[64 * q + index..] == input
    requires index + i == 64 * k && i + 64 <= |input|
    ensures Fold(f, INIT, all[..64 * (q + k + 1)]) == f(Fold(f, INIT, all[..64 * (q + k)]), input[i..i + 64])
  {
    FoldNextBlock(f, INIT, all, q + k);
    assert all[64 * (q + k)..64 * (q + k) + 64] == all[64 * q + index..][i..i + 64];
  }

  class Context {
    const f: Compress
    var state: State
    var count0: uint32
    var count1: uint32
    const buffer: array<byte>

    /** The context after exactly the bytes of `m`. */
    ghost predicate Holds(m: seq<byte>)
      reads this, buffer
    {
      Counts(count0, count1, |m|) && Absorbed(m)
    }

    ghost predicate Absorbed(m: seq<byte>)
      reads this, buffer
    {
      buffer.Length == 64 && state == Fold(f, INIT, m) && Buffered(m, |m| / 64, |m| % 64)
    }

    /** Behind whole blocks the rest of `m` is buffered. */
    ghost predicate Buffered(m: seq<byte>, q: nat, index: nat)
      reads this, buffer
    {
      |m| == 64 * q + index && index <= buffer.Length && buffer[..index] == m[64 * q..]
    }

    lemma Absorbing(m: seq<byte>, q: nat, index: nat)
      requires buffer.Length == 64 && index < 64 && state == Fold(f, INIT, m) && Buffered(m, q, index)
      ensures Absorbed(m)
    {
      DivMod64(q, index);
    }

    /** MD5Init */
    constructor (f: Compress)
      ensures this.f == f && Holds([]) && fresh(buffer)
    {
      this.f := f;
      count0, count1 := 0, 0;
      state := INIT;
      buffer := new byte[64];
    }

    /** The first lines of MD5Update: the bit count. */
    method AddCount(ghost n: nat, inputLen: nat)
      requires Counts(count0, count1, n) && inputLen < W
      modifies this`count0, this`count1
      ensures Counts(count0, count1, n + inputLen)
    {
      CountAdds(count0, count1, n, inputLen);
      var shifted: uint32 := 8 * inputLen % W;
      var lo: uint32 := (count0 + shifted) % W;
      var hi: uint32 := if lo < shifted then (count1 + 1) % W else count1;
      CarryIn(count1, lo < shifted);
      count0 := lo;
      count1 := (hi + inputLen / 0x2000_0000) % W;
    }

    /** The block loop of MD5Update once the buffer is full: compress the buffer,
        then whole blocks of the input. `q` blocks of `all` were compressed before. */
    method Blocks(ghost all: seq<byte>, ghost q: nat, index: nat, input: seq<byte>) returns (i: uint32, ghost k: nat)
      requires buffer.Length == 64 && index < 64 <= index + |input| < W
      requires |all| == 64 * q + index + |input| && all[64 * q + index..] == input
      requires buffer[..] == all[64 * q..64 * q + 64] && state == Fold(f, INIT, all[..64 * q])
      modifies this`state
      ensures i <= |input| < i + 64 && index + i == 64 * k && state == Fold(f, INIT, all[..64 * (q + k)])
    {
      FoldNextBlock(f, INIT, all, q);
      state := f(state, buffer[..]);
      i, k := 64 - index, 1;
      GuardHolds(index, |input|, i, k);
      while (i + 63) % W < |input|
        invariant i <= |input| && index + i == 64 * k && state == Fold(f, INIT, all[..64 * (q + k)])
        invariant (i + 63) % W < |input| <==> i + 64 <= |input|
        decreases |input| - i
      {
        InputBlock(f, all, input, q, index, i, k);
        state := f(state, input[i..i + 64]);
        i, k := (i + 64) % W, k + 1;
        GuardHolds(index, |input|, i, k);
      }
    }

    /** Buffering without a full block. */
    method BufferAll(ghost m: seq<byte>, ghost q: nat, index: nat, input: seq<byte>)
      requires buffer.Length == 64 && index + |input| < 64 && state == Fold(f, INIT, m) && Buffered(m, q, index)
      modifies buffer
      ensures Absorbed(m + input)
    {
      SamePart(f, m, input, q, index);
      MemCpy(buffer, index, input, 0, |input|);
      Absorbing(m + input, q, index + |input|);
    }

    /** Filling the buffer, the block loop, and buffering what is left. */
    method FillAndBuffer(ghost m: seq<byte>, ghost q: nat, index: nat, input: seq<byte>)
      requires buffer.Length == 64 && index < 64 <= index + |input| < W && state == Fold(f, INIT, m)
               && Buffered(m, q, index)
      modifies this`state, buffer
      ensures Absorbed(m + input)
    {
      FirstBlock(f, m, input, q, index);
      MemCpy(buffer, index, input, 0, 64 - index);
      assert buffer[..] == buffer[..64];
      var i, k := Blocks(m + input, q, index, input);
      BufferRest(m, input, q + k, i);
    }

    method BufferRest(ghost m: seq<byte>, input: seq<byte>, ghost q: nat, i: nat)
      requires buffer.Length == 64 && i <= |input| < i + 64 && |m| + i == 64 * q
      requires state == Fold(f, INIT, (m + input)[..64 * q])
      modifies buffer
      ensures Absorbed(m + input)
    {
      LastPart(f, m, input, q, i);
      ghost var none := buffer[..0];
      MemCpy(buffer, 0, input, i, |input| - i);
      assert none + input[i..i + (|input| - i)] == input[i..i + (|input| - i)];
      Absorbing(m + input, q, |input| - i);
    }

    /** MD5Update: after the bytes of `m`, the bytes of `input`. */
    method Update(ghost m: seq<byte>, input: seq<byte>)
      requires Holds(m) && |m| % 64 + |input| < W
      modifies this, buffer
      ensures Holds(m + input)
    {
      var index := count0 / 8 % 64;
      IndexOfCount(count0, |m|);
      AddCount(|m|, |input|);
      if |input| >= 64 - index {
        FillAndBuffer(m, |m| / 64, index, input);
      } else {
        BufferAll(m, |m| / 64, index, input);
      }
    }

    /** The first half of MD5Final: the padding and the length, which was read before. */
    method Finish(ghost m: seq<byte>)
      requires Holds(m)
      modifies this, buffer
      ensures state == Fold(f, INIT, Pad(m))
    {
      var bits := Encode([count0, count1]);
      var index := count0 / 8 % 64;
      IndexOfCount(count0, |m|);
      var padLen := if index < 56 then 56 - index else 120 - index;
      assert padLen == PadLen(|m|) && bits == LengthField(|m|);
      Update(m, Padding(padLen));
      Update(m + Padding(padLen), bits);
    }

    /** The second half: zeroize. */
    method Zeroize()
      modifies this, buffer
      ensures state == State(0, 0, 0, 0) && count0 == 0 && count1 == 0
      ensures forall k :: 0 <= k < buffer.Length ==> buffer[k] == 0
    {
      state := State(0, 0, 0, 0);
      count0, count1 := 0, 0;
      forall k | 0 <= k < buffer.Length { buffer[k] := 0; }
    }

    /** MD5Final: pad, append the length, write the digest, zeroize. */
    method Final(ghost m: seq<byte>) returns (digest: seq<byte>)
      requires Holds(m)
      modifies this, buffer
      ensures digest == Digest(f, m)
      ensures state == State(0, 0, 0, 0) && count0 == 0 && count1 == 0
      ensures forall k :: 0 <= k < buffer.Length ==> buffer[k] == 0
    {
      Finish(m);
      digest := Encode(Words(state));
      Zeroize();
    }
  }

  // ----- Any chunking gives the same digest

  function Joined(chunks: seq<seq<byte>>): seq<byte> {
    if chunks == [] then [] else chunks[0] + Joined(chunks[1..])
  }

  lemma {:induction false} JoinedSplit(chunks: seq<seq<byte>>, more: seq<seq<byte>>)
    ensures Joined(chunks + more) == Joined(chunks) + Joined(more)
  {
    if chunks == [] {
      assert chunks + more == more;
    } else {
      ConsConcat(chunks, more);
      JoinedSplit(chunks[1..], more);
      Assoc(chunks[0], Joined(chunks[1..]), Joined(more));
    }
  }

  lemma JoinedNext(chunks: seq<seq<byte>>, i: nat)
    requires i < |chunks|
    ensures Joined(chunks[..i + 1]) == Joined(chunks[..i]) + chunks[i]
  {
    SplitAt(chunks, i);
    JoinedSplit(chunks[..i], [chunks[i]]);
    assert Joined([chunks[i]]) == chunks[i] + [];
  }

  /** Init, one Update per chunk, Final: the digest is that of the joined message,
      whatever the chunks are. */
  method DigestOfChunks(f: Compress, chunks: seq<seq<byte>>) returns (digest: seq<byte>)
    requires forall i :: 0 <= i < |chunks| ==> |Joined(chunks[..i])| % 64 + |chunks[i]| < W
    ensures digest == Digest(f, Joined(chunks))
  {
    var ctx := new Context(f);
    ghost var m: seq<byte> := [];
    var i := 0;
    while i < |chunks|
      invariant 0 <= i <= |chunks| && fresh(ctx) && fresh(ctx.buffer)
      invariant ctx.Holds(m)
      invariant m == Joined(chunks[..i])
    {
      ctx.Update(m, chunks[i]);
      JoinedNext(chunks, i);
      m := m + chunks[i];
      i := i + 1;
    }
    assert chunks[..i] == chunks;
    digest := ctx.Final(m);
  }
}
