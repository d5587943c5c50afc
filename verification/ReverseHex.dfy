/** Hexadecimal digits with the lowest first, as they stand in branch parameters and tags. */
module ReverseHex {
  import opened Options
  import opened SeqFacts

  predicate IsHex(c: char) {
    '0' <= c <= '9' || 'a' <= c <= 'f' || 'A' <= c <= 'F'
  }

  /** The value of a digit; other characters have none. */
  function HexValue(c: char): (v: nat)
    ensures v < 16
  {
    if '0' <= c <= '9' then (c - '0') as int
    else if 'a' <= c <= 'f' then (c - 'a') as int + 10
    else if 'A' <= c <= 'F' then (c - 'A') as int + 10
    else 0
  }

  function HexDigit(d: nat): (c: char)
    requires d < 16
    ensures IsHex(c) && HexValue(c) == d
  {
    if d >= 10 then 'a' + (d - 10) as char else '0' + d as char
  }

  function Hex(n: nat): (s: string)
    ensures s != ""
  {
    if n < 16 then [HexDigit(n)] else [HexDigit(n % 16)] + Hex(n / 16)
  }

  function Zeros(k: nat): string {
    if k == 0 then "" else ['0'] + Zeros(k - 1)
  }

  predicate AllHex(s: string) {
    forall c :: c in s ==> IsHex(c)
  }

  /** The number that digits stand for, the lowest first. */
  function Value(s: string): nat {
    if s == "" then 0 else HexValue(s[0]) + 16 * Value(s[1..])
  }

  lemma {:induction false} ZerosAreNothing(k: nat)
    ensures AllHex(Zeros(k)) && Value(Zeros(k)) == 0 && |Zeros(k)| == k
  {
    if k > 0 {
      ZerosAreNothing(k - 1);
      Tail('0', Zeros(k - 1));
    }
  }

  lemma {:induction false} ZerosSnoc(k: nat)
    ensures Zeros(k + 1) == Zeros(k) + ['0']
  {
    if k > 0 { ZerosSnoc(k - 1); }
  }

  /** A printed number reads back, with any number of zeros behind. */
  lemma {:induction false} HexReadsBack(n: nat, k: nat)
    ensures AllHex(Hex(n) + Zeros(k)) && Value(Hex(n) + Zeros(k)) == n
  {
    ZerosAreNothing(k);
    if n < 16 {
      Tail(HexDigit(n), Zeros(k));
    } else {
      HexReadsBack(n / 16, k);
      Assoc([HexDigit(n % 16)], Hex(n / 16), Zeros(k));
      Tail(HexDigit(n % 16), Hex(n / 16) + Zeros(k));
    }
  }

  function Power16(k: nat): nat {
    if k == 0 then 1 else 16 * Power16(k - 1)
  }

  /** It has as many digits as it needs. */
  lemma {:induction false} HexFitsIff(n: nat, k: nat)
    requires k > 0
    ensures |Hex(n)| <= k <==> n < Power16(k)
  {
    assert Power16(k) == 16 * Power16(k - 1) && Power16(1) == 16;
    if k == 1 || n < 16 {
      AtLeastOne(k - 1);
    } else {
      HexFitsIff(n / 16, k - 1);
    }
  }

  lemma {:induction false} AtLeastOne(k: nat)
    ensures Power16(k) >= 1
  {
    if k > 0 { AtLeastOne(k - 1); }
  }

  // ----- Printing

  /** How far int2reverse_hex has come with nr: what is left of it, and what is written. */
  predicate Writing(rest: nat, done: string, nr: nat) {
    nr != 0 && (if rest == 0 then done == Hex(nr) else done + Hex(rest) == Hex(nr))
  }

  lemma WritingNext(rest: nat, done: string, nr: nat)
    requires Writing(rest, done, nr) && rest != 0
    ensures Writing(rest / 16, done + [HexDigit(rest % 16)], nr)
  {
    if rest >= 16 { Assoc(done, [HexDigit(rest % 16)], Hex(rest / 16)); }
  }

  lemma WritingStops(rest: nat, done: string, nr: nat, size: nat)
    requires Writing(rest, done, nr) && |done| <= size && (rest == 0 || |done| == size)
    ensures rest == 0 <==> |Hex(nr)| <= size
    ensures done == if |Hex(nr)| <= size then Hex(nr) else Hex(nr)[..size]
  {
    if rest != 0 { assert (done + Hex(rest))[..size] == done; }
  }

  /** int2reverse_hex: writes the digits, or as many as there is room for; a zero without
      room is no error. */
  method Int2ReverseHex(dst: array<char>, at: nat, size: nat, nr: nat) returns (ok: bool, next: nat, left: nat)
    requires at + size <= dst.Length
    modifies dst
    ensures ok <==> nr == 0 || |Hex(nr)| <= size
    ensures next + left == at + size
    ensures dst[..next] == old(dst[..at]) + if |Hex(nr)| <= size then Hex(nr) else Hex(nr)[..size]
  {
    next, left := at, size;
    ghost var before := dst[..at];
    if nr == 0 {
      if left != 0 {
        dst[next] := '0';
        next, left := next + 1, left - 1;
      }
      return true, next, left;
    }
    var n := nr;
    ghost var done := "";
    assert done + Hex(nr) == Hex(nr) && before + done == before;
    while left != 0 && n != 0
      invariant next == at + |done| && next + left == at + size
      invariant dst[..next] == before + done && Writing(n, done, nr)
      decreases left
    {
      WritingNext(n, done, nr);
      var digit := n % 16;
      dst[next] := HexDigit(digit);
      done := done + [HexDigit(digit)];
      n := n / 16;
      next, left := next + 1, left - 1;
    }
    WritingStops(n, done, nr, size);
    ok := n == 0;
  }

  // ----- Reading

  /** Cut to a 32-bit unsigned number. */
  function Cut(n: nat): (r: nat)
    ensures r < 0x1_0000_0000 && (n < 0x1_0000_0000 ==> r == n)
  {
    n % 0x1_0000_0000
  }

  /** Four bits more. */
  lemma CutNext(v: nat, d: nat)
    requires d < 16
    ensures Cut(Cut(v) * 16) + d == Cut(16 * v + d)
  {
    var q := v / 0x1_0000_0000;
    var t := Cut(v) / 0x1000_0000;
    assert v == 0x1_0000_0000 * q + Cut(v);
    var low := Cut(v) - 0x1000_0000 * t;
    assert 0 <= low < 0x1000_0000;
    assert Cut(v) * 16 == 0x1_0000_0000 * t + 16 * low;
    CutIs(Cut(v) * 16, t, 16 * low);
    CutIs(16 * v + d, 16 * q + t, 16 * low + d);
  }

  lemma CutIs(n: nat, q: nat, r: nat)
    requires n == 0x1_0000_0000 * q + r && r < 0x1_0000_0000
    ensures Cut(n) == r
  {
  }

  /** reverse_hex2int: reads from the last character to the first, in 32 bits. */
  method ReverseHex2Int(c: string) returns (res: Option<nat>)
    ensures res == if AllHex(c) then Some(Cut(Value(c))) else None
  {
    var n, pc := 0, |c|;
    while pc > 0
      invariant 0 <= pc <= |c| && AllHex(c[pc..]) && n == Cut(Value(c[pc..]))
    {
      SplitAt(c, pc - 1);
      Tail(c[pc - 1], c[pc..]);
      CutNext(Value(c[pc..]), HexValue(c[pc - 1]));
      if !IsHex(c[pc - 1]) { return None; }
      n := Cut(n * 16) + HexValue(c[pc - 1]);
      pc := pc - 1;
    }
    assert c[0..] == c;
    res := Some(n);
  }
}
