/** The case-insensitive hash that places a name in the DNS cache table. */
module CaseHash {

  const DNS_HASH_SIZE := 1024

  type Name = seq<bv8>

  /** tolower on ASCII, as strncasecmp compares. */
  function Lower(c: bv8): bv8 {
    if 0x41 <= c <= 0x5a then c + 0x20 else c
  }

  predicate EqualFold(a: Name, b: Name) {
    |a| == |b| && forall i :: 0 <= i < |a| ==> Lower(a[i]) == Lower(b[i])
  }

  /** Two names are the same if and only if each byte is, or is the same letter in the other case. */
  lemma FoldsIff(a: Name, b: Name)
    ensures EqualFold(a, b) <==>
            |a| == |b|
            && forall i :: 0 <= i < |a| ==>
                 a[i] == b[i] || ('A' as int <= a[i] as int <= 'Z' as int && b[i] as int == a[i] as int + 32)
                 || ('A' as int <= b[i] as int <= 'Z' as int && a[i] as int == b[i] as int + 32)
  {
    forall i | 0 <= i < |a| == |b| {
      LetterFolds(a[i], b[i]);
    }
  }

  lemma LetterFolds(c: bv8, d: bv8)
    ensures Lower(c) == Lower(d)
       <==> c == d || (65 <= c as int <= 90 && d as int == c as int + 32)
            || (65 <= d as int <= 90 && c as int == d as int + 32)
  {
  }

  /** What is the same as one of two same names is the same as the other. */
  lemma FoldsAlike(n: Name, a: Name, b: Name)
    requires EqualFold(a, b)
    ensures EqualFold(n, a) <==> EqualFold(n, b)
  {
  }

  /** The word operations of the hash: four bytes into a word, one more byte into a
      word, a word into the sum, the final mixing. */
  datatype Kernel<!W> = Kernel(
    zero: W,
    group: (bv8, bv8, bv8, bv8) -> W,
    shiftIn: (W, bv8) -> W,
    absorb: (W, W) -> W,
    finish: W -> W)

  /** hash_update_case_str: the case bits are set once the four bytes are together. The
      bytes are signed chars; (c ^ 0x80) - 0x80 extends the sign of c. */
  function SerGroup(a: bv8, b: bv8, c: bv8, d: bv8): bv32 {
    ((a as bv32 << 24) + (((b as bv32 ^ 0x80) - 0x80) << 16) + (((c as bv32 ^ 0x80) - 0x80) << 8)
     + ((d as bv32 ^ 0x80) - 0x80))
    | 0x20202020
  }

  function SerShiftIn(v: bv32, c: bv8): bv32 { (v << 8) + (((c as bv32 ^ 0x80) - 0x80) | 0x20) }

  function SerAbsorb(h: bv32, v: bv32): bv32 { h + (v ^ (v >> 3)) }

  function SerFinish(h: bv32): bv32 { (h + (h >> 11)) + ((h >> 13) + (h >> 23)) }

  const SER_KERNEL: Kernel<bv32> := Kernel(0, SerGroup, SerShiftIn, SerAbsorb, SerFinish)

  /** The bytes that do not fill a group. */
  function Rest<W>(k: Kernel<W>, s: Name, v: W): W {
    if s == [] then v else Rest(k, s[1..], k.shiftIn(v, s[0]))
  }

  function Update<W>(k: Kernel<W>, s: Name, h: W): W {
    if |s| >= 4 then Update(k, s[4..], k.absorb(h, k.group(s[0], s[1], s[2], s[3])))
    else k.absorb(h, Rest(k, s, k.zero))
  }

  function HashNo(s: Name): (r: nat)
    ensures r < DNS_HASH_SIZE
  {
    SER_KERNEL.finish(Update(SER_KERNEL, s, SER_KERNEL.zero)) as int % DNS_HASH_SIZE
  }

  /** A kernel that does not see the case of a letter. */
  ghost predicate CaseBlind<W(!new)>(k: Kernel<W>) {
    (forall a, b, c, d, a', b', c', d' ::
      Lower(a) == Lower(a') && Lower(b) == Lower(b') && Lower(c) == Lower(c') && Lower(d) == Lower(d')
      ==> k.group(a, b, c, d) == k.group(a', b', c', d'))
    && (forall v, c, c' :: Lower(c) == Lower(c') ==> k.shiftIn(v, c) == k.shiftIn(v, c'))
  }

  lemma CaseBit(c: bv8, c': bv8)
    requires Lower(c) == Lower(c')
    ensures ((c as bv32 ^ 0x80) - 0x80) | 0x20 == ((c' as bv32 ^ 0x80) - 0x80) | 0x20
  {
  }

  // A letter and what a carry from the bytes behind it makes of it differ in the case bit alone.

  lemma FirstFolds(a: bv8, b: bv8, c: bv8, d: bv8, a': bv8)
    requires Lower(a) == Lower(a')
    ensures SerGroup(a, b, c, d) == SerGroup(a', b, c, d)
  {
  }

  lemma SecondFolds(a: bv8, b: bv8, c: bv8, d: bv8, b': bv8)
    requires Lower(b) == Lower(b')
    ensures SerGroup(a, b, c, d) == SerGroup(a, b', c, d)
  {
  }

  lemma ThirdFolds(a: bv8, b: bv8, c: bv8, d: bv8, c': bv8)
    requires Lower(c) == Lower(c')
    ensures SerGroup(a, b, c, d) == SerGroup(a, b, c', d)
  {
  }

  lemma FourthFolds(a: bv8, b: bv8, c: bv8, d: bv8, d': bv8)
    requires Lower(d) == Lower(d')
    ensures SerGroup(a, b, c, d) == SerGroup(a, b, c, d')
  {
  }

  lemma GroupFolds(a: bv8, b: bv8, c: bv8, d: bv8, a': bv8, b': bv8, c': bv8, d': bv8)
    requires Lower(a) == Lower(a') && Lower(b) == Lower(b') && Lower(c) == Lower(c') && Lower(d) == Lower(d')
    ensures SerGroup(a, b, c, d) == SerGroup(a', b', c', d')
  {
    FirstFolds(a, b, c, d, a');
    SecondFolds(a', b, c, d, b');
    ThirdFolds(a', b', c, d, c');
    FourthFolds(a', b', c', d, d');
  }

  lemma SerKernelIsCaseBlind()
    ensures CaseBlind(SER_KERNEL)
  {
    forall a, b, c, d, a', b', c', d' |
      Lower(a) == Lower(a') && Lower(b) == Lower(b') && Lower(c) == Lower(c') && Lower(d) == Lower(d')
      ensures SerGroup(a, b, c, d) == SerGroup(a', b', c', d')
    {
      GroupFolds(a, b, c, d, a', b', c', d');
    }
    forall v, c, c' | Lower(c) == Lower(c') ensures SerShiftIn(v, c) == SerShiftIn(v, c') { CaseBit(c, c'); }
  }

  lemma {:induction false} RestFolds<W(!new)>(k: Kernel<W>, s: Name, t: Name, v: W)
    requires CaseBlind(k) && EqualFold(s, t)
    ensures Rest(k, s, v) == Rest(k, t, v)
  {
    if s != [] { RestFolds(k, s[1..], t[1..], k.shiftIn(v, s[0])); }
  }

  lemma {:induction false} UpdateFolds<W(!new)>(k: Kernel<W>, s: Name, t: Name, h: W)
    requires CaseBlind(k) && EqualFold(s, t)
    ensures Update(k, s, h) == Update(k, t, h)
    decreases |s|
  {
    if |s| >= 4 {
      UpdateFolds(k, s[4..], t[4..], k.absorb(h, k.group(s[0], s[1], s[2], s[3])));
    } else {
      RestFolds(k, s, t, k.zero);
    }
  }

  /** Names equal up to ASCII case are in the same bucket. */
  lemma HashIgnoresCase(s: Name, t: Name)
    requires EqualFold(s, t)
    ensures HashNo(s) == HashNo(t)
  {
    SerKernelIsCaseBlind();
    UpdateFolds(SER_KERNEL, s, t, SER_KERNEL.zero);
  }

  /** The two macro loops of hash_update_case_str and the final mixing. */
  method HashCaseRaw<W>(k: Kernel<W>, s: Name) returns (r: W)
    ensures r == k.finish(Update(k, s, k.zero))
  {
    var h := k.zero;
    var p := 0;
    while p + 4 <= |s|
      invariant 0 <= p <= |s|
      invariant Update(k, s[p..], h) == Update(k, s, k.zero)
    {
      assert s[p..][4..] == s[p + 4..];
      h := k.absorb(h, k.group(s[p], s[p + 1], s[p + 2], s[p + 3]));
      p := p + 4;
    }
    var v := k.zero;
    ghost var from := p;
    while p < |s|
      invariant from <= p <= |s| < from + 4
      invariant Rest(k, s[p..], v) == Rest(k, s[from..], k.zero)
    {
      assert s[p..][1..] == s[p + 1..];
      v := k.shiftIn(v, s[p]);
      p := p + 1;
    }
    h := k.absorb(h, v);
    r := k.finish(h);
  }

  /** dns_hash_no */
  method DnsHashNo(s: Name) returns (r: nat)
    ensures r == HashNo(s) && r < DNS_HASH_SIZE
  {
    var h := HashCaseRaw(SER_KERNEL, s);
    r := h as int % DNS_HASH_SIZE;
  }
}
