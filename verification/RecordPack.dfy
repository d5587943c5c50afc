/** The records of a name, sorted out of a list and packed into one block of memory. */
module RecordPack {
  import opened Options
  import opened SeqFacts
  import opened CaseHash
  import opened DnsBasics

  const TIMER_TICKS_HZ := 16

  /** An unsigned int that counts seconds. */
  type Seconds = n: nat | n < 0x1_0000_0000

  /** A record of an answer; `data` are the bytes of its rdata structure. */
  datatype Rdata = Rdata(name: Name, type_: nat, ttl: Seconds, data: seq<bv8>)

  /** The sizes of the structures, and where the name begins in the first. */
  datatype Layout = Layout(entry: nat, nameAt: nat, rr: nat)

  /** A packed record: its place, the place of its data, when it expires, and the next one. */
  datatype Rr = Rr(at: nat, dataAt: nat, expire: Ticks, next: Option<nat>)

  /** The limits of a time to live. */
  datatype Limits = Limits(min: Seconds, max: Seconds)

  // ----- Sorting out

  predicate RecMatches(r: Rdata, type_: nat, name: Name) {
    r.type_ == type_ && EqualFold(r.name, name)
  }

  function Matching(l: seq<Rdata>, type_: nat, name: Name): seq<Rdata> {
    if l == [] then [] else (if RecMatches(l[0], type_, name) then [l[0]] else []) + Matching(l[1..], type_, name)
  }

  function Others(l: seq<Rdata>, type_: nat, name: Name): seq<Rdata> {
    if l == [] then [] else (if RecMatches(l[0], type_, name) then [] else [l[0]]) + Others(l[1..], type_, name)
  }

  /** The type of the first record for the name that has the wanted type or is a CNAME. */
  function ChosenType(l: seq<Rdata>, type_: nat, name: Name): Option<nat> {
    if l == [] then None
    else if (l[0].type_ == type_ || l[0].type_ == T_CNAME) && EqualFold(l[0].name, name) then Some(l[0].type_)
    else ChosenType(l[1..], type_, name)
  }

  predicate Supported(type_: nat) {
    type_ == T_A || type_ == T_AAAA || type_ == T_SRV || type_ == T_NAPTR || type_ == T_CNAME
  }

  /** The records that are in the list of the entry: the copying loop of NAPTR does not go on
      to the place of the next record, so that each record is written over the one before. */
  function Kept(recs: seq<Rdata>): seq<Rdata> {
    if recs != [] && recs[0].type_ == T_NAPTR then recs[|recs| - 1..] else recs
  }

  lemma {:induction false} MatchingType(l: seq<Rdata>, type_: nat, name: Name)
    ensures forall r :: r in Matching(l, type_, name) ==> r.type_ == type_
  {
    if l != [] { MatchingType(l[1..], type_, name); }
  }

  /** The records taken are exactly those of the type for the name, its case ignored, and the
      others stay. */
  lemma {:induction false} MatchingExactly(l: seq<Rdata>, type_: nat, name: Name, r: Rdata)
    ensures r in Matching(l, type_, name) <==> r in l && r.type_ == type_ && EqualFold(r.name, name)
    ensures r in Others(l, type_, name) <==> r in l && !(r.type_ == type_ && EqualFold(r.name, name))
    ensures |Matching(l, type_, name)| + |Others(l, type_, name)| == |l|
  {
    if l != [] {
      assert l == [l[0]] + l[1..];
      MatchingExactly(l[1..], type_, name, r);
    }
  }

  /** The type is that of the first record for the name, its case ignored, that has the wanted
      one or is a CNAME. */
  lemma {:induction false} ChosenIsFirst(l: seq<Rdata>, wanted: nat, name: Name) returns (i: nat)
    ensures i <= |l| && (ChosenType(l, wanted, name) == if i < |l| then Some(l[i].type_) else None)
    ensures forall k :: 0 <= k < i ==> (l[k].type_ != wanted && l[k].type_ != 5) || !EqualFold(l[k].name, name)
    ensures i < |l| ==> (l[i].type_ == wanted || l[i].type_ == 5) && EqualFold(l[i].name, name)
  {
    i := 0;
    if l != [] && !((l[0].type_ == wanted || l[0].type_ == T_CNAME) && EqualFold(l[0].name, name)) {
      i := ChosenIsFirst(l[1..], wanted, name);
      i := i + 1;
    }
  }

  // ----- Placing

  function RoundPointer(n: nat): (r: nat)
    ensures n <= r < n + 8
  {
    (n + 7) / 8 * 8
  }

  lemma Rounded(n: nat)
    ensures RoundPointer(n) % 8 == 0
  {
  }

  function RoundShort(n: nat): (r: nat)
    ensures n <= r < n + 2 && r % 2 == 0
  {
    (n + 1) / 2 * 2
  }

  /** How far into its block the data of a record begins. */
  function DataOffset(l: Layout, type_: nat): nat {
    if type_ == T_SRV then RoundShort(l.rr) else if type_ == T_NAPTR then RoundPointer(l.rr) else l.rr
  }

  function BlockSize(l: Layout, r: Rdata): nat {
    RoundPointer(DataOffset(l, r.type_) + |r.data|)
  }

  /** The end of the block of the last record. */
  function End(l: Layout, name: Name, recs: seq<Rdata>): nat
    decreases |recs|
  {
    if recs == [] then RoundPointer(l.entry + |name|)
    else End(l, name, recs[..|recs| - 1]) + BlockSize(l, recs[|recs| - 1])
  }

  function DataAt(l: Layout, name: Name, recs: seq<Rdata>, i: nat): nat
    requires i < |recs|
  {
    End(l, name, recs[..i]) + DataOffset(l, recs[i].type_)
  }

  lemma EndNext(l: Layout, name: Name, recs: seq<Rdata>, i: nat)
    requires i < |recs|
    ensures End(l, name, recs[..i + 1]) == End(l, name, recs[..i]) + BlockSize(l, recs[i])
    ensures DataAt(l, name, recs, i) + |recs[i].data| <= End(l, name, recs[..i + 1])
  {
    assert recs[..i + 1][..i] == recs[..i];
  }

  lemma {:induction false} EndGrows(l: Layout, name: Name, recs: seq<Rdata>, i: nat, j: nat)
    requires i <= j <= |recs|
    ensures End(l, name, recs[..i]) <= End(l, name, recs[..j])
    decreases j
  {
    if i < j {
      EndNext(l, name, recs, j - 1);
      EndGrows(l, name, recs, i, j - 1);
    }
  }

  lemma {:induction false} EndAligned(l: Layout, name: Name, recs: seq<Rdata>)
    ensures End(l, name, recs) % 8 == 0 && End(l, name, recs) >= l.entry + |name|
    decreases |recs|
  {
    if recs != [] {
      EndAligned(l, name, recs[..|recs| - 1]);
      Rounded(DataOffset(l, recs[|recs| - 1].type_) + |recs[|recs| - 1].data|);
      EightsAdd(End(l, name, recs[..|recs| - 1]), BlockSize(l, recs[|recs| - 1]));
    } else {
      Rounded(l.entry + |name|);
    }
  }

  lemma EightsAdd(a: nat, b: nat)
    requires a % 8 == 0 && b % 8 == 0
    ensures (a + b) % 8 == 0
  {
  }

  /** Every block begins at a pointer boundary behind the name; the data of an SRV record
      begins at a short boundary, that of a NAPTR record at a pointer boundary. */
  lemma BlockAligned(l: Layout, name: Name, recs: seq<Rdata>, i: nat)
    requires i < |recs|
    ensures End(l, name, recs[..i]) % 8 == 0 && l.entry + |name| <= End(l, name, recs[..i])
    ensures recs[i].type_ == T_SRV ==> DataAt(l, name, recs, i) % 2 == 0
    ensures recs[i].type_ == T_NAPTR ==> DataAt(l, name, recs, i) % 8 == 0
  {
    EndAligned(l, name, recs[..i]);
    if recs[i].type_ == T_SRV { EvenSum(End(l, name, recs[..i]), RoundShort(l.rr)); }
    if recs[i].type_ == T_NAPTR {
      Rounded(l.rr);
      EightsAdd(End(l, name, recs[..i]), RoundPointer(l.rr));
    }
  }

  lemma EvenSum(a: nat, b: nat)
    requires a % 8 == 0 && b % 2 == 0
    ensures (a + b) % 2 == 0
  {
    assert a == 2 * (4 * (a / 8)) && b == 2 * (b / 2);
  }

  /** Every block lies inside the whole and ends before the next one begins. */
  lemma BlocksApart(l: Layout, name: Name, recs: seq<Rdata>, i: nat, j: nat)
    requires i < j <= |recs|
    ensures End(l, name, recs[..i]) + l.rr <= DataAt(l, name, recs, i)
    ensures DataAt(l, name, recs, i) + |recs[i].data| <= End(l, name, recs[..j]) <= End(l, name, recs)
  {
    EndNext(l, name, recs, i);
    EndGrows(l, name, recs, i + 1, j);
    EndGrows(l, name, recs, j, |recs|);
    assert recs[..|recs|] == recs;
  }

  // ----- Times

  function FixTtl(t: Seconds, lim: Limits): Seconds {
    if t < lim.min then lim.min else if t > lim.max then lim.max else t
  }

  /** S_TO_TICKS, before it is cut to 32 bits. */
  function Life(ttl: Seconds): nat { TIMER_TICKS_HZ * ttl }

  function MaxTtl(recs: seq<Rdata>, lim: Limits): Seconds
    decreases |recs|
  {
    if recs == [] then 0
    else
      var m, t := MaxTtl(recs[..|recs| - 1], lim), FixTtl(recs[|recs| - 1].ttl, lim);
      if m > t then m else t
  }

  /** No record is to live longer than the entry, and one is to live as long. */
  lemma {:induction false} MaxTtlIsMax(recs: seq<Rdata>, lim: Limits)
    ensures forall i :: 0 <= i < |recs| ==> FixTtl(recs[i].ttl, lim) <= MaxTtl(recs, lim)
    ensures recs != [] ==> exists i :: 0 <= i < |recs| && FixTtl(recs[i].ttl, lim) == MaxTtl(recs, lim)
    decreases |recs|
  {
    if recs != [] {
      var init, last := recs[..|recs| - 1], recs[|recs| - 1];
      MaxTtlIsMax(init, lim);
      if MaxTtl(init, lim) > FixTtl(last.ttl, lim) {
        var i :| 0 <= i < |init| && FixTtl(init[i].ttl, lim) == MaxTtl(init, lim);
        assert recs[i] == init[i];
      } else {
        assert FixTtl(recs[|recs| - 1].ttl, lim) == MaxTtl(recs, lim);
      }
    }
  }

  /** A time to live is kept inside the limits and otherwise as it is. */
  lemma TtlInLimits(t: Seconds, lim: Limits)
    requires lim.min <= lim.max
    ensures lim.min <= FixTtl(t, lim) <= lim.max
    ensures FixTtl(t, lim) == t <==> lim.min <= t <= lim.max
    ensures t < lim.min ==> FixTtl(t, lim) == lim.min
  {
  }

  /** Half a turn of the tick counter is 2^27 seconds, sixteen ticks each. */
  lemma HalfTurn(ttl: Seconds)
    ensures Life(ttl) <= 0x8000_0000 <==> ttl <= 0x800_0000
    ensures TICKS == 2 * 0x8000_0000
  {
  }

  // ----- The packer

  /** The entry that is made: its block of memory, what is in it, and its times. */
  datatype Packed = Packed(block: seq<bv8>, type_: nat, rrs: seq<Rr>, expire: Ticks)

  /** The data of a record stands in its place. */
  ghost predicate Holds(b: seq<bv8>, l: Layout, name: Name, recs: seq<Rdata>, i: nat)
    requires i < |recs|
  {
    var at := DataAt(l, name, recs, i);
    at + |recs[i].data| <= |b| && b[at..at + |recs[i].data|] == recs[i].data
  }

  ghost predicate AllHold(b: seq<bv8>, l: Layout, name: Name, recs: seq<Rdata>, i: nat) {
    i <= |recs| && forall k :: 0 <= k < i ==> Holds(b, l, name, recs, k)
  }

  function Placed(l: Layout, name: Name, recs: seq<Rdata>, i: nat, now: Ticks, lim: Limits): Rr
    requires i < |recs|
  {
    Rr(End(l, name, recs[..i]), DataAt(l, name, recs, i), Cut(now + Life(FixTtl(recs[i].ttl, lim))),
       if i + 1 < |recs| then Some(End(l, name, recs[..i + 1])) else None)
  }

  /** A block for all records that holds the name, closed by a zero, and every record that is kept. */
  ghost predicate Faithful(p: Packed, l: Layout, name: Name, recs: seq<Rdata>, now: Ticks, lim: Limits) {
    var kept := Kept(recs);
    |p.block| == End(l, name, recs) && NameAt(p.block, l, name)
    && |p.rrs| == |kept|
    && (forall i :: 0 <= i < |kept| ==>
        p.rrs[i] == Placed(l, name, kept, i, now, lim) && Holds(p.block, l, name, kept, i))
    && p.expire == Cut(now + Life(MaxTtl(recs, lim)))
  }

  /** Exactly when every record is in the list of the entry; else the last one is. */
  lemma AllKeptIff(p: Packed, l: Layout, name: Name, recs: seq<Rdata>, now: Ticks, lim: Limits)
    requires recs != [] && Faithful(p, l, name, recs, now, lim)
    ensures |p.rrs| == |recs| <==> recs[0].type_ != T_NAPTR || |recs| == 1
    ensures |p.rrs| != |recs| ==>
              |p.rrs| == 1 && p.rrs[0].next == None
              && var at, last := p.rrs[0].dataAt, recs[|recs| - 1];
                 at + |last.data| <= |p.block| && p.block[at..at + |last.data|] == last.data
                 && p.rrs[0].expire == Cut(now + Life(FixTtl(last.ttl, lim)))
  {
    assert |Kept(recs)| > 0;
    assert p.rrs[0] == Placed(l, name, Kept(recs), 0, now, lim) && Holds(p.block, l, name, Kept(recs), 0);
  }

  lemma LongerLives(now: Ticks, life: nat, longest: nat, d: nat)
    requires life <= longest <= TICKS / 2 && d < life + TICKS / 2
    ensures ExpiredAfter(now, longest, d) ==> ExpiredAfter(now, life, d)
    ensures ExpiredAfter(now, life, d) <==> d >= life
  {
    ExpiredWhen(now, life, d);
    ExpiredWhen(now, longest, d);
  }

  /** The entry is unexpired as long as any of its records is, if the longest life of a record
      is at most half a turn of the tick counter: at any time up to half a turn after the
      record's own end. */
  lemma EntryOutlivesRecords(p: Packed, l: Layout, name: Name, recs: seq<Rdata>, now: Ticks, lim: Limits, i: nat,
                             d: nat)
    requires Faithful(p, l, name, recs, now, lim) && Life(MaxTtl(recs, lim)) <= TICKS / 2
    requires i < |Kept(recs)| && d < Life(FixTtl(Kept(recs)[i].ttl, lim)) + TICKS / 2
    ensures ExpiredAt(p.expire, Cut(now + d)) ==> ExpiredAt(p.rrs[i].expire, Cut(now + d))
    ensures ExpiredAt(p.rrs[i].expire, Cut(now + d)) <==> d >= Life(FixTtl(Kept(recs)[i].ttl, lim))
  {
    MaxTtlIsMax(recs, lim);
    var k := |recs| - |Kept(recs)| + i;
    assert Kept(recs)[i] == recs[k];
    var life, longest := Life(FixTtl(recs[k].ttl, lim)), Life(MaxTtl(recs, lim));
    assert p.rrs[i].expire == Cut(now + life) && p.expire == Cut(now + longest);
    LongerLives(now, life, longest, d);
  }

  /** Exactly when the entry lives as long as its longest-lived record is to live. */
  lemma EntryLivesIff(p: Packed, l: Layout, name: Name, recs: seq<Rdata>, now: Ticks, lim: Limits)
    requires Faithful(p, l, name, recs, now, lim)
    ensures (forall d: nat :: d < Life(MaxTtl(recs, lim)) ==> !ExpiredAfter(now, Life(MaxTtl(recs, lim)), d))
       <==> Life(MaxTtl(recs, lim)) <= TICKS / 2
    ensures forall d: nat :: ExpiredAfter(now, Life(MaxTtl(recs, lim)), d) <==> ExpiredAt(p.expire, Cut(now + d))
  {
    LivesItsLifeIff(now, Life(MaxTtl(recs, lim)));
  }

  /** Times to live of 2^28 seconds and of ten, without limits: the entry is expired as soon
      as it is made, and its second record is not. */
  lemma LongLifeExpiresAtOnce(p: Packed, l: Layout, name: Name, a: Rdata, b: Rdata, now: Ticks)
    requires a.ttl == 0x1000_0000 && b.ttl == 10 && a.type_ != T_NAPTR
    requires Faithful(p, l, name, [a, b], now, Limits(0, 0xFFFF_FFFF))
    ensures p.expire == now && ExpiredAt(p.expire, now) && !ExpiredAt(p.rrs[1].expire, now)
  {
    var lim, recs := Limits(0, 0xFFFF_FFFF), [a, b];
    assert recs[..1] == [a] && [a][..0] == [];
    assert MaxTtl([a], lim) == a.ttl && MaxTtl(recs, lim) == a.ttl;
    assert p.rrs[1] == Placed(l, name, recs, 1, now, lim);
    ExpiredWhen(now, Life(10), 0);
    assert Cut(now + 0) == now;
  }

  /** A block with a part of it written over. */
  function Patched(b: seq<bv8>, at: nat, src: seq<bv8>): (r: seq<bv8>)
    requires at + |src| <= |b|
    ensures |r| == |b|
  {
    b[..at] + src + b[at + |src|..]
  }

  lemma PatchedReads(b: seq<bv8>, at: nat, src: seq<bv8>)
    requires at + |src| <= |b|
    ensures Patched(b, at, src)[at..at + |src|] == src
  {
  }

  lemma PatchedKeeps(b: seq<bv8>, at: nat, src: seq<bv8>, x: nat, n: nat)
    requires at + |src| <= |b| && x + n <= at
    ensures Patched(b, at, src)[x..x + n] == b[x..x + n]
  {
  }

  /** memcpy into the block. */
  method Write(dst: array<bv8>, at: nat, src: seq<bv8>)
    requires at + |src| <= dst.Length
    modifies dst
    ensures dst[..] == Patched(old(dst[..]), at, src)
  {
    var i := 0;
    while i < |src|
      invariant 0 <= i <= |src|
      invariant forall k :: 0 <= k < dst.Length ==> dst[k] == if at <= k < at + i then src[k - at] else old(dst[k])
    {
      dst[at + i] := src[i];
      i := i + 1;
    }
  }

  /** The name stands in its place, closed by a zero. */
  ghost predicate NameAt(b: seq<bv8>, l: Layout, name: Name) {
    l.nameAt + |name| < |b| && b[l.nameAt..l.nameAt + |name|] == name
        && b[l.nameAt + |name|..l.nameAt + |name| + 1] == [0]
  }

  /** The block with the name and the first `i` records. */
  ghost predicate Packing(b: seq<bv8>, l: Layout, name: Name, recs: seq<Rdata>, i: nat) {
    |b| == End(l, name, recs) && NameAt(b, l, name) && AllHold(b, l, name, recs, i)
  }

  /** A record is not touched by what is written behind the first `i`. */
  lemma HoldsPatched(b: seq<bv8>, l: Layout, name: Name, recs: seq<Rdata>, k: nat, i: nat, src: seq<bv8>)
    requires k < i < |recs| && Holds(b, l, name, recs, k) && DataAt(l, name, recs, i) + |src| <= |b|
    ensures Holds(Patched(b, DataAt(l, name, recs, i), src), l, name, recs, k)
  {
    BlocksApart(l, name, recs, k, i);
    DataBehind(l, name, recs, i);
    PatchedKeeps(b, DataAt(l, name, recs, i), src, DataAt(l, name, recs, k), |recs[k].data|);
  }

  lemma DataBehind(l: Layout, name: Name, recs: seq<Rdata>, i: nat)
    requires i < |recs|
    ensures End(l, name, recs[..i]) <= DataAt(l, name, recs, i)
  {
  }

  lemma NamePatched(b: seq<bv8>, l: Layout, name: Name, at: nat, src: seq<bv8>)
    requires NameAt(b, l, name) && l.nameAt + |name| + 1 <= at && at + |src| <= |b|
    ensures NameAt(Patched(b, at, src), l, name)
  {
    PatchedKeeps(b, at, src, l.nameAt, |name|);
    PatchedKeeps(b, at, src, l.nameAt + |name|, 1);
  }

  /** What is packed behind the first `i` records leaves them alone. */
  lemma PackingNext(b: seq<bv8>, l: Layout, name: Name, recs: seq<Rdata>, i: nat)
    requires i < |recs| && Packing(b, l, name, recs, i) && l.nameAt < l.entry
    ensures var at := DataAt(l, name, recs, i);
            at + |recs[i].data| <= |b| && Packing(Patched(b, at, recs[i].data), l, name, recs, i + 1)
  {
    var at, src := DataAt(l, name, recs, i), recs[i].data;
    BlocksApart(l, name, recs, i, i + 1);
    EndAligned(l, name, recs[..i]);
    DataBehind(l, name, recs, i);
    NamePatched(b, l, name, at, src);
    PatchedReads(b, at, src);
    forall k | 0 <= k < i ensures Holds(Patched(b, at, src), l, name, recs, k) {
      HoldsPatched(b, l, name, recs, k, i, src);
    }
  }

  /** One record of the copying loops; what was packed before stays. */
  method PackRecord(block: array<bv8>, l: Layout, name: Name, ghost recs: seq<Rdata>, ghost i: nat, rr: nat,
                    r: Rdata, now: Ticks, lim: Limits)
    returns (placed: Rr, next: nat)
    requires i < |recs| && r == recs[i] && rr == End(l, name, recs[..i]) && l.nameAt < l.entry
    requires Packing(block[..], l, name, recs, i)
    modifies block
    ensures placed == Placed(l, name, recs, i, now, lim).(next := Some(next)) && next == End(l, name, recs[..i + 1])
    ensures Packing(block[..], l, name, recs, i + 1)
  {
    PackingNext(block[..], l, name, recs, i);
    EndNext(l, name, recs, i);
    var dataAt := rr + DataOffset(l, r.type_);
    Write(block, dataAt, r.data);
    next := rr + BlockSize(l, r);
    placed := Rr(rr, dataAt, Cut(now + Life(FixTtl(r.ttl, lim))), Some(next));
  }

  lemma ZeroBehind(b: seq<bv8>, at: nat, src: seq<bv8>)
    requires at + |src| < |b| && forall k :: 0 <= k < |b| ==> b[k] == 0
    ensures Patched(b, at, src)[at + |src|..at + |src| + 1] == [0]
  {
  }

  /** The name, in a block of zeros. */
  method WriteName(block: array<bv8>, l: Layout, name: Name)
    requires l.nameAt + |name| < block.Length && forall k :: 0 <= k < block.Length ==> block[k] == 0
    modifies block
    ensures NameAt(block[..], l, name)
  {
    PatchedReads(block[..], l.nameAt, name);
    ZeroBehind(block[..], l.nameAt, name);
    Write(block, l.nameAt, name);
  }

  /** The first `i` records are placed, and each points to where the next one will be. */
  ghost predicate Linked(l: Layout, name: Name, recs: seq<Rdata>, i: nat, rrs: seq<Rr>, now: Ticks, lim: Limits) {
    |rrs| == i <= |recs|
    && forall k :: 0 <= k < i ==>
         rrs[k] == Placed(l, name, recs, k, now, lim).(next := Some(End(l, name, recs[..k + 1])))
  }

  lemma LinkedNext(l: Layout, name: Name, recs: seq<Rdata>, i: nat, rrs: seq<Rr>, now: Ticks, lim: Limits)
    requires i < |recs| && Linked(l, name, recs, i, rrs, now, lim)
    ensures Linked(l, name, recs, i + 1,
                   rrs + [Placed(l, name, recs, i, now, lim).(next := Some(End(l, name, recs[..i + 1])))], now, lim)
  {
  }

  /** The pointer of the last one is cleared. */
  function Ended(rrs: seq<Rr>): (r: seq<Rr>)
    ensures |r| == |rrs|
  {
    if rrs == [] then rrs else rrs[|rrs| - 1 := rrs[|rrs| - 1].(next := None)]
  }

  lemma LinkedDone(l: Layout, name: Name, recs: seq<Rdata>, rrs: seq<Rr>, now: Ticks, lim: Limits)
    requires Linked(l, name, recs, |recs|, rrs, now, lim)
    ensures var done := Ended(rrs);
            forall i :: 0 <= i < |recs| ==> done[i] == Placed(l, name, recs, i, now, lim)
  {
  }

  /** One place for all: after `i` records it holds the last of them. */
  ghost predicate OneSlot(b: seq<bv8>, l: Layout, name: Name, recs: seq<Rdata>, i: nat, rrs: seq<Rr>, now: Ticks,
                          lim: Limits)
  {
    i <= |recs| && |b| == End(l, name, recs) && NameAt(b, l, name)
    && (i > 0 ==>
          Holds(b, l, name, [recs[i - 1]], 0) && rrs == [Placed(l, name, [recs[i - 1]], 0, now, lim)])
  }

  lemma SlotOf(l: Layout, name: Name, r: Rdata, now: Ticks, lim: Limits)
    requires r.type_ == T_NAPTR
    ensures var rr, dataAt := RoundPointer(l.entry + |name|), RoundPointer(l.entry + |name|) + RoundPointer(l.rr);
            DataAt(l, name, [r], 0) == dataAt
            && Placed(l, name, [r], 0, now, lim) == Rr(rr, dataAt, Cut(now + Life(FixTtl(r.ttl, lim))), None)
  {
    assert [r][..0] == [];
  }

  lemma SlotNext(b: seq<bv8>, l: Layout, name: Name, recs: seq<Rdata>, i: nat, rrs: seq<Rr>, now: Ticks, lim: Limits)
    requires OneSlot(b, l, name, recs, i, rrs, now, lim) && i < |recs| && recs[i].type_ == T_NAPTR && l.nameAt < l.entry
    ensures var dataAt := RoundPointer(l.entry + |name|) + RoundPointer(l.rr);
            dataAt + |recs[i].data| <= |b|
            && OneSlot(Patched(b, dataAt, recs[i].data), l, name, recs, i + 1,
                       [Placed(l, name, [recs[i]], 0, now, lim)], now, lim)
  {
    var dataAt := RoundPointer(l.entry + |name|) + RoundPointer(l.rr);
    SlotFits(l, name, recs, i);
    SlotOf(l, name, recs[i], now, lim);
    NamePatched(b, l, name, dataAt, recs[i].data);
    PatchedReads(b, dataAt, recs[i].data);
  }

  /** The loop of NAPTR, which leaves only the last record. The pointers into the data of a
      record are offsets here, so that moving them with the data changes nothing. */
  method PackNaptr(block: array<bv8>, l: Layout, name: Name, recs: seq<Rdata>, now: Ticks, lim: Limits)
    returns (rrs: seq<Rr>, maxTtl: Seconds)
    requires l.nameAt < l.entry && block.Length == End(l, name, recs) && NameAt(block[..], l, name)
    requires forall r :: r in recs ==> r.type_ == T_NAPTR
    modifies block
    ensures OneSlot(block[..], l, name, recs, |recs|, rrs, now, lim) && maxTtl == MaxTtl(recs, lim)
  {
    rrs, maxTtl := [], 0;
    var i := 0;
    while i < |recs|
      invariant 0 <= i <= |recs| && maxTtl == MaxTtl(recs[..i], lim)
      invariant OneSlot(block[..], l, name, recs, i, rrs, now, lim)
    {
      rrs := PutNaptr(block, l, name, recs, i, rrs, recs[i], now, lim);
      var ttl := FixTtl(recs[i].ttl, lim);
      assert recs[..i + 1][..i] == recs[..i];
      maxTtl := if maxTtl > ttl then maxTtl else ttl;
      i := i + 1;
    }
    assert recs[..i] == recs;
  }

  method PutNaptr(block: array<bv8>, l: Layout, name: Name, ghost recs: seq<Rdata>, ghost i: nat, ghost rrs: seq<Rr>,
                  r: Rdata, now: Ticks, lim: Limits)
    returns (rrs': seq<Rr>)
    requires i < |recs| && r == recs[i] && r.type_ == T_NAPTR && l.nameAt < l.entry
    requires OneSlot(block[..], l, name, recs, i, rrs, now, lim)
    modifies block
    ensures OneSlot(block[..], l, name, recs, i + 1, rrs', now, lim)
  {
    SlotNext(block[..], l, name, recs, i, rrs, now, lim);
    SlotOf(l, name, r, now, lim);
    var rr := RoundPointer(l.entry + |name|);
    var dataAt := rr + RoundPointer(l.rr);
    rrs' := [Rr(rr, dataAt, Cut(now + Life(FixTtl(r.ttl, lim))), None)];
    Write(block, dataAt, r.data);
  }

  /** Any record fits into the block from the place of the first one on. */
  lemma SlotFits(l: Layout, name: Name, recs: seq<Rdata>, i: nat)
    requires i < |recs|
    ensures RoundPointer(l.entry + |name|) + DataOffset(l, recs[i].type_) + |recs[i].data| <= End(l, name, recs)
  {
    EndNext(l, name, recs, i);
    EndGrows(l, name, recs, 0, i);
    EndGrows(l, name, recs, i + 1, |recs|);
    assert recs[..0] == [] && recs[..|recs|] == recs;
  }

  /** The other copying loops. */
  method PackAll(block: array<bv8>, l: Layout, name: Name, recs: seq<Rdata>, now: Ticks, lim: Limits)
    returns (rrs: seq<Rr>, maxTtl: Seconds)
    requires l.nameAt < l.entry && Packing(block[..], l, name, recs, 0)
    modifies block
    ensures Packing(block[..], l, name, recs, |recs|) && Linked(l, name, recs, |recs|, rrs, now, lim)
    ensures maxTtl == MaxTtl(recs, lim)
  {
    var rr := RoundPointer(l.entry + |name|);
    rrs, maxTtl := [], 0;
    var i := 0;
    assert recs[..0] == [];
    while i < |recs|
      invariant 0 <= i <= |recs| && rr == End(l, name, recs[..i]) && maxTtl == MaxTtl(recs[..i], lim)
      invariant Packing(block[..], l, name, recs, i) && Linked(l, name, recs, i, rrs, now, lim)
    {
      var placed;
      placed, rr := PackRecord(block, l, name, recs, i, rr, recs[i], now, lim);
      var ttl := FixTtl(recs[i].ttl, lim);
      assert recs[..i + 1][..i] == recs[..i];
      maxTtl := if maxTtl > ttl then maxTtl else ttl;
      LinkedNext(l, name, recs, i, rrs, now, lim);
      rrs := rrs + [placed];
      i := i + 1;
    }
    assert recs[..i] == recs;
  }

  /** The second half of dns_cache_mk_rd_entry: allocates and fills the block. */
  method Pack(l: Layout, name: Name, type_: nat, recs: seq<Rdata>, size: nat, now: Ticks, lim: Limits)
    returns (p: Packed)
    requires l.nameAt < l.entry && size + RoundPointer(l.entry + |name|) == End(l, name, recs)
    requires recs != [] && forall r :: r in recs ==> r.type_ == type_
    ensures Faithful(p, l, name, recs, now, lim) && p.type_ == type_
  {
    var total := size + RoundPointer(l.entry + |name|);
    var block := new bv8[total](_ => 0);
    WriteName(block, l, name);
    assert recs[0] in recs;
    var rrs, maxTtl := Fill(block, l, name, recs, now, lim);
    p := Packed(block[..], type_, rrs, Cut(now + Life(maxTtl)));
  }

  /** The copying loops, and the clearing of the last pointer. */
  method Fill(block: array<bv8>, l: Layout, name: Name, recs: seq<Rdata>, now: Ticks, lim: Limits)
    returns (rrs: seq<Rr>, maxTtl: Seconds)
    requires l.nameAt < l.entry && Packing(block[..], l, name, recs, 0)
    requires recs != [] && forall r :: r in recs ==> r.type_ == recs[0].type_
    modifies block
    ensures Faithful(Packed(block[..], recs[0].type_, rrs, Cut(now + Life(maxTtl))), l, name, recs, now, lim)
  {
    if recs[0].type_ == T_NAPTR {
      rrs, maxTtl := PackNaptr(block, l, name, recs, now, lim);
      SlotFaithful(block[..], l, name, recs, rrs, now, lim);
    } else {
      rrs, maxTtl := PackAll(block, l, name, recs, now, lim);
      AllFaithful(block[..], l, name, recs, rrs, now, lim);
      rrs := Ended(rrs);
    }
  }

  lemma AllFaithful(b: seq<bv8>, l: Layout, name: Name, recs: seq<Rdata>, rrs: seq<Rr>, now: Ticks, lim: Limits)
    requires recs != [] && recs[0].type_ != T_NAPTR
    requires Packing(b, l, name, recs, |recs|) && Linked(l, name, recs, |recs|, rrs, now, lim)
    ensures Faithful(Packed(b, recs[0].type_, Ended(rrs), Cut(now + Life(MaxTtl(recs, lim)))), l, name, recs, now, lim)
  {
    LinkedDone(l, name, recs, rrs, now, lim);
  }

  lemma SlotFaithful(b: seq<bv8>, l: Layout, name: Name, recs: seq<Rdata>, rrs: seq<Rr>, now: Ticks, lim: Limits)
    requires recs != [] && recs[0].type_ == T_NAPTR && OneSlot(b, l, name, recs, |recs|, rrs, now, lim)
    ensures Faithful(Packed(b, recs[0].type_, rrs, Cut(now + Life(MaxTtl(recs, lim)))), l, name, recs, now, lim)
  {
    assert Kept(recs) == [recs[|recs| - 1]];
  }

  lemma {:induction false} OthersKeepUntil(l: seq<Rdata>, p: nat, type_: nat, wanted: nat, name: Name)
    requires p <= |l| && (type_ == wanted || type_ == T_CNAME)
    requires forall i :: 0 <= i < p ==> !((l[i].type_ == wanted || l[i].type_ == T_CNAME) && EqualFold(l[i].name, name))
    ensures Matching(l, type_, name) == Matching(l[p..], type_, name)
            && Others(l, type_, name) == l[..p] + Others(l[p..], type_, name)
    decreases p
  {
    if p == 0 {
      assert l[0..] == l && l[..0] + Others(l, type_, name) == Others(l, type_, name);
    } else {
      OthersKeepUntil(l[1..], p - 1, type_, wanted, name);
      assert l[1..][p - 1..] == l[p..] && l[..p] == [l[0]] + l[1..][..p - 1];
      Assoc([l[0]], l[1..][..p - 1], Others(l[p..], type_, name));
      assert [] + Matching(l[1..], type_, name) == Matching(l[1..], type_, name);
    }
  }

  /** The size the first half adds up. */
  function Sizes(l: Layout, recs: seq<Rdata>): nat
    decreases |recs|
  {
    if recs == [] then 0 else Sizes(l, recs[..|recs| - 1]) + BlockSize(l, recs[|recs| - 1])
  }

  /** The precomputed size is exactly the end of the last record. */
  lemma {:induction false} SizesReachEnd(l: Layout, name: Name, recs: seq<Rdata>)
    ensures Sizes(l, recs) + RoundPointer(l.entry + |name|) == End(l, name, recs)
    ensures recs != [] && (l.rr > 0) ==> Sizes(l, recs) > 0
    decreases |recs|
  {
    if recs != [] { SizesReachEnd(l, name, recs[..|recs| - 1]); }
  }

  /** The first half of dns_cache_mk_rd_entry from the first match on: matching records are
      taken out of the list, in order, and their sizes added up. */
  method Collect(l: Layout, lst: seq<Rdata>, from: nat, type_: nat, name: Name)
    returns (tmp: seq<Rdata>, rest: seq<Rdata>, size: nat)
    requires from <= |lst|
    ensures tmp == Matching(lst[from..], type_, name) && rest == lst[..from] + Others(lst[from..], type_, name)
    ensures size == Sizes(l, tmp)
  {
    tmp, rest, size := [], lst, 0;
    var p := from;
    ghost var todo := lst[from..];
    while p < |rest|
      invariant from <= p <= |rest| && rest[p..] == todo
      invariant Collecting(lst[..from], lst[from..], type_, name, todo, tmp, rest[..p])
      invariant size == Sizes(l, tmp)
      decreases |todo|
    {
      assert todo[0] == rest[p] && todo[1..] == rest[p + 1..];
      CollectNext(lst[..from], lst[from..], type_, name, todo, tmp, rest[..p]);
      if RecMatches(rest[p], type_, name) {
        size := size + BlockSize(l, rest[p]);
        assert (tmp + [rest[p]])[..|tmp|] == tmp;
        tmp := tmp + [rest[p]];
        TakenOut(rest, p);
        rest := rest[..p] + rest[p + 1..];
      } else {
        SplitAt(rest, p);
        p := p + 1;
      }
      todo := todo[1..];
    }
    assert rest[..p] == rest;
    CollectDone(lst[..from], lst[from..], type_, name, tmp, rest);
  }

  /** How far the sorting out has come. */
  ghost predicate Collecting(before: seq<Rdata>, all: seq<Rdata>, type_: nat, name: Name, todo: seq<Rdata>,
                             tmp: seq<Rdata>, kept: seq<Rdata>) {
    tmp + Matching(todo, type_, name) == Matching(all, type_, name)
    && kept + Others(todo, type_, name) == before + Others(all, type_, name)
  }

  lemma CollectNext(before: seq<Rdata>, all: seq<Rdata>, type_: nat, name: Name, todo: seq<Rdata>, tmp: seq<Rdata>,
                    kept: seq<Rdata>)
    requires todo != [] && Collecting(before, all, type_, name, todo, tmp, kept)
    ensures if RecMatches(todo[0], type_, name)
            then Collecting(before, all, type_, name, todo[1..], tmp + [todo[0]], kept)
            else Collecting(before, all, type_, name, todo[1..], tmp, kept + [todo[0]])
  {
    var m, o := Matching(todo[1..], type_, name), Others(todo[1..], type_, name);
    if RecMatches(todo[0], type_, name) {
      Assoc(tmp, [todo[0]], m);
      assert [] + o == o;
    } else {
      Assoc(kept, [todo[0]], o);
      assert [] + m == m;
    }
  }

  lemma CollectDone(before: seq<Rdata>, all: seq<Rdata>, type_: nat, name: Name, tmp: seq<Rdata>, kept: seq<Rdata>)
    requires Collecting(before, all, type_, name, [], tmp, kept)
    ensures tmp == Matching(all, type_, name) && kept == before + Others(all, type_, name)
  {
    assert tmp + [] == tmp && kept + [] == kept;
  }

  lemma TakenOut(a: seq<Rdata>, p: nat)
    requires p < |a|
    ensures (a[..p] + a[p + 1..])[..p] == a[..p] && (a[..p] + a[p + 1..])[p..] == a[p + 1..]
  {
  }

  /** dns_cache_mk_rd_entry: the records of the name and of the type of its first record are
      taken out of the list and packed, the others stay, both in their order. */
  method MkRdEntry(l: Layout, name: Name, wanted: nat, lst: seq<Rdata>, now: Ticks, lim: Limits)
    returns (p: Option<Packed>, rest: seq<Rdata>)
    requires l.nameAt < l.entry && l.rr > 0
    ensures match ChosenType(lst, wanted, name)
            case None => p == None && rest == lst
            case Some(t) =>
              if !Supported(t) then p == None && rest == lst
              else p.Some? && p.value.type_ == t && rest == Others(lst, t, name)
                   && Matching(lst, t, name) != [] && Faithful(p.value, l, name, Matching(lst, t, name), now, lim)
  {
    var type_ := wanted;
    var i := 0;
    assert lst[0..] == lst;
    while i < |lst| && !((lst[i].type_ == wanted || lst[i].type_ == T_CNAME) && EqualFold(lst[i].name, name))
      invariant 0 <= i <= |lst| && ChosenType(lst, wanted, name) == ChosenType(lst[i..], wanted, name)
      invariant forall k :: 0 <= k < i ==>
                !((lst[k].type_ == wanted || lst[k].type_ == T_CNAME) && EqualFold(lst[k].name, name))
    {
      assert lst[i..][1..] == lst[i + 1..];
      i := i + 1;
    }
    if i < |lst| { type_ := lst[i].type_; }
    if !Supported(type_) { return None, lst; }
    var tmp, size;
    tmp, rest, size := Collect(l, lst, i, type_, name);
    if i < |lst| {
      OthersKeepUntil(lst, i, type_, wanted, name);
    } else {
      assert lst[..i] == lst && lst[i..] == [];
    }
    SizesReachEnd(l, name, tmp);
    if size == 0 { return None, rest; }
    MatchingType(lst, type_, name);
    var packed := Pack(l, name, type_, tmp, size, now, lim);
    p := Some(packed);
  }
}
