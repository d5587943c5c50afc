/** Networks given by an address and a mask or a prefix length. */
module Cidr {
  import opened Options
  import opened IpAddress
  import opened SeqFacts

  datatype Net = Net(ip: IpAddr, mask: IpAddr)

  // ----- Bits, by name

  function And(a: bv8, b: bv8): bv8 { a & b }

  predicate Bit(b: bv8, mask: bv8) { b & mask != 0 }

  /** The bits of a byte, the highest first. */
  function BitsOf(b: bv8): (r: seq<bool>)
    ensures |r| == 8
  {
    [Bit(b, 0x80), Bit(b, 0x40), Bit(b, 0x20), Bit(b, 0x10), Bit(b, 0x08), Bit(b, 0x04), Bit(b, 0x02), Bit(b, 0x01)]
  }

  /** The bits of an address. */
  function Bits(s: seq<bv8>): (r: seq<bool>)
    ensures |r| == 8 * |s|
  {
    if s == [] then [] else BitsOf(s[0]) + Bits(s[1..])
  }

  /** A byte whose first k bits are set. */
  function MaskByte(k: nat): bv8 {
    match k
    case 0 => 0
    case 1 => 0x80
    case 2 => 0xc0
    case 3 => 0xe0
    case 4 => 0xf0
    case 5 => 0xf8
    case 6 => 0xfc
    case 7 => 0xfe
    case _ => 0xff
  }

  /** The expression of the mask builder: ~((1 << (8 - k)) - 1), cut to a byte. */
  function BuiltByte(k: nat): bv8
    requires 0 < k < 8
  {
    !((1 << (8 - k)) - 1)
  }

  lemma BuiltByteIsMask(k: nat)
    requires 0 < k < 8
    ensures BuiltByte(k) == MaskByte(k)
  {
  }

  /** A mask of n bytes whose first b bits are set. */
  function MaskBytes(n: nat, b: nat): (r: seq<bv8>)
    ensures |r| == n
  {
    if n == 0 then [] else [MaskByte(b)] + MaskBytes(n - 1, if b >= 8 then b - 8 else 0)
  }

  function Masked(s: seq<bv8>, mask: seq<bv8>): (r: seq<bv8>)
    requires |mask| == |s|
    ensures |r| == |s| && forall i :: 0 <= i < |s| ==> r[i] == And(s[i], mask[i])
  {
    seq(|s|, i requires 0 <= i < |s| => And(s[i], mask[i]))
  }

  // ----- Masks keep the first bits

  function Or(a: bv8, b: bv8): bv8 { a | b }

  /** The mask of bit k, counted from the highest. */
  function OneBit(k: nat): bv8
    requires k < 8
  {
    match k
    case 0 => 0x80
    case 1 => 0x40
    case 2 => 0x20
    case 3 => 0x10
    case 4 => 0x08
    case 5 => 0x04
    case 6 => 0x02
    case _ => 0x01
  }

  lemma AndOverOr(x: bv8, m: bv8, b: bv8)
    ensures And(x, Or(m, b)) == Or(And(x, m), And(x, b))
  {
  }

  lemma AndWithin(x: bv8, m: bv8, b: bv8)
    ensures And(And(x, Or(m, b)), m) == And(x, m) && And(And(x, Or(m, b)), b) == And(x, b)
  {
  }

  lemma AndOr(x: bv8, y: bv8, m: bv8, b: bv8)
    ensures And(x, Or(m, b)) == And(y, Or(m, b)) <==> And(x, m) == And(y, m) && And(x, b) == And(y, b)
  {
    AndOverOr(x, m, b);
    AndOverOr(y, m, b);
    AndWithin(x, m, b);
    AndWithin(y, m, b);
  }

  lemma AndBit(x: bv8, y: bv8, k: nat)
    requires k < 8
    ensures And(x, OneBit(k)) == And(y, OneBit(k)) <==> Bit(x, OneBit(k)) == Bit(y, OneBit(k))
  {
    match k
    case 0 => assert (x & 0x80 == y & 0x80) <==> ((x & 0x80 != 0) == (y & 0x80 != 0));
    case 1 => assert (x & 0x40 == y & 0x40) <==> ((x & 0x40 != 0) == (y & 0x40 != 0));
    case 2 => assert (x & 0x20 == y & 0x20) <==> ((x & 0x20 != 0) == (y & 0x20 != 0));
    case 3 => assert (x & 0x10 == y & 0x10) <==> ((x & 0x10 != 0) == (y & 0x10 != 0));
    case 4 => assert (x & 0x08 == y & 0x08) <==> ((x & 0x08 != 0) == (y & 0x08 != 0));
    case 5 => assert (x & 0x04 == y & 0x04) <==> ((x & 0x04 != 0) == (y & 0x04 != 0));
    case 6 => assert (x & 0x02 == y & 0x02) <==> ((x & 0x02 != 0) == (y & 0x02 != 0));
    case _ => assert (x & 0x01 == y & 0x01) <==> ((x & 0x01 != 0) == (y & 0x01 != 0));
  }

  lemma MaskGrows(k: nat)
    requires k < 8
    ensures MaskByte(k + 1) == Or(MaskByte(k), OneBit(k))
  {
  }

  lemma BitAt(x: bv8, k: nat)
    requires k < 8
    ensures BitsOf(x)[k] == Bit(x, OneBit(k))
  {
  }

  lemma ZeroMask(x: bv8, y: bv8)
    ensures And(x, 0) == And(y, 0)
  {
  }

  lemma {:induction false} FirstBits(x: bv8, y: bv8, k: nat)
    requires k <= 8
    ensures And(x, MaskByte(k)) == And(y, MaskByte(k)) <==> BitsOf(x)[..k] == BitsOf(y)[..k]
  {
    if k == 0 {
      ZeroMask(x, y);
    } else {
      FirstBits(x, y, k - 1);
      MaskGrows(k - 1);
      AndOr(x, y, MaskByte(k - 1), OneBit(k - 1));
      AndBit(x, y, k - 1);
      BitAt(x, k - 1);
      BitAt(y, k - 1);
      OneMore(BitsOf(x), BitsOf(y), k - 1);
    }
  }

  lemma OneMore(p: seq<bool>, q: seq<bool>, k: nat)
    requires k < |p| && k < |q|
    ensures p[..k + 1] == q[..k + 1] <==> p[..k] == q[..k] && p[k] == q[k]
  {
    assert p[..k + 1] == p[..k] + [p[k]] && q[..k + 1] == q[..k] + [q[k]];
  }

  lemma PrefixOfConcat(a: seq<bool>, b: seq<bool>, c: seq<bool>, d: seq<bool>, k: nat)
    requires |a| == |b| && |c| == |d| && k <= |a| + |c|
    ensures (a + c)[..k] == (b + d)[..k]
            <==> if k <= |a| then a[..k] == b[..k] else a == b && c[..k - |a|] == d[..k - |a|]
  {
    if k <= |a| {
      assert (a + c)[..k] == a[..k] && (b + d)[..k] == b[..k];
    } else {
      var p, q := (a + c)[..k], (b + d)[..k];
      assert p == a + c[..k - |a|] && q == b + d[..k - |a|];
      assert p[..|a|] == a && q[..|a|] == b && p[|a|..] == c[..k - |a|] && q[|a|..] == d[..k - |a|];
    }
  }

  lemma MaskedCons(s: seq<bv8>, b: nat)
    requires s != []
    ensures Masked(s, MaskBytes(|s|, b))
         == [And(s[0], MaskByte(b))] + Masked(s[1..], MaskBytes(|s| - 1, if b >= 8 then b - 8 else 0))
  {
    MaskedFirst(s, MaskByte(b), MaskBytes(|s| - 1, if b >= 8 then b - 8 else 0));
  }

  lemma MaskedFirst(s: seq<bv8>, m: bv8, rest: seq<bv8>)
    requires |s| == 1 + |rest|
    ensures Masked(s, [m] + rest) == [And(s[0], m)] + Masked(s[1..], rest)
  {
    var a, b := Masked(s, [m] + rest), Masked(s[1..], rest);
    forall i | 0 <= i < |rest| ensures a[i + 1] == b[i] { MaskedAt(s, m, rest, i); }
    assert a == [a[0]] + a[1..] && a[1..] == b;
  }

  lemma MaskedAt(s: seq<bv8>, m: bv8, rest: seq<bv8>, i: nat)
    requires |s| == 1 + |rest| && i < |rest|
    ensures Masked(s, [m] + rest)[i + 1] == Masked(s[1..], rest)[i]
  {
    assert ([m] + rest)[i + 1] == rest[i] && s[1..][i] == s[i + 1];
  }

  lemma ConsEqual(p: bv8, q: bv8, s: seq<bv8>, t: seq<bv8>)
    ensures [p] + s == [q] + t <==> p == q && s == t
  {
    Tail(p, s);
    Tail(q, t);
  }

  lemma ByteAgrees(x: bv8, y: bv8, b: nat)
    ensures And(x, MaskByte(b)) == And(y, MaskByte(b))
            <==> if b >= 8 then BitsOf(x) == BitsOf(y) else BitsOf(x)[..b] == BitsOf(y)[..b]
  {
    FirstBits(x, y, if b >= 8 then 8 else b);
    assert BitsOf(x)[..8] == BitsOf(x) && BitsOf(y)[..8] == BitsOf(y);
  }

  /** Two addresses agree under a mask exactly when their first bits agree. */
  lemma {:induction false} MaskedAgree(x: seq<bv8>, y: seq<bv8>, b: nat)
    requires |x| == |y| && b <= 8 * |x|
    ensures Masked(x, MaskBytes(|x|, b)) == Masked(y, MaskBytes(|y|, b)) <==> Bits(x)[..b] == Bits(y)[..b]
  {
    if x != [] {
      var c := if b >= 8 then b - 8 else 0;
      var rest := MaskBytes(|x| - 1, c);
      MaskedCons(x, b);
      MaskedCons(y, b);
      ConsEqual(And(x[0], MaskByte(b)), And(y[0], MaskByte(b)), Masked(x[1..], rest), Masked(y[1..], rest));
      MaskedAgree(x[1..], y[1..], c);
      ByteAgrees(x[0], y[0], b);
      PrefixOfConcat(BitsOf(x[0]), BitsOf(y[0]), Bits(x[1..]), Bits(y[1..]), b);
    }
  }

  lemma AndTwice(a: bv8, m: bv8)
    ensures And(And(a, m), m) == And(a, m)
  {
  }

  lemma MaskedTwice(s: seq<bv8>, mask: seq<bv8>)
    requires |s| == |mask|
    ensures Masked(Masked(s, mask), mask) == Masked(s, mask)
  {
    forall i | 0 <= i < |s| ensures And(And(s[i], mask[i]), mask[i]) == And(s[i], mask[i]) { AndTwice(s[i], mask[i]); }
  }

  // ----- The operations

  /** mk_net: the address is masked in place, a word of four bytes at a time. */
  method MkNet(ip: IpAddr, mask: IpAddr) returns (n: Option<Net>)
    requires Sized(ip)
    ensures n == if ip.inet != mask.inet || |ip.addr| != |mask.addr| then None
                 else Some(Net(IpAddr(ip.inet, Masked(ip.addr, mask.addr)), mask))
  {
    if ip.inet != mask.inet || |ip.addr| != |mask.addr| { return None; }
    var len := |ip.addr|;
    var a := new bv8[len](i requires 0 <= i < len => ip.addr[i]);
    var r := 0;
    while r < len / 4
      invariant 0 <= r <= len / 4
      invariant forall i :: 0 <= i < len ==> a[i] == if i < 4 * r then And(ip.addr[i], mask.addr[i]) else ip.addr[i]
    {
      MaskWord(a, mask.addr, 4 * r);
      r := r + 1;
    }
    assert 4 * r == len;
    assert a[..] == Masked(ip.addr, mask.addr);
    n := Some(Net(IpAddr(ip.inet, a[..]), mask));
  }

  method MaskWord(a: array<bv8>, mask: seq<bv8>, w: nat)
    requires a.Length == |mask| && w + 4 <= |mask|
    modifies a
    ensures forall i :: 0 <= i < a.Length ==> a[i] == if w <= i < w + 4 then And(old(a[i]), mask[i]) else old(a[i])
  {
    a[w], a[w + 1], a[w + 2], a[w + 3] :=
        And(a[w], mask[w]), And(a[w + 1], mask[w + 1]), And(a[w + 2], mask[w + 2]), And(a[w + 3], mask[w + 3]);
  }

  /** mk_net_bitlen */
  method MkNetBitlen(ip: IpAddr, bitlen: nat) returns (n: Option<Net>)
    requires Sized(ip)
    ensures n == if bitlen > 8 * |ip.addr| then None else Some(NetOf(ip, bitlen))
  {
    if bitlen > |ip.addr| * 8 { return None; }
    var mask := new bv8[16](_ => 0);
    var r := 0;
    while r < bitlen / 8
      invariant 0 <= r <= bitlen / 8
      invariant forall i :: 0 <= i < 16 ==> mask[i] == if i < r then 0xff else 0
    {
      mask[r] := 0xff;
      r := r + 1;
    }
    if bitlen % 8 != 0 {
      BuiltByteIsMask(bitlen % 8);
      mask[r] := BuiltByte(bitlen % 8);
    }
    MaskBytesAt(|ip.addr|, bitlen);
    assert mask[..|ip.addr|] == MaskBytes(|ip.addr|, bitlen);
    n := MkNet(ip, IpAddr(ip.inet, mask[..|ip.addr|]));
  }

  /** The network of the first bits of an address. */
  function NetOf(ip: IpAddr, bitlen: nat): Net {
    var mask := MaskBytes(|ip.addr|, bitlen);
    Net(IpAddr(ip.inet, Masked(ip.addr, mask)), IpAddr(ip.inet, mask))
  }

  lemma {:induction false} MaskBytesAt(n: nat, b: nat)
    ensures forall i :: 0 <= i < n ==>
            MaskBytes(n, b)[i] == if i < b / 8 then 0xff else if i == b / 8 then MaskByte(b % 8) else 0
  {
    if n > 0 {
      var c := if b >= 8 then b - 8 else 0;
      MaskBytesAt(n - 1, c);
      forall i | 0 < i < n
        ensures MaskBytes(n, b)[i] == if i < b / 8 then 0xff else if i == b / 8 then MaskByte(b % 8) else 0
      {
        assert MaskBytes(n, b)[i] == MaskBytes(n - 1, c)[i - 1];
      }
    }
  }

  /** matchnet */
  method MatchNet(ip: IpAddr, net: Net) returns (r: int)
    requires Sized(ip) && Sized(net.ip) && Sized(net.mask) && net.ip.inet == net.mask.inet
    ensures r == if ip.inet != net.ip.inet then -1 else if Masked(ip.addr, net.mask.addr) == net.ip.addr then 1 else 0
  {
    if ip.inet != net.ip.inet { return -1; }
    var k := 0;
    while k < |ip.addr| / 4
      invariant 0 <= k <= |ip.addr| / 4
      invariant forall i :: 0 <= i < 4 * k ==> And(ip.addr[i], net.mask.addr[i]) == net.ip.addr[i]
    {
      var w := 4 * k;
      var i := w;
      while i < w + 4
        invariant w <= i <= w + 4
        invariant forall j :: w <= j < i ==> And(ip.addr[j], net.mask.addr[j]) == net.ip.addr[j]
      {
        if And(ip.addr[i], net.mask.addr[i]) != net.ip.addr[i] { return 0; }
        i := i + 1;
      }
      k := k + 1;
    }
    r := 1;
  }

  // ----- What a prefix length means

  /** An address is in the network of the first b bits of another exactly when it is of
      its family and shares those bits. */
  lemma InNetIffSharesPrefix(x: IpAddr, ip: IpAddr, b: nat)
    requires Sized(x) && Sized(ip) && x.inet == ip.inet && b <= 8 * |ip.addr|
    ensures Masked(x.addr, NetOf(ip, b).mask.addr) == NetOf(ip, b).ip.addr <==> Bits(x.addr)[..b] == Bits(ip.addr)[..b]
  {
    MaskedAgree(x.addr, ip.addr, b);
  }

  /** Building the network of an address that is already masked changes nothing. */
  lemma MaskedNetIsFixed(ip: IpAddr, b: nat)
    requires Sized(ip) && b <= 8 * |ip.addr|
    ensures NetOf(NetOf(ip, b).ip, b) == NetOf(ip, b)
  {
    MaskedTwice(ip.addr, MaskBytes(|ip.addr|, b));
  }
}
