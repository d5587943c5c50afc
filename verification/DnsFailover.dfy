/** Failover through DNS: what a resolve handle yields when it is asked again and again. */
module DnsFailover {
  import opened Options
  import opened IpAddress
  import opened SeqFacts
  import opened LumpTypes

  const MAX_DNS_RECORDS := 255
  const MAX_DNS_NAME := 256
  const SIPS_PORT := 5061
  const SRV_UDP_PREFIX := "_sip._udp."
  const SRV_TCP_PREFIX := "_sip._tcp."
  const SRV_TLS_PREFIX := "_sips._tcp."
  const SRV_MAX_PREFIX_LEN := 11

  /** A record, and whether its err_flags are set. */
  datatype Record<T> = Record(data: T, marked: bool)

  /** A cache entry as its holder sees it at a fixed time. */
  datatype Entry<T> = Entry(rrs: seq<Record<T>>, expired: bool)

  datatype Target = Target(host: string, port: nat)

  /** What the name server, the cache and the address parsers answer, at a fixed time. */
  datatype Zone = Zone(
    ip4: string -> Option<IpAddr>,
    ip6: string -> Option<IpAddr>,
    a: string -> Option<Entry<IpAddr>>,
    aaaa: string -> Option<Entry<IpAddr>>,
    srv: string -> Option<Entry<Target>>)

  /** DNS_IPV6_FIRST, DNS_IPV6_ONLY and DNS_IPV4_ONLY. */
  datatype Flags = Flags(v6First: bool, v6Only: bool, v4Only: bool)

  datatype Ret = Zero | Eor | NoSrv | NoIp | AfMismatch | NameTooLong | Critical

  ghost predicate Fits(z: Zone) {
    (forall n :: z.a(n).Some? ==> |z.a(n).value.rrs| <= MAX_DNS_RECORDS)
    && (forall n :: z.aaaa(n).Some? ==> |z.aaaa(n).value.rrs| <= MAX_DNS_RECORDS)
    && (forall n :: z.srv(n).Some? ==> |z.srv(n).value.rrs| <= MAX_DNS_RECORDS)
  }

  /** One more on an unsigned char. */
  function Inc(n: nat): nat {
    if n >= 255 then 0 else n + 1
  }

  // ----- The records one entry yields

  /** The first unmarked record at `no` or after it. */
  function GoodFrom<T>(e: Entry<T>, no: nat): (r: Option<nat>)
    ensures r.Some? ==> no <= r.value < |e.rrs| && !e.expired && !e.rrs[r.value].marked
    ensures r.Some? ==> forall i :: no <= i < r.value ==> e.rrs[i].marked
    ensures r.None? && !e.expired ==> forall i :: no <= i < |e.rrs| ==> e.rrs[i].marked
    decreases |e.rrs| - no
  {
    if e.expired || no >= |e.rrs| then None else if !e.rrs[no].marked then Some(no) else GoodFrom(e, no + 1)
  }

  /** What reading at `no`, `no + 1` and so on yields until there is none. */
  function From<T>(e: Entry<T>, no: nat): seq<T>
    decreases |e.rrs| - no
  {
    match GoodFrom(e, no)
    case None => []
    case Some(i) => [e.rrs[i].data] + From(e, no + 1)
  }

  /** The unmarked records, once each. */
  function Good<T>(rrs: seq<Record<T>>): seq<T> {
    if rrs == [] then [] else (if rrs[0].marked then [] else [rrs[0].data]) + Good(rrs[1..])
  }

  /** dns_entry_get_rr: the record number it leaves is where it began to look. */
  method GetRr<T>(e: Entry<T>, no: nat) returns (rr: Option<T>, no': nat)
    ensures rr.Some? <==> GoodFrom(e, no).Some?
    ensures rr.Some? ==> rr.value == e.rrs[GoodFrom(e, no).value].data && no' == no
    ensures no' <= no && no' <= |e.rrs| && (no' < no ==> no' == |e.rrs|)
  {
    var i := 0;
    while i < |e.rrs| && i < no
      invariant i <= |e.rrs| && i <= no
    {
      i := i + 1;
    }
    no' := i;
    while i < |e.rrs|
      invariant no' <= i <= |e.rrs| && (no <= |e.rrs| ==> no' == no)
      invariant GoodFrom(e, no) == GoodFrom(e, i)
    {
      if !e.expired && !e.rrs[i].marked {
        rr := Some(e.rrs[i].data);
        return;
      }
      i := i + 1;
    }
    rr := None;
  }

  // ----- The addresses of one host

  datatype Chosen = Literal(ip: IpAddr) | Records(e: Entry<IpAddr>) | Nothing

  function Choose4(z: Zone, host: string): Chosen {
    match z.ip4(host)
    case Some(ip) => Literal(ip)
    case None => match z.a(host) case Some(e) => Records(e) case None => Nothing
  }

  function Choose6(z: Zone, host: string): Chosen {
    match z.ip6(host)
    case Some(ip) => Literal(ip)
    case None => match z.aaaa(host) case Some(e) => Records(e) case None => Nothing
  }

  /** The family a host is resolved in: the second is tried only when the first has no entry at all. */
  function Choose(z: Zone, host: string, f: Flags): Chosen {
    var first := if f.v6First || f.v6Only then Choose6(z, host) else Choose4(z, host);
    if first != Nothing then first
    else if f.v6First then Choose4(z, host)
    else if !f.v6Only && !f.v4Only then Choose6(z, host)
    else Nothing
  }

  function Addresses(z: Zone, host: string, f: Flags): seq<IpAddr> {
    match Choose(z, host, f)
    case Literal(ip) => [ip]
    case Records(e) => From(e, 0)
    case Nothing => []
  }

  // ----- The answers of a lookup

  function AtPort(ips: seq<IpAddr>, port: nat): seq<(IpAddr, nat)> {
    if ips == [] then [] else [(ips[0], port)] + AtPort(ips[1..], port)
  }

  /** Each target's addresses, in order. */
  function Expand(z: Zone, f: Flags, targets: seq<Target>): seq<(IpAddr, nat)> {
    if targets == [] then []
    else AtPort(Addresses(z, targets[0].host, f), targets[0].port) + Expand(z, f, targets[1..])
  }

  function LastPort(targets: seq<Target>, default: nat): nat {
    if targets == [] then default else targets[|targets| - 1].port
  }

  function DefaultPort(proto: Proto): nat {
    if proto == Tls then SIPS_PORT else SIP_PORT
  }

  function SrvPrefix(proto: Proto): Option<string> {
    match proto
    case Udp => Some(SRV_UDP_PREFIX)
    case Tcp => Some(SRV_TCP_PREFIX)
    case Tls => Some(SRV_TLS_PREFIX)
    case _ => None
  }

  function AnyLiteral(z: Zone, name: string): Option<IpAddr> {
    if z.ip4(name).Some? then z.ip4(name) else z.ip6(name)
  }

  predicate Mismatch(ip: IpAddr, f: Flags) {
    (f.v4Only && !ip.inet) || (f.v6Only && ip.inet)
  }

  function Targets(z: Zone, srvName: string): seq<Target> {
    match z.srv(srvName) case Some(s) => From(s, 0) case None => []
  }

  /** The addresses of the SRV targets in order; without any, the addresses of the name
      itself, at the port of the last SRV record that was tried. */
  function SrvAnswers(z: Zone, srvName: string, name: string, f: Flags, default: nat): seq<(IpAddr, nat)> {
    var targets := Targets(z, srvName);
    if Expand(z, f, targets) != [] then Expand(z, f, targets)
    else AtPort(Addresses(z, name, f), LastPort(targets, default))
  }

  /** Everything a fresh handle yields for a name. A port of 0 asks for SRV records. */
  function Answers(z: Zone, name: string, port: Option<nat>, proto: Proto, f: Flags): seq<(IpAddr, nat)> {
    if port == Some(0) && |name| + SRV_MAX_PREFIX_LEN + 1 <= MAX_DNS_NAME then
      match AnyLiteral(z, name)
      case Some(ip) => if Mismatch(ip, f) then [] else [(ip, DefaultPort(proto))]
      case None =>
        if proto == ProtoNone then AtPort(Addresses(z, name, f), DefaultPort(proto))
        else match SrvPrefix(proto)
             case None => []
             case Some(prefix) => SrvAnswers(z, prefix + name, name, f, DefaultPort(proto))
    else if |name| >= MAX_DNS_NAME then []
    else AtPort(Addresses(z, name, f), if port.Some? && port.value != 0 then port.value else DefaultPort(proto))
  }

  /** What a handle has still to yield from its SRV entry. */
  function Pending(z: Zone, f: Flags, srv: Entry<Target>, srvNo: nat, a: Option<Entry<IpAddr>>, ipNo: nat,
                   port: nat): seq<(IpAddr, nat)> {
    match a
    case None => Expand(z, f, From(srv, srvNo))
    case Some(e) => AtPort(From(e, ipNo), port) + Expand(z, f, From(srv, Inc(srvNo)))
  }

  // ----- Facts about reading

  lemma FromSkips<T>(e: Entry<T>, no: nat)
    requires GoodFrom(e, no).None?
    ensures From(e, no) == []
  {
  }

  lemma ExpandFirst(z: Zone, f: Flags, srv: Entry<Target>, no: nat)
    requires GoodFrom(srv, no).Some?
    ensures var t := srv.rrs[GoodFrom(srv, no).value].data;
            Expand(z, f, From(srv, no)) == AtPort(Addresses(z, t.host, f), t.port) + Expand(z, f, From(srv, no + 1))
            && LastPort(From(srv, no), t.port) == LastPort(From(srv, no + 1), t.port)
            && forall d :: LastPort(From(srv, no), d) == LastPort(From(srv, no + 1), t.port)
  {
    var t := srv.rrs[GoodFrom(srv, no).value].data;
    assert From(srv, no) == [t] + From(srv, no + 1);
    Tail(t, From(srv, no + 1));
  }

  /** Once an SRV entry yields nothing from its start, it yields nothing from anywhere. */
  lemma {:induction false} NothingAnywhere(z: Zone, f: Flags, srv: Entry<Target>, no: nat, k: nat)
    requires Expand(z, f, From(srv, no)) == [] && no <= k
    ensures Expand(z, f, From(srv, k)) == []
    decreases k - no
  {
    if no < k {
      if GoodFrom(srv, no).Some? {
        ExpandFirst(z, f, srv, no);
      } else {
        assert GoodFrom(srv, no + 1).None?;
      }
      NothingAnywhere(z, f, srv, no + 1, k);
    }
  }

  // ----- The handle

  class SrvHandle {
    var srv: Option<Entry<Target>>
    var a: Option<Entry<IpAddr>>
    var port: nat
    var srvNo: nat
    var ipNo: nat
    /** References this handle has taken and not put. */
    ghost var refs: int

    ghost predicate Valid()
      reads this
    {
      srvNo < 256 && ipNo < 256
      && (srv.Some? ==> |srv.value.rrs| <= MAX_DNS_RECORDS)
      && (a.Some? ==> |a.value.rrs| <= MAX_DNS_RECORDS)
      && refs == (if srv.Some? then 1 else 0) + (if a.Some? then 1 else 0)
    }

    /** dns_srv_handle_init */
    constructor ()
      ensures Valid() && srv == None && a == None && refs == 0
    {
      srv, a, port, srvNo, ipNo, refs := None, None, 0, 0, 0, 0;
    }

    /** dns_srv_handle_put: the handle holds nothing any more. */
    method Put()
      requires Valid()
      modifies this
      ensures Valid() && srv == None && a == None && refs == 0
    {
      if srv.Some? {
        refs := refs - 1;
        srv := None;
      }
      if a.Some? {
        refs := refs - 1;
        a := None;
      }
    }

    /** dns_srv_handle_next, behind a call that gave the first of the pending answers: the
        handle stands at the others, and "no" is said only when there are none. */
    method HandleNext(err: Ret) returns (more: bool)
      requires Valid()
      modifies this`ipNo
      ensures Valid() && more == (err == Zero && (srv.Some? || a.Some?))
      ensures ipNo == if err == Zero then Inc(old(ipNo)) else old(ipNo)
      ensures forall z, f, pending, ip, answerPort ::
                Gave(pending, err, ip, answerPort, Left(z, f, srv, srvNo, a, Inc(old(ipNo)), port)) ==>
                  if err != Zero then !more && pending == []
                  else Left(z, f, srv, srvNo, a, ipNo, port) == pending[1..] && (!more ==> |pending| == 1)
    {
      if err != Zero { return false; }
      ipNo := Inc(ipNo);
      more := srv.Some? || a.Some?;
    }

    /** dns_a_resolve and dns_aaaa_resolve */
    method FamilyResolve(z: Zone, v6: bool, name: string) returns (ret: Ret, ip: Option<IpAddr>)
      requires Valid() && Fits(z)
      modifies this`a, this`ipNo, this`refs
      ensures Valid() && (ret == Zero <==> ip.Some?)
      ensures old(a).Some? ==> a == old(a) && Read(old(a).value, old(ipNo), ret, ip, ipNo)
      ensures old(a).None? ==> Looked(if v6 then Choose6(z, name) else Choose4(z, name), old(ipNo), a, ret, ip, ipNo)
    {
      if a.None? {
        ip := if v6 then z.ip6(name) else z.ip4(name);
        if ip.Some? {
          ipNo := 0;
          return Zero, ip;
        }
        var found := if v6 then z.aaaa(name) else z.a(name);
        if found.None? { return NoIp, None; }
        a := found;
        refs := refs + 1;
        ipNo := 0;
      }
      ip, ipNo := GetRr(a.value, ipNo);
      ret := if ip.Some? then Zero else Eor;
    }

    /** dns_ip_resolve */
    method IpResolve(z: Zone, name: string, f: Flags) returns (ret: Ret, ip: Option<IpAddr>)
      requires Valid() && Fits(z)
      modifies this`a, this`ipNo, this`refs
      ensures Valid() && (ret == Zero <==> ip.Some?)
      ensures old(a).Some? ==> a == old(a) && Read(old(a).value, old(ipNo), ret, ip, ipNo)
      ensures old(a).None? ==> Looked(Choose(z, name, f), old(ipNo), a, ret, ip, ipNo)
    {
      ret, ip := FamilyResolve(z, f.v6First || f.v6Only, name);
      if ret == Zero { return; }
      if f.v6First {
        ret, ip := FamilyResolve(z, false, name);
      } else if !(f.v6Only || f.v4Only) {
        ret, ip := FamilyResolve(z, true, name);
      }
    }

    /** dns_srv_resolve */
    method SrvResolve(z: Zone, name: string) returns (ret: Ret, t: Option<Target>)
      requires Valid() && Fits(z)
      modifies this`srv, this`srvNo, this`refs
      ensures Valid() && (ret == Zero <==> t.Some?)
      ensures srv == if old(srv).Some? then old(srv) else z.srv(name)
      ensures srv.None? ==> ret == NoSrv && srvNo == old(srvNo)
      ensures srv.Some? ==> Read(srv.value, if old(srv).Some? then old(srvNo) else 0, ret, t, srvNo)
    {
      if srv.None? {
        srv := z.srv(name);
        if srv.None? { return NoSrv, None; }
        refs := refs + 1;
        srvNo := 0;
      }
      t, srvNo := GetRr(srv.value, srvNo);
      ret := if t.Some? then Zero else Eor;
    }

    /** What the handle will yield from the SRV entry it holds. */
    ghost function Rest(z: Zone, f: Flags): seq<(IpAddr, nat)>
      requires srv.Some?
      reads this
    {
      Pending(z, f, srv.value, srvNo, a, ipNo, port)
    }

    /** One pass of the loop of dns_srv_resolve_ip: `over` when there are no more SRV records. */
    method TryTarget(z: Zone, name: string, f: Flags) returns (ret: Ret, ip: Option<IpAddr>, port': nat, over: bool)
      requires Valid() && Fits(z) && (srv.None? ==> a.None?)
      modifies this
      ensures Valid() && (ret == Zero <==> ip.Some?)
      ensures srv == if old(srv).Some? then old(srv) else z.srv(name)
      ensures srv.None? ==> over && ret == NoSrv && a.None? && port == old(port) && ipNo == old(ipNo)
      ensures srv.Some?
              ==> Tried(z, f, srv.value, if old(srv).Some? then old(srvNo) else 0, old(a), old(ipNo), old(port),
                                  ret, ip, port', over, srvNo, a, ipNo, port)
      ensures !over && ret != Zero && old(srv).Some? && old(a).None? ==> srvNo > old(srvNo)
    {
      ip, port', over := None, port, true;
      var host := "";
      ghost var no0 := if srv.Some? then srvNo else 0;
      if a.None? {
        var t;
        ret, t := SrvResolve(z, name);
        if ret != Zero { return; }
        host, port' := t.value.host, t.value.port;
        port := port';
      }
      over := false;
      ghost var held := a;
      ret, ip := IpResolve(z, host, f);
      if held.Some? {
        HeldStep(z, f, srv.value, no0, held.value, old(ipNo), old(port), ret, ip, ipNo);
      } else {
        TargetStep(z, f, srv.value, no0, old(ipNo), old(port), a, ret, ip, ipNo);
      }
      MoveOn(ret == Zero);
    }

    /** The end of that pass: on to the next target if this one has yielded nothing, or was an
        address itself. */
    method MoveOn(yielded: bool)
      requires Valid() && srv.Some?
      modifies this`srvNo, this`a, this`refs
      ensures Valid() && a == if yielded then old(a) else None
      ensures srvNo == if yielded && old(a).Some? then old(srvNo) else Inc(old(srvNo))
    {
      if !yielded {
        srvNo := Inc(srvNo);
        if a.Some? {
          refs := refs - 1;
          a := None;
        }
      } else if a.None? {
        srvNo := Inc(srvNo);
      }
    }

    /** dns_srv_resolve_ip: the next address of the first target from here on that has one. */
    method SrvResolveIp(z: Zone, name: string, f: Flags) returns (ret: Ret, ip: Option<IpAddr>, port': nat)
      requires Valid() && Fits(z) && (srv.None? ==> a.None?)
      modifies this
      ensures Valid() && (ret == Zero <==> ip.Some?)
      ensures srv == if old(srv).Some? then old(srv) else z.srv(name)
      ensures srv.None? ==> ret == NoSrv && a.None? && port == old(port) && ipNo == old(ipNo)
      ensures srv.Some?
              ==> Yielded(z, f, srv.value, if old(srv).Some? then old(srvNo) else 0, old(a), old(ipNo), old(port),
                                    ret, ip, port', srvNo, a, ipNo, port)
    {
      var over;
      ret, ip, port', over := TryTarget(z, name, f);
      ghost var no0 := if old(srv).Some? then old(srvNo) else 0;
      while ret != Zero && !over
        invariant Valid() && (srv.None? ==> over) && (ret == Zero <==> ip.Some?)
        invariant srv == if old(srv).Some? then old(srv) else z.srv(name)
        invariant srv.None? ==> ret == NoSrv && a.None? && port == old(port) && ipNo == old(ipNo)
        invariant srv.Some?
                  ==> Tried(z, f, srv.value, no0, old(a), old(ipNo), old(port), ret, ip, port', over, srvNo, a, ipNo,
                            port)
        decreases if ret != Zero && !over then 256 - srvNo else 0
      {
        ghost var no1, ip1, port1 := srvNo, ipNo, port;
        ret, ip, port', over := TryTarget(z, name, f);
        TriedAgain(z, f, srv.value, no0, old(a), old(ipNo), old(port), no1, ip1, port1, ret, ip, port', over, srvNo,
                   a, ipNo, port);
      }
    }

    /** The end of dns_sip_resolve: the addresses of the name itself. */
    method NameResolve(z: Zone, name: string, f: Flags) returns (ret: Ret, ip: Option<IpAddr>, port': nat)
      requires Valid() && Fits(z)
      requires srv.Some? ==> a.None? && Expand(z, f, From(srv.value, Inc(srvNo))) == [] && AnyLiteral(z, name) == None
      modifies this`a, this`ipNo, this`refs
      ensures Valid() && (ret == Zero <==> ip.Some?)
      ensures Gave(if |name| >= MAX_DNS_NAME then []
                   else AtPort(if old(a).Some? then From(old(a).value, old(ipNo)) else Addresses(z, name, f), port),
                   ret, ip, port', Left(z, f, srv, srvNo, a, Inc(ipNo), port))
    {
      port' := port;
      if |name| >= MAX_DNS_NAME { return NameTooLong, None, port'; }
      ret, ip := IpResolve(z, name, f);
      if old(a).Some? {
        NameStep(z, f, srv, srvNo, old(a).value, old(ipNo), port, ret, ip, ipNo);
      } else {
        NameLooked(z, name, f, srv, srvNo, old(ipNo), a, port, ret, ip, ipNo);
      }
    }

    /** dns_sip_resolve once it has the name of the SRV records. */
    method SrvThenName(z: Zone, srvName: string, name: string, f: Flags)
      returns (ret: Ret, ip: Option<IpAddr>, port': nat)
      requires Valid() && Fits(z) && srv.None? && a.None? && AnyLiteral(z, name) == None && |name| < MAX_DNS_NAME
      modifies this
      ensures Valid() && (ret == Zero <==> ip.Some?)
      ensures Gave(SrvAnswers(z, srvName, name, f, old(port)), ret, ip, port',
                   Left(z, f, srv, srvNo, a, Inc(ipNo), port))
    {
      ghost var targets := Targets(z, srvName);
      ret, ip, port' := SrvResolveIp(z, srvName, f);
      if srv.Some? {
        FirstYielded(z, f, srv.value, old(ipNo), old(port), ret, ip, port', srvNo, a, ipNo, port);
      }
      if ret == Zero { return; }
      assert Expand(z, f, targets) == [] && port == LastPort(targets, old(port));
      ret, ip, port' := NameResolve(z, name, f);
    }

    /** The first call of dns_sip_resolve when no port is given. */
    method FirstResolve(z: Zone, name: string, proto: Proto, f: Flags)
      returns (ret: Ret, ip: Option<IpAddr>, port': nat)
      requires Valid() && Fits(z) && srv.None? && a.None? && port == DefaultPort(proto)
      requires |name| + SRV_MAX_PREFIX_LEN + 1 <= MAX_DNS_NAME
      modifies this
      ensures Valid() && (ret == Zero <==> ip.Some?)
      ensures Gave(Answers(z, name, Some(0), proto, f), ret, ip, port', Left(z, f, srv, srvNo, a, Inc(ipNo), port))
    {
      port' := 0;
      var lit := AnyLiteral(z, name);
      if lit.Some? {
        if Mismatch(lit.value, f) { return AfMismatch, None, port'; }
        return Zero, lit, port;
      }
      if proto == ProtoNone {
        ret, ip, port' := NameResolve(z, name, f);
        return;
      }
      var prefix := SrvPrefix(proto);
      if prefix.None? { return Critical, None, port'; }
      ret, ip, port' := SrvThenName(z, prefix.value + name, name, f);
    }

    /** dns_sip_resolve: the first answer for the name, or the next one of the handle. */
    method SipResolve(z: Zone, name: string, portIn: Option<nat>, proto: Proto, f: Flags)
      returns (ret: Ret, ip: Option<IpAddr>, port': nat)
      requires Valid() && Fits(z)
      requires srv.None? && a.Some? ==> |name| < MAX_DNS_NAME
      modifies this
      ensures Valid() && (ret == Zero <==> ip.Some?)
      ensures Gave(if old(srv).None? && old(a).None? then Answers(z, name, portIn, proto, f)
                   else Left(z, f, old(srv), old(srvNo), old(a), old(ipNo), old(port)),
                   ret, ip, port', Left(z, f, srv, srvNo, a, Inc(ipNo), port))
      ensures ret == Zero && srv.None? && a.Some? ==> |name| < MAX_DNS_NAME
    {
      if srv.None? && a.None? {
        port := DefaultPort(proto);
        if portIn == Some(0) {
          if |name| + SRV_MAX_PREFIX_LEN + 1 <= MAX_DNS_NAME {
            ret, ip, port' := FirstResolve(z, name, proto, f);
            return;
          }
        } else if portIn.Some? {
          port := portIn.value;
        }
      } else if srv.Some? {
        ret, ip, port' := SrvResolveIp(z, name, f);
        YieldedGave(z, f, srv.value, old(srvNo), old(a), old(ipNo), old(port), ret, ip, port', srvNo, a, ipNo, port);
        return;
      }
      ret, ip, port' := NameResolve(z, name, f);
    }

    /** The documented use: resolve, and again for as long as the handle says so, then put.
        It yields every answer exactly once, in order, and leaves nothing referenced. */
    method ResolveAll(z: Zone, name: string, portIn: Option<nat>, proto: Proto, f: Flags)
      returns (got: seq<(IpAddr, nat)>)
      requires Valid() && Fits(z) && srv.None? && a.None?
      modifies this
      ensures Valid() && refs == 0 && got == Answers(z, name, portIn, proto, f)
    {
      ghost var all := Answers(z, name, portIn, proto, f);
      ghost var pending := all;
      var ret, ip, port' := SipResolve(z, name, portIn, proto, f);
      got := [];
      var more := true;
      while more
        invariant Valid() && (ret == Zero <==> ip.Some?) && got + pending == all
        invariant more ==> Gave(pending, ret, ip, port', Left(z, f, srv, srvNo, a, Inc(ipNo), port))
        invariant more && ret == Zero && srv.None? && a.Some? ==> |name| < MAX_DNS_NAME
        invariant !more ==> pending == []
        decreases |pending|, more
      {
        if ret == Zero {
          Shift(got, pending);
          got := got + [(ip.value, port')];
          pending := pending[1..];
        }
        more := HandleNext(ret);
        if more {
          ret, ip, port' := SipResolve(z, name, portIn, proto, f);
        }
      }
      Put();
    }
  }

  /** An entry was read at `no`. */
  ghost predicate Read<T(!new)>(e: Entry<T>, no: nat, ret: Ret, rr: Option<T>, no': nat) {
    no' <= no && no' <= |e.rrs| && (no' < no ==> no' == |e.rrs|)
    && match GoodFrom(e, no)
       case Some(i) => ret == Zero && rr == Some(e.rrs[i].data) && no' == no
       case None => ret == Eor && rr == None
  }

  /** A host was looked up and its first address read. */
  ghost predicate Looked(c: Chosen, no: nat, a: Option<Entry<IpAddr>>, ret: Ret, ip: Option<IpAddr>, no': nat) {
    match c
    case Literal(l) => a == None && ret == Zero && ip == Some(l) && no' == 0
    case Records(e) => a == Some(e) && Read(e, 0, ret, ip, no')
    case Nothing => a == None && ret == NoIp && ip == None && no' == no
  }

  /** One call on an SRV entry has yielded the next answer, or there is none. */
  ghost predicate Yielded(z: Zone, f: Flags, srv: Entry<Target>, srvNo: nat, a: Option<Entry<IpAddr>>, ipNo: nat,
                          port: nat,
                          ret: Ret, ip: Option<IpAddr>, answerPort: nat, srvNo': nat, a': Option<Entry<IpAddr>>,
                          ipNo': nat, port': nat)
  {
    var pending := Pending(z, f, srv, srvNo, a, ipNo, port);
    if pending == [] then
      ret == Eor && ip == None && a' == None && (a == None ==> port' == LastPort(From(srv, srvNo), port))
    else
      ret == Zero && ip == Some(pending[0].0) && answerPort == pending[0].1
      && Pending(z, f, srv, srvNo', a', Inc(ipNo'), port') == pending[1..]
  }

  /** Targets without an address have been passed over. */
  ghost predicate Skipped(z: Zone, f: Flags, srv: Entry<Target>, srvNo: nat, a: Option<Entry<IpAddr>>, ipNo: nat,
                          port: nat,
                          srvNo': nat, a': Option<Entry<IpAddr>>, ipNo': nat, port': nat)
  {
    Pending(z, f, srv, srvNo', a', ipNo', port') == Pending(z, f, srv, srvNo, a, ipNo, port)
    && (a == None ==> a' == None && LastPort(From(srv, srvNo'), port') == LastPort(From(srv, srvNo), port))
  }

  /** What a handle has still to yield. */
  ghost function Left(z: Zone, f: Flags, srv: Option<Entry<Target>>, srvNo: nat, a: Option<Entry<IpAddr>>, ipNo: nat,
                      port: nat): seq<(IpAddr, nat)> {
    match srv
    case Some(s) => Pending(z, f, s, srvNo, a, ipNo, port)
    case None => match a case Some(e) => AtPort(From(e, ipNo), port) case None => []
  }

  /** A call has given the first of the pending answers, or failed when there are none. */
  ghost predicate Gave(pending: seq<(IpAddr, nat)>, ret: Ret, ip: Option<IpAddr>, port: nat, left: seq<(IpAddr, nat)>) {
    if pending == [] then ret != Zero && ip == None
    else ret == Zero && ip == Some(pending[0].0) && port == pending[0].1 && left == pending[1..]
  }

  lemma YieldedGave(z: Zone, f: Flags, srv: Entry<Target>, srvNo: nat, a: Option<Entry<IpAddr>>, ipNo: nat, port: nat,
                    ret: Ret, ip: Option<IpAddr>, answerPort: nat, srvNo': nat, a': Option<Entry<IpAddr>>,
                    ipNo': nat, port': nat)
    requires Yielded(z, f, srv, srvNo, a, ipNo, port, ret, ip, answerPort, srvNo', a', ipNo', port')
    ensures Gave(Pending(z, f, srv, srvNo, a, ipNo, port), ret, ip, answerPort,
                 Left(z, f, Some(srv), srvNo', a', Inc(ipNo'), port'))
    ensures ret != Zero
            ==> a' == None
                && (a == None ==> Expand(z, f, From(srv, srvNo)) == [] && port' == LastPort(From(srv, srvNo), port))
  {
  }

  lemma FirstYielded(z: Zone, f: Flags, srv: Entry<Target>, ipNo: nat, port: nat,
                     ret: Ret, ip: Option<IpAddr>, answerPort: nat, srvNo': nat, a': Option<Entry<IpAddr>>,
                     ipNo': nat, port': nat)
    requires Yielded(z, f, srv, 0, None, ipNo, port, ret, ip, answerPort, srvNo', a', ipNo', port')
    ensures if Expand(z, f, From(srv, 0)) == [] then
              ret != Zero && a' == None && port' == LastPort(From(srv, 0), port)
                  && Expand(z, f, From(srv, Inc(srvNo'))) == []
            else Gave(Expand(z, f, From(srv, 0)), ret, ip, answerPort,
                      Left(z, f, Some(srv), srvNo', a', Inc(ipNo'), port'))
  {
    if Expand(z, f, From(srv, 0)) == [] { NothingAnywhere(z, f, srv, 0, Inc(srvNo')); }
  }

  lemma Shift<T>(got: seq<T>, pending: seq<T>)
    requires pending != []
    ensures got + pending == got + [pending[0]] + pending[1..]
  {
  }

  lemma NameStep(z: Zone, f: Flags, srv: Option<Entry<Target>>, srvNo: nat, e: Entry<IpAddr>, ipNo: nat, port: nat,
                 ret: Ret, ip: Option<IpAddr>, ipNo': nat)
    requires |e.rrs| <= MAX_DNS_RECORDS && Read(e, ipNo, ret, ip, ipNo')
    requires srv.Some? ==> Expand(z, f, From(srv.value, Inc(srvNo))) == []
    ensures Gave(AtPort(From(e, ipNo), port), ret, ip, port, Left(z, f, srv, srvNo, Some(e), Inc(ipNo'), port))
  {
    if ret == Zero {
      var x, rest := ip.value, From(e, ipNo + 1);
      assert From(e, ipNo) == [x] + rest;
      Tail(x, rest);
      Tail((x, port), AtPort(rest, port));
      assert AtPort(rest, port) + [] == AtPort(rest, port);
    } else {
      FromSkips(e, ipNo);
    }
  }

  lemma NameLooked(z: Zone, name: string, f: Flags, srv: Option<Entry<Target>>, srvNo: nat, ipNo: nat,
                   a: Option<Entry<IpAddr>>, port: nat, ret: Ret, ip: Option<IpAddr>, ipNo': nat)
    requires Fits(z) && Looked(Choose(z, name, f), ipNo, a, ret, ip, ipNo')
    requires srv.Some? ==> Expand(z, f, From(srv.value, Inc(srvNo))) == [] && AnyLiteral(z, name) == None
    ensures Gave(AtPort(Addresses(z, name, f), port), ret, ip, port, Left(z, f, srv, srvNo, a, Inc(ipNo'), port))
  {
    match Choose(z, name, f)
    case Nothing =>
    case Literal(l) => assert AtPort([l], port) == [(l, port)];
    case Records(e) => NameStep(z, f, srv, srvNo, e, 0, port, ret, ip, ipNo');
  }

  /** What one pass, or several that found nothing and one more, have done. */
  ghost predicate Tried(z: Zone, f: Flags, srv: Entry<Target>, srvNo: nat, a: Option<Entry<IpAddr>>, ipNo: nat,
                        port: nat,
                        ret: Ret, ip: Option<IpAddr>, answerPort: nat, over: bool, srvNo': nat,
                        a': Option<Entry<IpAddr>>, ipNo': nat, port': nat)
  {
    if ret == Zero || over then
      Yielded(z, f, srv, srvNo, a, ipNo, port, ret, ip, answerPort, srvNo', a', ipNo', port')
    else
      a' == None && Skipped(z, f, srv, srvNo, a, ipNo, port, srvNo', a', ipNo', port')
  }

  lemma TriedAgain(z: Zone, f: Flags, srv: Entry<Target>, srvNo: nat, a: Option<Entry<IpAddr>>, ipNo: nat, port: nat,
                   no1: nat, ip1: nat, port1: nat,
                   ret: Ret, ip: Option<IpAddr>, answerPort: nat, over: bool, srvNo': nat, a': Option<Entry<IpAddr>>,
                   ipNo': nat, port': nat)
    requires Skipped(z, f, srv, srvNo, a, ipNo, port, no1, None, ip1, port1)
    requires Tried(z, f, srv, no1, None, ip1, port1, ret, ip, answerPort, over, srvNo', a', ipNo', port')
    ensures Tried(z, f, srv, srvNo, a, ipNo, port, ret, ip, answerPort, over, srvNo', a', ipNo', port')
  {
  }

  lemma HeldStep(z: Zone, f: Flags, srv: Entry<Target>, srvNo: nat, e: Entry<IpAddr>, ipNo: nat, port: nat, ret: Ret,
                 ip: Option<IpAddr>, ipNo': nat)
    requires |e.rrs| <= MAX_DNS_RECORDS && Read(e, ipNo, ret, ip, ipNo')
    ensures if ret == Zero
            then Yielded(z, f, srv, srvNo, Some(e), ipNo, port, ret, ip, port, srvNo, Some(e), ipNo', port)
            else Skipped(z, f, srv, srvNo, Some(e), ipNo, port, Inc(srvNo), None, ipNo', port)
  {
    if ret == Zero {
      var x, rest := ip.value, From(e, ipNo + 1);
      assert From(e, ipNo) == [x] + rest;
      Tail(x, rest);
      Assoc([(x, port)], AtPort(rest, port), Expand(z, f, From(srv, Inc(srvNo))));
      Tail((x, port), AtPort(rest, port) + Expand(z, f, From(srv, Inc(srvNo))));
    } else {
      FromSkips(e, ipNo);
      assert AtPort([], port) + Expand(z, f, From(srv, Inc(srvNo))) == Expand(z, f, From(srv, Inc(srvNo)));
    }
  }

  lemma TargetStep(z: Zone, f: Flags, srv: Entry<Target>, srvNo: nat, ipNo: nat, port: nat,
                   a: Option<Entry<IpAddr>>, ret: Ret, ip: Option<IpAddr>, ipNo': nat)
    requires |srv.rrs| <= MAX_DNS_RECORDS && Fits(z) && GoodFrom(srv, srvNo).Some?
    requires Looked(Choose(z, srv.rrs[GoodFrom(srv, srvNo).value].data.host, f), ipNo, a, ret, ip, ipNo')
    ensures var t := srv.rrs[GoodFrom(srv, srvNo).value].data;
            if ret == Zero then
              Yielded(z, f, srv, srvNo, None, ipNo, port, ret, ip, t.port,
                      if a.None? then Inc(srvNo) else srvNo, a, ipNo', t.port)
            else Skipped(z, f, srv, srvNo, None, ipNo, port, Inc(srvNo), None, ipNo', t.port)
  {
    var t := srv.rrs[GoodFrom(srv, srvNo).value].data;
    var rest := Expand(z, f, From(srv, srvNo + 1));
    ExpandFirst(z, f, srv, srvNo);
    assert Inc(srvNo) == srvNo + 1;
    match Choose(z, t.host, f)
    case Nothing => assert [] + rest == rest;
    case Literal(l) =>
      assert AtPort([l], t.port) == [(l, t.port)];
      Tail((l, t.port), rest);
    case Records(e) =>
      if ret == Zero {
        HeldStep(z, f, srv, srvNo, e, 0, t.port, ret, ip, ipNo');
      } else {
        FromSkips(e, 0);
        assert [] + rest == rest;
      }
  }

  // ----- What the answers amount to

  function Data<T>(rrs: seq<Record<T>>): seq<T> {
    seq(|rrs|, i requires 0 <= i < |rrs| => rrs[i].data)
  }

  /** After a marked record there are only marked ones. */
  ghost predicate MarksLast<T>(rrs: seq<Record<T>>) {
    forall i, j :: 0 <= i < j < |rrs| && rrs[i].marked ==> rrs[j].marked
  }

  lemma {:induction false} FromIsGood<T>(e: Entry<T>, no: nat)
    requires !e.expired && MarksLast(e.rrs) && no <= |e.rrs|
    ensures From(e, no) == Good(e.rrs[no..])
    decreases |e.rrs| - no
  {
    if no < |e.rrs| {
      assert e.rrs[no..][0] == e.rrs[no] && e.rrs[no..][1..] == e.rrs[no + 1..];
      FromIsGood(e, no + 1);
      if e.rrs[no].marked { FromSkips(e, no + 1); }
    }
  }

  lemma {:induction false} FromIsLonger<T>(e: Entry<T>, no: nat, i: nat, j: nat)
    requires !e.expired && no <= |e.rrs|
    ensures |Good(e.rrs[no..])| <= |From(e, no)|
    ensures no <= i < j < |e.rrs| && e.rrs[i].marked && !e.rrs[j].marked ==> |Good(e.rrs[no..])| < |From(e, no)|
    decreases |e.rrs| - no
  {
    if no < |e.rrs| {
      assert e.rrs[no..][0] == e.rrs[no] && e.rrs[no..][1..] == e.rrs[no + 1..];
      FromIsLonger(e, no + 1, i, j);
      if GoodFrom(e, no).None? { FromSkips(e, no + 1); }
    }
  }

  /** Reading an entry record by record gives each unmarked record exactly once if and
      only if no unmarked record comes after a marked one. */
  lemma EachOnceIff<T>(e: Entry<T>)
    requires !e.expired
    ensures From(e, 0) == Good(e.rrs) <==> MarksLast(e.rrs)
  {
    assert e.rrs[0..] == e.rrs;
    if MarksLast(e.rrs) {
      FromIsGood(e, 0);
    } else {
      var i, j :| 0 <= i < j < |e.rrs| && e.rrs[i].marked && !e.rrs[j].marked;
      FromIsLonger(e, 0, i, j);
    }
  }

  /** A marked record makes the next unmarked one come twice. */
  lemma MarkedRepeats(x: IpAddr, y: IpAddr)
    ensures var e := Entry([Record(x, true), Record(y, false)], false);
            From(e, 0) == [y, y] && Good(e.rrs) == [y]
  {
    var e := Entry([Record(x, true), Record(y, false)], false);
    assert GoodFrom(e, 0) == Some(1) && GoodFrom(e, 1) == Some(1) && GoodFrom(e, 2) == None;
    assert From(e, 2) == [] && From(e, 1) == [y];
    assert e.rrs[1..] == [Record(y, false)];
    assert Good([Record(y, false)]) == [y] + Good([]);
  }

  ghost predicate Unmarked<T>(e: Entry<T>) {
    !e.expired && forall i :: 0 <= i < |e.rrs| ==> !e.rrs[i].marked
  }

  lemma {:induction false} FromUnmarked<T>(e: Entry<T>, no: nat)
    requires Unmarked(e) && no <= |e.rrs|
    ensures From(e, no) == Data(e.rrs)[no..]
    decreases |e.rrs| - no
  {
    if no < |e.rrs| {
      FromUnmarked(e, no + 1);
      SplitAt(Data(e.rrs), no);
    }
  }

  /** A zone without marked or expired records. */
  ghost predicate Clean(z: Zone) {
    (forall n :: z.a(n).Some? ==> Unmarked(z.a(n).value))
    && (forall n :: z.aaaa(n).Some? ==> Unmarked(z.aaaa(n).value))
    && (forall n :: z.srv(n).Some? ==> Unmarked(z.srv(n).value))
  }

  /** The addresses of a host in record order. */
  function HostIps(z: Zone, host: string, f: Flags): seq<IpAddr> {
    match Choose(z, host, f)
    case Literal(ip) => [ip]
    case Records(e) => Data(e.rrs)
    case Nothing => []
  }

  /** How many addresses these targets have. */
  function Before(z: Zone, f: Flags, targets: seq<Target>): nat {
    if targets == [] then 0 else |HostIps(z, targets[0].host, f)| + Before(z, f, targets[1..])
  }

  lemma AddressesOfClean(z: Zone, host: string, f: Flags)
    requires Clean(z)
    ensures Addresses(z, host, f) == HostIps(z, host, f)
  {
    match Choose(z, host, f)
    case Records(e) =>
      FromUnmarked(e, 0);
      assert Data(e.rrs)[0..] == Data(e.rrs);
    case _ =>
  }

  lemma {:induction false} AtPortEach(ips: seq<IpAddr>, port: nat)
    ensures |AtPort(ips, port)| == |ips| && forall i :: 0 <= i < |ips| ==> AtPort(ips, port)[i] == (ips[i], port)
  {
    if ips != [] {
      AtPortEach(ips[1..], port);
      assert forall i :: 0 < i < |ips| ==> AtPort(ips, port)[i] == AtPort(ips[1..], port)[i - 1];
    }
  }

  /** With nothing marked or expired, the answers of an SRV lookup are each target's
      addresses in record order, exactly once, one target after the other: answer number
      Before(t) + i is address i of target t, and there are no others. */
  lemma {:induction false} ExpandIsEachTarget(z: Zone, f: Flags, targets: seq<Target>, t: nat, i: nat)
    requires Clean(z)
    ensures |Expand(z, f, targets)| == Before(z, f, targets)
    ensures t < |targets| && i < |HostIps(z, targets[t].host, f)| ==>
              Before(z, f, targets[..t]) + i < |Expand(z, f, targets)|
              && Expand(z, f, targets)[Before(z, f, targets[..t]) + i]
                  == (HostIps(z, targets[t].host, f)[i], targets[t].port)
  {
    if targets != [] {
      var ips := HostIps(z, targets[0].host, f);
      AddressesOfClean(z, targets[0].host, f);
      AtPortEach(ips, targets[0].port);
      ExpandIsEachTarget(z, f, targets[1..], if t == 0 then 0 else t - 1, i);
      if 0 < t < |targets| { assert targets[..t][0] == targets[0] && targets[..t][1..] == targets[1..][..t - 1]; }
    }
  }

  lemma TargetsOfClean(z: Zone, srvName: string)
    requires Clean(z) && z.srv(srvName).Some?
    ensures Targets(z, srvName) == Data(z.srv(srvName).value.rrs)
  {
    var s := z.srv(srvName).value;
    FromUnmarked(s, 0);
    assert Data(s.rrs)[0..] == Data(s.rrs);
  }
}
