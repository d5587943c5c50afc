/** What decides the answers for a name: which address family is asked, which SRV records, and
    which port is given when none is known. */
module DnsChoices {
  import opened Options
  import opened IpAddress
  import opened LumpTypes
  import opened DnsFailover

  // ----- The address family

  /** Two zones in which hosts have the same IPv4 addresses, or the same IPv6 addresses. */
  ghost predicate Same4(z: Zone, y: Zone) {
    forall h :: z.ip4(h) == y.ip4(h) && z.a(h) == y.a(h)
  }

  ghost predicate Same6(z: Zone, y: Zone) {
    forall h :: z.ip6(h) == y.ip6(h) && z.aaaa(h) == y.aaaa(h)
  }

  ghost predicate SameAddresses(z: Zone, y: Zone, f: Flags) {
    forall h :: Addresses(z, h, f) == Addresses(y, h, f)
  }

  lemma {:induction false} SameExpanded(z: Zone, y: Zone, f: Flags, targets: seq<Target>)
    requires SameAddresses(z, y, f)
    ensures Expand(z, f, targets) == Expand(y, f, targets)
  {
    if targets != [] {
      assert Addresses(z, targets[0].host, f) == Addresses(y, targets[0].host, f);
      SameExpanded(z, y, f, targets[1..]);
    }
  }

  /** Answers for a name that is no address depend on the addresses of hosts, and on nothing
      of the SRV records but those that are asked for. */
  lemma SameAnswers(z: Zone, y: Zone, name: string, port: Option<nat>, proto: Proto, f: Flags)
    requires SameAddresses(z, y, f) && AnyLiteral(z, name) == None && AnyLiteral(y, name) == None
    requires proto == Udp ==> z.srv("_sip._udp." + name) == y.srv("_sip._udp." + name)
    requires proto == Tcp ==> z.srv("_sip._tcp." + name) == y.srv("_sip._tcp." + name)
    requires proto == Tls ==> z.srv("_sips._tcp." + name) == y.srv("_sips._tcp." + name)
    ensures Answers(z, name, port, proto, f) == Answers(y, name, port, proto, f)
  {
    assert Addresses(z, name, f) == Addresses(y, name, f);
    if SrvPrefix(proto).Some? {
      var srvName := SrvPrefix(proto).value + name;
      assert Targets(z, srvName) == Targets(y, srvName);
      SameExpanded(z, y, f, Targets(z, srvName));
    }
  }

  /** Under DNS_IPV4_ONLY no IPv6 address and no AAAA record has a say. */
  lemma Only4(z: Zone, y: Zone, name: string, port: Option<nat>, proto: Proto, f: Flags)
    requires f.v4Only && !f.v6Only && !f.v6First && Same4(z, y) && forall n :: z.srv(n) == y.srv(n)
    requires z.ip4(name) == None && z.ip6(name) == None && y.ip6(name) == None
    ensures Answers(z, name, port, proto, f) == Answers(y, name, port, proto, f)
  {
    forall h ensures Addresses(z, h, f) == Addresses(y, h, f) {
      assert z.ip4(h) == y.ip4(h) && z.a(h) == y.a(h);
    }
    assert z.ip4(name) == y.ip4(name);
    SameAnswers(z, y, name, port, proto, f);
  }

  /** Under DNS_IPV6_ONLY no IPv4 address and no A record has. */
  lemma Only6(z: Zone, y: Zone, name: string, port: Option<nat>, proto: Proto, f: Flags)
    requires f.v6Only && !f.v6First && Same6(z, y) && forall n :: z.srv(n) == y.srv(n)
    requires z.ip4(name) == None && y.ip4(name) == None && z.ip6(name) == None
    ensures Answers(z, name, port, proto, f) == Answers(y, name, port, proto, f)
  {
    forall h ensures Addresses(z, h, f) == Addresses(y, h, f) {
      assert z.ip6(h) == y.ip6(h) && z.aaaa(h) == y.aaaa(h);
    }
    assert z.ip6(name) == y.ip6(name);
    SameAnswers(z, y, name, port, proto, f);
  }

  /** A host has no source of addresses if and only if the families asked have none: both of
      them unless one alone is wanted. */
  lemma NoSourceIff(z: Zone, h: string, f: Flags)
    ensures !f.v4Only && !f.v6Only ==>
              (Choose(z, h, f) == Nothing
               <==> z.ip4(h) == None && z.a(h) == None && z.ip6(h) == None && z.aaaa(h) == None)
    ensures f.v4Only && !f.v6Only && !f.v6First ==> (Choose(z, h, f) == Nothing <==> z.ip4(h) == None && z.a(h) == None)
    ensures f.v6Only && !f.v6First ==> (Choose(z, h, f) == Nothing <==> z.ip6(h) == None && z.aaaa(h) == None)
  {
  }

  /** Without a word of IPv6 the IPv4 address or the A entry of a host is taken, if it has one;
      with it the IPv6 address or the AAAA entry. */
  lemma FirstFamily(z: Zone, h: string, f: Flags)
    ensures !f.v6First && !f.v6Only ==>
              (z.ip4(h).Some? ==> Addresses(z, h, f) == [z.ip4(h).value])
              && (z.ip4(h).None? && z.a(h).Some? ==> Addresses(z, h, f) == From(z.a(h).value, 0))
    ensures f.v6First || f.v6Only ==>
              (z.ip6(h).Some? ==> Addresses(z, h, f) == [z.ip6(h).value])
              && (z.ip6(h).None? && z.aaaa(h).Some? ==> Addresses(z, h, f) == From(z.aaaa(h).value, 0))
  {
  }

  /** And the other family only if the first has neither an address nor an entry. */
  lemma SecondFamily(z: Zone, h: string, f: Flags)
    ensures !f.v6First && !f.v6Only && !f.v4Only && z.ip4(h).None? && z.a(h).None? ==>
              (z.ip6(h).Some? ==> Addresses(z, h, f) == [z.ip6(h).value])
              && (z.ip6(h).None? && z.aaaa(h).Some? ==> Addresses(z, h, f) == From(z.aaaa(h).value, 0))
    ensures f.v6First && z.ip6(h).None? && z.aaaa(h).None? ==>
              (z.ip4(h).Some? ==> Addresses(z, h, f) == [z.ip4(h).value])
              && (z.ip4(h).None? && z.a(h).Some? ==> Addresses(z, h, f) == From(z.a(h).value, 0))
  {
  }

  // ----- The SRV records and the port

  /** With a port that is given the answers are the addresses of the name itself, at that port. */
  lemma GivenPort(z: Zone, name: string, port: nat, proto: Proto, f: Flags)
    requires port != 0 && |name| < 256
    ensures var all, ips := Answers(z, name, Some(port), proto, f), Addresses(z, name, f);
            |all| == |ips| && forall i :: 0 <= i < |ips| ==> all[i] == (ips[i], port)
  {
    AtPortEach(Addresses(z, name, f), port);
  }

  /** Without one an address is its own answer, unless it is of the family that is not wanted,
      at the port of SIP, or of SIPS over TLS. */
  lemma AddressItself(z: Zone, name: string, ip: IpAddr, proto: Proto, f: Flags)
    requires |name| <= 244 && (z.ip4(name) == Some(ip) || (z.ip4(name) == None && z.ip6(name) == Some(ip)))
    ensures Answers(z, name, Some(0), proto, f)
         == if (f.v4Only && !ip.inet) || (f.v6Only && ip.inet) then []
            else [(ip, if proto == Tls then 5061 else 5060)]
  {
  }

  /** The SRV records asked for are those of the protocol. */
  lemma AsksFor(z: Zone, name: string, proto: Proto, f: Flags, srvName: string)
    requires |name| <= 244 && z.ip4(name) == None && z.ip6(name) == None
    requires (proto == Udp && srvName == "_sip._udp." + name) || (proto == Tcp && srvName == "_sip._tcp." + name)
             || (proto == Tls && srvName == "_sips._tcp." + name)
    ensures z.srv(srvName).Some? && Expand(z, f, From(z.srv(srvName).value, 0)) != [] ==>
              Answers(z, name, Some(0), proto, f) == Expand(z, f, From(z.srv(srvName).value, 0))
  {
  }

  /** Without such records the addresses of the name are the answers, at the port of SIP, or of
      SIPS over TLS; so they are when no protocol is given, no port was asked for, or the name
      is too long to ask for SRV records. */
  lemma WithoutSrv(z: Zone, name: string, proto: Proto, f: Flags, port: Option<nat>)
    requires (port == None || port == Some(0)) && |name| < 256
    requires port == None || |name| > 244
             || (z.ip4(name) == None && z.ip6(name) == None
                 && (proto == ProtoNone || (proto == Udp && z.srv("_sip._udp." + name) == None)
                     || (proto == Tcp && z.srv("_sip._tcp." + name) == None)
                     || (proto == Tls && z.srv("_sips._tcp." + name) == None)))
    ensures var all, ips := Answers(z, name, port, proto, f), Addresses(z, name, f);
            |all| == |ips| && forall i :: 0 <= i < |ips| ==> all[i] == (ips[i], if proto == Tls then 5061 else 5060)
  {
    AtPortEach(Addresses(z, name, f), if proto == Tls then 5061 else 5060);
  }

  /** Where there are such records but none of their hosts has an address, the addresses of the
      name come at the port of the last of them. */
  lemma PortOfLast(z: Zone, name: string, proto: Proto, f: Flags, srvName: string)
    requires |name| <= 244 && z.ip4(name) == None && z.ip6(name) == None
    requires (proto == Udp && srvName == "_sip._udp." + name) || (proto == Tcp && srvName == "_sip._tcp." + name)
             || (proto == Tls && srvName == "_sips._tcp." + name)
    requires z.srv(srvName).Some? && From(z.srv(srvName).value, 0) != []
    requires Expand(z, f, From(z.srv(srvName).value, 0)) == []
    ensures var all, ips, targets := Answers(z, name, Some(0), proto, f), Addresses(z, name, f),
                                     From(z.srv(srvName).value, 0);
            |all| == |ips| && forall i :: 0 <= i < |ips| ==> all[i] == (ips[i], targets[|targets| - 1].port)
  {
    var targets := From(z.srv(srvName).value, 0);
    AtPortEach(Addresses(z, name, f), targets[|targets| - 1].port);
  }

  /** A name that is too long has no answer. */
  lemma TooLongName(z: Zone, name: string, port: Option<nat>, proto: Proto, f: Flags)
    requires |name| >= 256
    ensures Answers(z, name, port, proto, f) == []
  {
  }
}
