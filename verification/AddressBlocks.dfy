/**
 The address classes and the host rules of the network guard, said in other words: address classes as lists of CIDR
 blocks, a wildcard as a suffix after a dot.
 */
module AddressBlocks {
  import opened Basics
  import opened NetworkPolicy

  // ---- IPv4 ----

  predicate IsV4(ip: Address) {
    ip.V4? && ip.a < 256 && ip.b < 256 && ip.c < 256 && ip.d < 256
  }

  /** The address as a 32-bit number. */
  function Number(ip: Address): nat
    requires ip.V4?
  {
    ((ip.a * 256 + ip.b) * 256 + ip.c) * 256 + ip.d
  }

  /** A block of addresses that share the high part of their number; `size` addresses are in it. */
  datatype Block = Block(first: Address, size: nat)

  predicate In(ip: Address, block: Block)
    requires ip.V4? && block.first.V4? && block.size > 0
  {
    Number(block.first) <= Number(ip) < Number(block.first) + block.size
  }

  /** 10.0.0.0/8, 172.16.0.0/12 and 192.168.0.0/16, from section 3 of RFC 1918. */
  lemma PrivateBlocks(ip: Address)
    requires IsV4(ip)
    ensures IsPrivateV4(ip) <==>
            || In(ip, Block(V4(10, 0, 0, 0), 0x100_0000))
            || In(ip, Block(V4(172, 16, 0, 0), 0x10_0000))
            || In(ip, Block(V4(192, 168, 0, 0), 0x1_0000))
  {
  }

  /** The first octets of an address decide whether it is in a block that ends at an octet. */
  lemma OctetBlocks(ip: Address, a: nat, b: nat, c: nat)
    requires IsV4(ip) && a < 256 && b < 256 && c < 256
    ensures In(ip, Block(V4(a, 0, 0, 0), 0x100_0000)) <==> ip.a == a
    ensures In(ip, Block(V4(a, b, 0, 0), 0x1_0000)) <==> ip.a == a && ip.b == b
    ensures In(ip, Block(V4(a, b, c, 0), 0x100)) <==> ip.a == a && ip.b == b && ip.c == c
  {
  }

  /** Blocks for use within a host, a link or a site. */
  predicate Local(ip: Address)
    requires ip.V4?
  {
    || In(ip, Block(V4(0, 0, 0, 0), 0x100_0000))        // 0.0.0.0/8, this network
    || In(ip, Block(V4(10, 0, 0, 0), 0x100_0000))       // 10.0.0.0/8, private
    || In(ip, Block(V4(100, 64, 0, 0), 0x40_0000))      // 100.64.0.0/10, shared
    || In(ip, Block(V4(127, 0, 0, 0), 0x100_0000))      // 127.0.0.0/8, loopback
    || In(ip, Block(V4(169, 254, 0, 0), 0x1_0000))      // 169.254.0.0/16, link-local
    || In(ip, Block(V4(172, 16, 0, 0), 0x10_0000))      // 172.16.0.0/12, private
    || In(ip, Block(V4(192, 168, 0, 0), 0x1_0000))      // 192.168.0.0/16, private
  }

  /** Blocks set aside for protocols, documentation, benchmarks, multicast and the future. */
  predicate SetAside(ip: Address)
    requires ip.V4?
  {
    || In(ip, Block(V4(192, 0, 0, 0), 0x100))           // 192.0.0.0/24, protocol assignments
    || In(ip, Block(V4(192, 0, 2, 0), 0x100))           // 192.0.2.0/24, documentation
    || In(ip, Block(V4(198, 18, 0, 0), 0x2_0000))       // 198.18.0.0/15, benchmarking
    || In(ip, Block(V4(198, 51, 100, 0), 0x100))        // 198.51.100.0/24, documentation
    || In(ip, Block(V4(203, 0, 113, 0), 0x100))         // 203.0.113.0/24, documentation
    || In(ip, Block(V4(224, 0, 0, 0), 0x2000_0000))     // 224.0.0.0/3, multicast and reserved
  }

  lemma OddBlocks(ip: Address)
    requires IsV4(ip)
    ensures In(ip, Block(V4(100, 64, 0, 0), 0x40_0000)) <==> ip.a == 100 && 64 <= ip.b <= 127
    ensures In(ip, Block(V4(172, 16, 0, 0), 0x10_0000)) <==> ip.a == 172 && 16 <= ip.b <= 31
    ensures In(ip, Block(V4(198, 18, 0, 0), 0x2_0000)) <==> ip.a == 198 && 18 <= ip.b <= 19
    ensures In(ip, Block(V4(224, 0, 0, 0), 0x2000_0000)) <==> 224 <= ip.a
  {
  }

  lemma LocalExactly(ip: Address)
    requires IsV4(ip)
    ensures Local(ip) <==> || ip.a == 0 || ip.a == 127 || IsPrivateV4(ip) || (ip.a == 169 && ip.b == 254)
                           || (ip.a == 100 && 64 <= ip.b <= 127)
  {
    OddBlocks(ip);
    OctetBlocks(ip, 0, 0, 0);
    OctetBlocks(ip, 10, 0, 0);
    OctetBlocks(ip, 127, 0, 0);
    OctetBlocks(ip, 169, 254, 0);
    OctetBlocks(ip, 192, 168, 0);
  }

  lemma SetAsideExactly(ip: Address)
    requires IsV4(ip)
    ensures SetAside(ip) <==> || (ip.a == 192 && ip.b == 0 && ip.c in {0, 2}) || (ip.a == 198 && ip.b in {18, 19})
                              || (ip.a == 198 && ip.b == 51 && ip.c == 100)
                              || (ip.a == 203 && ip.b == 0 && ip.c == 113) || 224 <= ip.a
  {
    OddBlocks(ip);
    OctetBlocks(ip, 192, 0, 0);
    OctetBlocks(ip, 192, 0, 2);
    OctetBlocks(ip, 198, 51, 100);
    OctetBlocks(ip, 203, 0, 113);
  }

  /** An IPv4 address counts as public exactly when it is in none of these blocks. */
  lemma PublicExactly(ip: Address)
    requires IsV4(ip)
    ensures IsPublicV4(ip) <==> !Local(ip) && !SetAside(ip)
  {
    LocalExactly(ip);
    SetAsideExactly(ip);
  }

  // ---- IPv6 ----

  predicate IsV6(ip: Address) {
    && ip.V6? && ip.s0 < 0x1_0000 && ip.s1 < 0x1_0000 && ip.s2 < 0x1_0000 && ip.s3 < 0x1_0000
    && ip.s4 < 0x1_0000 && ip.s5 < 0x1_0000 && ip.s6 < 0x1_0000 && ip.s7 < 0x1_0000
  }

  /** The first 32 bits of an address. */
  function Top(ip: Address): nat
    requires ip.V6?
  {
    ip.s0 * 0x1_0000 + ip.s1
  }

  /** An IPv4-mapped address, as section 2.5.5.2 of RFC 4291 writes it, is classified as the IPv4 address it holds. */
  lemma MappedAlike(ip: Address)
    requires IsV4(ip)
    ensures var mapped := V6(0, 0, 0, 0, 0, 0xffff, ip.a * 256 + ip.b, ip.c * 256 + ip.d);
            && Mapped(mapped) == Some(ip)
            && (IsPublicEgress(mapped) <==> IsPublicEgress(ip))
            && (IsOptInPrivate(mapped) <==> IsOptInPrivate(ip))
  {
  }

  /** Any other IPv6 address is public exactly in 2000::/3 without 2001::/23, 2001:db8::/32, 2002::/16 and 3fff::/20. */
  lemma PublicV6Exactly(ip: Address)
    requires IsV6(ip) && Mapped(ip).None?
    ensures IsPublicEgress(ip) <==>
            && 0x2000_0000 <= Top(ip) < 0x4000_0000
            && !(0x2001_0000 <= Top(ip) < 0x2001_0200) && Top(ip) != 0x2001_0db8
            && !(0x2002_0000 <= Top(ip) < 0x2003_0000) && !(0x3fff_0000 <= Top(ip) < 0x3fff_1000)
  {
  }

  /** It can be opted in exactly if it is ::1 or in fc00::/7. */
  lemma PrivateV6Exactly(ip: Address)
    requires IsV6(ip) && Mapped(ip).None?
    ensures IsOptInPrivate(ip) <==> ip == V6(0, 0, 0, 0, 0, 0, 0, 1) || 0xfc00_0000 <= Top(ip) < 0xfe00_0000
  {
  }

  /** No address is public and private at once; what is neither is reached by no host-name rule, opt-in or not. */
  lemma ClassesDisjoint(ip: Address)
    ensures !(IsPublicEgress(ip) && IsOptInPrivate(ip))
  {
  }

  // ---- Host rules ----

  /** A wildcard matches exactly the hosts that end in its suffix after a dot. */
  lemma WildcardExactly(suffix: string, ports: seq<int>, transports: seq<Transport>, allow: bool, request: Request)
    ensures MatchesHost(Rule(WildcardSuffix(suffix), ports, transports, allow), request) <==>
            exists front: string :: request.host == front + "." + suffix
  {
    var rule := Rule(WildcardSuffix(suffix), ports, transports, allow);
    var n := |request.host| - |suffix|;
    if MatchesHost(rule, request) {
      assert request.host == request.host[..n - 1] + "." + suffix;
    }
    if front: string :| request.host == front + "." + suffix {
      assert request.host[n..] == suffix && request.host[n - 1] == '.';
    }
  }

  /** So neither the suffix itself nor a name that merely ends in its letters matches. */
  lemma WildcardNeedsDot(suffix: string, name: string, ports: seq<int>, transports: seq<Transport>, allow: bool,
                         request: Request)
    requires request.host == name + suffix && (name == "" || name[|name| - 1] != '.')
    ensures !MatchesHost(Rule(WildcardSuffix(suffix), ports, transports, allow), request)
  {
  }

  /** Which addresses a rule for an address or a range lets a request reach: those it names, and no others. */
  lemma AddressRulesExactly(rule: Rule, request: Request)
    requires rule.host.Ip? || rule.host.Cidr?
    ensures MatchesHost(rule, request) && AllowsResolved(rule, request) <==>
            var names := (ip: Address) => if rule.host.Ip? then ip == rule.host.address else rule.host.contains(ip);
            && (request.resolved.Some? ==> names(request.resolved.value))
            && (request.resolved.None? ==> request.hostIp.Some? && names(request.hostIp.value))
            && (rule.host.Cidr? && request.hostIp.Some? ==> names(request.hostIp.value))
  {
  }

  /** An empty list of ports or transports admits any; otherwise the request must name a member. */
  lemma EmptyMeansAny(rule: Rule, request: Request)
    ensures rule.ports == [] ==> MatchesPort(rule, request)
    ensures rule.ports != [] ==>
              (MatchesPort(rule, request) <==> exists i :: 0 <= i < |rule.ports| && request.port == Some(rule.ports[i]))
    ensures rule.transports == [] ==> MatchesTransport(rule, request)
    ensures rule.transports != [] ==> (MatchesTransport(rule, request) <==> request.transport in rule.transports)
  {
    if request.port.Some? && request.port.value in rule.ports {
      var i :| 0 <= i < |rule.ports| && rule.ports[i] == request.port.value;
      assert request.port == Some(rule.ports[i]);
    }
  }
}
