/** Access rules of a group: SetGroup compiles them, checkLinkAcl matches packets with what it made. */
module Acl {
  import opened Wrappers
  import PL = PortList

  const ALLOW := "allow"
  const ALL := "all"
  const ICMP := 1
  const TCP := 6
  const UDP := 17
  const LTYPE_IP_DATA := 2
  const DNS_PORT := 53

  // ---------------------------------------------------------------- networks

  function Pow2(n: nat): (p: nat)
    ensures p > 0
  {
    if n == 0 then 1 else 2 * Pow2(n - 1)
  }

  /** The text of a network, as net.ParseCIDR reads it: an address and the number of host bits, 32 less the prefix. */
  datatype Cidr = V4(ip: nat, host: nat) | V6

  /** An IPNet: the address with its host bits cleared, and the host bits of its mask. */
  datatype IpNet = Net4(ip: nat, host: nat) | Net6

  /** The bits that a mask keeps. */
  function Kept(x: nat, host: nat): nat { if host == 0 then x else Kept(x / 2, host - 1) }

  function Cleared(x: nat, host: nat): nat { if host == 0 then x else 2 * Cleared(x / 2, host - 1) }

  function NetOf(c: Cidr): IpNet {
    match c
    case V4(ip, host) => Net4(Cleared(ip, host), host)
    case V6 => Net6
  }

  /** IPNet.Contains for an IPv4 address. */
  predicate Contains(n: IpNet, dst: nat) {
    match n
    case Net4(ip, host) => Kept(dst, host) == Kept(ip, host)
    case Net6 => false
  }

  lemma {:induction false} KeptOfCleared(x: nat, host: nat)
    ensures Kept(Cleared(x, host), host) == Kept(x, host)
    ensures Cleared(x, host) <= x < Cleared(x, host) + Pow2(host) && Cleared(Cleared(x, host), host) == Cleared(x, host)
    decreases host
  {
    if host > 0 {
      KeptOfCleared(x / 2, host - 1);
      assert 2 * Cleared(x / 2, host - 1) / 2 == Cleared(x / 2, host - 1);
    }
  }

  lemma {:induction false} KeptIsInterval(x: nat, ip: nat, host: nat)
    ensures Kept(x, host) == Kept(ip, host) <==> Cleared(ip, host) <= x < Cleared(ip, host) + Pow2(host)
    decreases host
  {
    if host > 0 {
      KeptIsInterval(x / 2, ip / 2, host - 1);
    }
  }

  /** A network contains the interval of as many addresses as its host bits tell, from its first address on; its own
      address is one of them. */
  lemma ContainsInterval(c: Cidr, dst: nat)
    requires c.V4?
    ensures Contains(NetOf(c), dst) <==> Cleared(c.ip, c.host) <= dst < Cleared(c.ip, c.host) + Pow2(c.host)
    ensures Contains(NetOf(c), c.ip)
  {
    KeptOfCleared(c.ip, c.host);
    KeptIsInterval(dst, c.ip, c.host);
    KeptIsInterval(c.ip, c.ip, c.host);
  }

  // ---------------------------------------------------------------- rules

  /** A GroupLinkAcl. The last three fields are what SetGroup computes. */
  datatype Rule = Rule(action: string, protocol: string, val: string, port: string, ipProto: int, ports: PL.Ports,
                       ipNet: Option<IpNet>)

  datatype Packet = Packet(ltype: int, ptype: int, dst: nat, port: nat, proto: int)

  /** Rules with a network; the others are dropped. */
  function Active(rules: seq<Rule>): seq<Rule> {
    if rules == [] then []
    else if rules[0].val != "" then [rules[0]] + Active(rules[1..])
    else Active(rules[1..])
  }

  // ---------------------------------------------------------------- what the rules say

  type CidrParser = string -> Option<Cidr>

  /** The protocol text: any other text means all. */
  predicate ProtocolAllows(protocol: string, proto: int) {
    if protocol == "tcp" then proto == TCP
    else if protocol == "udp" then proto == UDP
    else if protocol == "icmp" then proto == ICMP
    else true
  }

  predicate InNetwork(c: Cidr, dst: nat) {
    c.V4? && Cleared(c.ip, c.host) <= dst < Cleared(c.ip, c.host) + Pow2(c.host)
  }

  /** The error of a rule, if it has one. */
  datatype Error = BadNet(val: string) | BadPorts(e: PL.Error)

  function ErrorOf(cidr: CidrParser, r: Rule): Option<Error> {
    if cidr(r.val).None? then Some(BadNet(r.val))
    else match PL.Parse(r.port)
      case None => Some(BadPorts(PL.BadFormat))
      case Some(es) =>
        PL.ParsedSpells(r.port);
        match PL.FirstBad(es)
        case Some(text) => Some(BadPorts(PL.BadPort(text)))
        case None => None
  }

  ghost predicate PortAllows(port: string, p: nat) {
    PL.Parse(port).Some? && PL.ValidItems(PL.Parse(port).value) && PL.Denotes(PL.Parse(port).value, p)
  }

  /** A rule as its author wrote it applies to a packet: protocol, network and port list; ICMP has no ports, and the
      listed port 0 means every port. */
  ghost predicate Applies(cidr: CidrParser, r: Rule, p: Packet) {
    && ProtocolAllows(r.protocol, p.proto)
    && cidr(r.val).Some? && InNetwork(cidr(r.val).value, p.dst)
    && (p.proto == ICMP || PortAllows(r.port, p.port) || PortAllows(r.port, 0))
  }

  ghost predicate FirstToApply(cidr: CidrParser, rules: seq<Rule>, p: Packet, i: nat) {
    i < |rules| && Applies(cidr, rules[i], p) && forall j :: 0 <= j < i ==> !Applies(cidr, rules[j], p)
  }

  predicate Filtered(p: Packet) { p.ltype == LTYPE_IP_DATA && p.ptype == 0 }

  predicate IsDns(dns: seq<string>, text: nat -> string, p: Packet) { text(p.dst) in dns && p.port == DNS_PORT }

  /** The policy: without rules everything passes, queries to the group's name servers pass, and otherwise the first
      rule that applies decides; a packet to which none applies is dropped. */
  ghost predicate Permits(cidr: CidrParser, rules: seq<Rule>, dns: seq<string>, text: nat -> string, p: Packet) {
    || !Filtered(p)
    || Active(rules) == []
    || IsDns(dns, text, p)
    || exists i: nat :: FirstToApply(cidr, Active(rules), p, i) && Active(rules)[i].action == ALLOW
  }

  // ---------------------------------------------------------------- what the matcher does

  predicate Hit(r: Rule, p: Packet)
    requires r.ipNet.Some?
  {
    && (r.protocol == "" || r.protocol == ALL || r.ipProto == p.proto)
    && Contains(r.ipNet.value, p.dst)
    && (p.proto == ICMP || PL.Contains(r.ports, p.port) || PL.Contains(r.ports, 0))
  }

  predicate HaveNets(acl: seq<Rule>) {
    forall i :: 0 <= i < |acl| ==> acl[i].ipNet.Some?
  }

  predicate FirstHit(acl: seq<Rule>, p: Packet, i: nat)
    requires HaveNets(acl)
  {
    i < |acl| && Hit(acl[i], p) && forall j :: 0 <= j < i ==> !Hit(acl[j], p)
  }

  ghost predicate Passes(acl: seq<Rule>, dns: seq<string>, text: nat -> string, p: Packet)
    requires HaveNets(acl)
  {
    || !Filtered(p)
    || acl == []
    || IsDns(dns, text, p)
    || exists i: nat :: FirstHit(acl, p, i) && acl[i].action == ALLOW
  }

  lemma FirstHitDecides(acl: seq<Rule>, dns: seq<string>, text: nat -> string, p: Packet, k: nat)
    requires HaveNets(acl) && FirstHit(acl, p, k) && Filtered(p) && !IsDns(dns, text, p)
    ensures Passes(acl, dns, text, p) <==> acl[k].action == ALLOW
  {
  }

  /** One rule and what SetGroup makes of it. */
  ghost predicate IsCompiled(cidr: CidrParser, r: Rule, c: Rule) {
    && ErrorOf(cidr, r).None? && PL.ValidItems(PL.Parse(r.port).value)
    && c.action == r.action && c.val == r.val && c.port == r.port
    && c.ipNet == Some(NetOf(cidr(r.val).value))
    && PL.Holds(c.ports, PL.Parse(r.port).value)
    && (if r.protocol == "tcp" then c.protocol == r.protocol && c.ipProto == TCP
        else if r.protocol == "udp" then c.protocol == r.protocol && c.ipProto == UDP
        else if r.protocol == "icmp" then c.protocol == r.protocol && c.ipProto == ICMP
        else c.protocol == ALL)
  }

  ghost predicate AreCompiled(cidr: CidrParser, rules: seq<Rule>, acl: seq<Rule>) {
    |acl| == |rules| && forall i :: 0 <= i < |acl| ==> IsCompiled(cidr, rules[i], acl[i])
  }

  /** The first rule with an error. */
  ghost predicate FirstError(cidr: CidrParser, rules: seq<Rule>, i: nat, e: Error) {
    i < |rules| && ErrorOf(cidr, rules[i]) == Some(e) && forall j :: 0 <= j < i ==> ErrorOf(cidr, rules[j]).None?
  }

  class Group {
    var linkAcl: seq<Rule>
    var clientDns: seq<string>

    constructor (rules: seq<Rule>, dns: seq<string>)
      ensures linkAcl == rules && clientDns == dns
    {
      linkAcl, clientDns := rules, dns;
    }

    /** The access rules in SetGroup: all of them are compiled, or the first error leaves them as they were. */
    method SetLinkAcl(cidr: CidrParser) returns (err: Option<Error>)
      modifies this`linkAcl
      ensures err.None? ==> AreCompiled(cidr, Active(old(linkAcl)), linkAcl)
      ensures err.Some? ==> linkAcl == old(linkAcl) && exists i :: FirstError(cidr, Active(linkAcl), i, err.value)
    {
      var rules: seq<Rule> := [];
      for k := 0 to |linkAcl|
        invariant linkAcl == old(linkAcl)
        invariant AreCompiled(cidr, Active(linkAcl[..k]), rules)
      {
        var v := linkAcl[k];
        ghost var done := Active(linkAcl[..k]);
        ActiveOfMore(linkAcl, k);
        if v.val != "" {
          var ipNet := cidr(v.val);
          if ipNet.None? {
            FirstErrorIs(cidr, linkAcl, k, BadNet(v.val));
            return Some(BadNet(v.val));
          }
          v := v.(ipNet := Some(NetOf(ipNet.value)));
          if v.protocol == "tcp" {
            v := v.(ipProto := TCP);
          } else if v.protocol == "udp" {
            v := v.(ipProto := UDP);
          } else if v.protocol == "icmp" {
            v := v.(ipProto := ICMP);
          } else {
            v := v.(protocol := ALL);
          }
          var ports := PL.SetPorts(v.port);
          if ports.Err? {
            FirstErrorIs(cidr, linkAcl, k, BadPorts(ports.error));
            return Some(BadPorts(ports.error));
          }
          v := v.(ports := ports.value);
          assert IsCompiled(cidr, linkAcl[k], v);
          rules := rules + [v];
        }
      }
      assert linkAcl[..|linkAcl|] == linkAcl;
      linkAcl := rules;
      return None;
    }

    /** checkLinkAcl. `text` prints an address. */
    method CheckLinkAcl(text: nat -> string, p: Packet) returns (pass: bool)
      requires HaveNets(linkAcl)
      ensures pass <==> Passes(linkAcl, clientDns, text, p)
    {
      if p.ltype == LTYPE_IP_DATA && p.ptype == 0x00 && |linkAcl| > 0 {
      } else {
        return true;
      }
      for k := 0 to |clientDns|
        invariant p.port == DNS_PORT ==> text(p.dst) !in clientDns[..k]
      {
        if clientDns[k] == text(p.dst) && p.port == DNS_PORT {
          return true;
        }
      }
      assert clientDns[..|clientDns|] == clientDns;
      for k := 0 to |linkAcl|
        invariant forall j :: 0 <= j < k ==> !Hit(linkAcl[j], p)
      {
        var v := linkAcl[k];
        if v.protocol == "" || v.protocol == ALL || v.ipProto == p.proto {
          if Contains(v.ipNet.value, p.dst) {
            if p.proto == ICMP {
              FirstHitDecides(linkAcl, clientDns, text, p, k);
              return v.action == ALLOW;
            }
            if PL.Contains(v.ports, p.port) || PL.Contains(v.ports, 0) {
              FirstHitDecides(linkAcl, clientDns, text, p, k);
              return v.action == ALLOW;
            }
          }
        }
      }
      return false;
    }
  }

  lemma {:induction false} ActiveOfMore(rules: seq<Rule>, k: nat)
    requires k < |rules|
    ensures Active(rules[..k + 1]) == Active(rules[..k]) + if rules[k].val != "" then [rules[k]] else []
    decreases k
  {
    if k > 0 {
      ActiveOfMore(rules[1..], k - 1);
      assert rules[..k + 1][1..] == rules[1..][..k] && rules[..k][1..] == rules[1..][..k - 1];
    }
  }

  lemma {:induction false} ActivePrefix(rules: seq<Rule>, k: nat)
    requires k <= |rules|
    ensures Active(rules[..k]) <= Active(rules)
    decreases |rules| - k
  {
    if k < |rules| {
      ActiveOfMore(rules, k);
      ActivePrefix(rules, k + 1);
    } else {
      assert rules[..k] == rules;
    }
  }

  lemma FirstErrorIs(cidr: CidrParser, rules: seq<Rule>, k: nat, e: Error)
    requires k < |rules| && rules[k].val != "" && ErrorOf(cidr, rules[k]) == Some(e)
    requires forall j :: 0 <= j < |Active(rules[..k])| ==> ErrorOf(cidr, Active(rules[..k])[j]).None?
    ensures exists i :: FirstError(cidr, Active(rules), i, e)
  {
    ActiveOfMore(rules, k);
    ActivePrefix(rules, k + 1);
    assert FirstError(cidr, Active(rules), |Active(rules[..k])|, e);
  }

  // ---------------------------------------------------------------- compilation preserves meaning

  lemma CompiledRuleHits(cidr: CidrParser, r: Rule, c: Rule, p: Packet)
    requires IsCompiled(cidr, r, c)
    ensures Hit(c, p) <==> Applies(cidr, r, p)
  {
    var net := cidr(r.val).value;
    if net.V4? {
      ContainsInterval(net, p.dst);
    }
  }

  /** For every packet, the matcher on the compiled rules decides what the rules as written say. */
  lemma CompilationPreservesMeaning(cidr: CidrParser, rules: seq<Rule>, acl: seq<Rule>, dns: seq<string>,
                                    text: nat -> string, p: Packet)
    requires AreCompiled(cidr, Active(rules), acl)
    ensures HaveNets(acl)
    ensures Passes(acl, dns, text, p) <==> Permits(cidr, rules, dns, text, p)
  {
    forall i | 0 <= i < |acl| ensures Hit(acl[i], p) <==> Applies(cidr, Active(rules)[i], p) {
      CompiledRuleHits(cidr, Active(rules)[i], acl[i], p);
    }
    forall i: nat ensures FirstHit(acl, p, i) <==> FirstToApply(cidr, Active(rules), p, i) {
      if FirstHit(acl, p, i) {
        assert FirstToApply(cidr, Active(rules), p, i);
      }
    }
  }

  // ---------------------------------------------------------------- the decisions, with their numbers

  /** Which packets no rule is asked about: all but IPv4 data, all when the group has no rules, and, whatever the rules
      say, those to port 53 of one of the group's name servers. */
  lemma ExemptExactlyWhen(cidr: CidrParser, rules: seq<Rule>, dns: seq<string>, text: nat -> string, p: Packet)
    ensures var exempt := p.ltype != 2 || p.ptype != 0 || (forall r :: r in rules ==> r.val == "")
                          || (p.port == 53 && text(p.dst) in dns);
      && (exempt ==> Permits(cidr, rules, dns, text, p))
      && (!exempt ==>
            (Permits(cidr, rules, dns, text, p) <==>
             exists i: nat :: FirstToApply(cidr, Active(rules), p, i) && Active(rules)[i].action == "allow"))
  {
    NoneActive(rules);
  }

  lemma {:induction false} NoneActive(rules: seq<Rule>)
    ensures Active(rules) == [] <==> forall r :: r in rules ==> r.val == ""
    decreases |rules|
  {
    if rules != [] {
      NoneActive(rules[1..]);
      assert forall r :: r in rules <==> r == rules[0] || r in rules[1..];
    }
  }

  /** The error of a rule: its network comes first, then the format of its port list, then the first number that is no
      port. */
  lemma ErrorIs(cidr: CidrParser, r: Rule, e: Error)
    ensures ErrorOf(cidr, r) == Some(e) <==>
      match e
      case BadNet(val) => val == r.val && cidr(r.val).None?
      case BadPorts(bad) =>
        && cidr(r.val).Some?
        && match bad
           case BadFormat => forall es :: !PL.Spells(r.port, es)
           case BadPort(text) => exists es, i :: PL.Spells(r.port, es) && PL.IsFirstBad(es, i, text)
  {
    if PL.Parse(r.port).Some? {
      PL.ParsedSpells(r.port);
      if e.BadPorts? && e.e.BadPort? {
        PL.FirstBadIsFirst(PL.Parse(r.port).value, e.e.text);
      }
    }
    forall es ensures PL.Spells(r.port, es) <==> PL.Parse(r.port) == Some(es) {
      PL.ParseExactlyWhenSpelled(r.port, es);
    }
  }

  /** The matcher exempts the same packets. */
  lemma MatcherExempts(acl: seq<Rule>, dns: seq<string>, text: nat -> string, p: Packet)
    requires HaveNets(acl)
    ensures var exempt := p.ltype != 2 || p.ptype != 0 || acl == [] || (p.port == 53 && text(p.dst) in dns);
            Passes(acl, dns, text, p) <==>
              exempt || exists i: nat :: FirstHit(acl, p, i) && acl[i].action == "allow"
  {}

  /** To which packets a rule applies, by its protocol text: 6 is TCP, 17 UDP and 1 ICMP, which has no ports. */
  lemma AppliesExactlyWhen(cidr: CidrParser, r: Rule, p: Packet)
    ensures Applies(cidr, r, p) <==>
      && (r.protocol == "tcp" ==> p.proto == 6)
      && (r.protocol == "udp" ==> p.proto == 17)
      && (r.protocol == "icmp" ==> p.proto == 1)
      && cidr(r.val).Some? && cidr(r.val).value.V4?
      && (var net := cidr(r.val).value;
          Cleared(net.ip, net.host) <= p.dst < Cleared(net.ip, net.host) + Pow2(net.host))
      && (p.proto == 1 || PortAllows(r.port, p.port) || PortAllows(r.port, 0))
  {}
}
