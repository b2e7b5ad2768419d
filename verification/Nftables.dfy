/** The packet-filter rules generated for the FakeIP subnets, run by an interpreter of their expressions. */
module Nftables {
  import opened Basics
  import opened Net
  import opened Shards
  import opened Masks
  import opened FakeIPPool

  // ----- the expression machine -----

  datatype Expr =
    | Payload(dest: nat, offset: nat, len: nat)
    | Bitwise(source: nat, dest: nat, mask: seq<byte>, xor: seq<byte>)
    | Cmp(reg: nat, data: seq<byte>)
    | Immediate(reg: nat, data: seq<byte>)
    | SetMark(reg: nat)
    | TProxy(family: nat, regAddr: nat, regPort: nat)
    | Accept

  /** Where the transparent proxy expression redirects a packet. */
  datatype Target = Target(family: nat, address: seq<byte>, port: nat)

  /** Registers of 16 bytes, of which the rules use numbers 1 and 2; the packet's mark and redirection. */
  datatype Machine = Machine(regs: seq<seq<byte>>, mark: nat, target: Option<Target>) {
    predicate Valid() {
      |regs| == 5 && forall r :: 0 <= r < 5 ==> |regs[r]| == 16
    }

    /** The first len bytes of a register. */
    function Read(r: nat, len: nat): seq<byte> {
      if r < |regs| && len <= |regs[r]| then regs[r][..len] else []
    }

    /** The first bytes of a register replaced. */
    function Write(r: nat, data: seq<byte>): Machine {
      if r < |regs| && |data| <= |regs[r]| then this.(regs := regs[r := data + regs[r][|data|..]]) else this
    }
  }

  /** A rule that breaks leaves its chain to the next rule. */
  datatype Outcome = Next(m: Machine) | Broke(m: Machine) | Accepted(m: Machine)

  const Ipv4Family: nat := 2
  const Ipv6Family: nat := 10

  /** A number stored in the byte order of the machine. */
  function Native(s: seq<byte>, bigEndian: bool): seq<byte> {
    if bigEndian then s else Reverse(s)
  }

  function Reverse(s: seq<byte>): (r: seq<byte>)
    ensures |r| == |s|
  {
    seq(|s|, i requires 0 <= i < |s| => s[|s| - 1 - i])
  }

  function Xored(a: seq<byte>, b: seq<byte>): seq<byte>
    requires |a| == |b|
  {
    seq(|a|, i requires 0 <= i < |a| => XorByte(a[i], b[i]))
  }

  function Step(e: Expr, packet: seq<byte>, m: Machine, bigEndian: bool): Outcome {
    match e
    case Payload(dest, offset, len) =>
      if offset + len <= |packet| then Next(m.Write(dest, packet[offset..offset + len])) else Broke(m)
    case Bitwise(source, dest, mask, xor) =>
      var d := m.Read(source, |mask|);
      if |d| == |mask| == |xor| then Next(m.Write(dest, Xored(Masked(d, mask), xor))) else Broke(m)
    case Cmp(reg, data) => if m.Read(reg, |data|) == data then Next(m) else Broke(m)
    case Immediate(reg, data) => Next(m.Write(reg, data))
    case SetMark(reg) => Next(m.(mark := Num(Native(m.Read(reg, 4), bigEndian))))
    case TProxy(family, regAddr, regPort) =>
      var len := if family == Ipv4Family then 4 else 16;
      Next(m.(target := Some(Target(family, m.Read(regAddr, len), Num(m.Read(regPort, 2))))))
    case Accept => Accepted(m)
  }

  function Exec(rule: seq<Expr>, packet: seq<byte>, m: Machine, bigEndian: bool): Outcome {
    if rule == [] then Next(m)
    else
      var o := Step(rule[0], packet, m, bigEndian);
      if o.Next? then Exec(rule[1..], packet, o.m, bigEndian) else o
  }

  /** A chain runs its rules until one accepts. */
  function RunChain(rules: seq<seq<Expr>>, packet: seq<byte>, m: Machine, bigEndian: bool): Outcome {
    if rules == [] then Next(m)
    else
      var o := Exec(rules[0], packet, m, bigEndian);
      if o.Accepted? then o else RunChain(rules[1..], packet, o.m, bigEndian)
  }

  // ----- the generated rules -----

  /** What the rules are generated from, besides the subnets. */
  datatype Settings = Settings(fwmark: int, port: int, bigEndian: bool) {
    function Mark(): nat {
      fwmark % 0x1_0000_0000
    }

    function Port(): nat {
      port % 0x1_0000
    }
  }

  function EncodeUint32(v: nat, bigEndian: bool): (s: seq<byte>)
    ensures |s| == 4
  {
    if bigEndian then Bytes(v, 4) else Reverse(Bytes(v, 4))
  }

  function EncodeUint16(v: nat): (s: seq<byte>)
    ensures |s| == 2
  {
    Bytes(v, 2)
  }

  /** Bytes of an address of the family. */
  function Len(a: Addr): nat {
    if a.V4? then 4 else 16
  }

  /** Where the destination address starts: section 3.1 of RFC 791, section 3 of RFC 8200. */
  function Offset(a: Addr): nat {
    if a.V4? then 16 else 24
  }

  function HeaderLen(a: Addr): nat {
    if a.V4? then 20 else 40
  }

  function Family(a: Addr): nat {
    if a.V4? then Ipv4Family else Ipv6Family
  }

  function Loopback(a: Addr): (s: seq<byte>)
    ensures |s| == Len(a)
  {
    if a.V4? then [127, 0, 0, 1] else seq(15, _ => 0) + [1]
  }

  function MatchDestination(p: Prefix): seq<Expr>
    requires p.Valid()
  {
    var len := Len(p.addr);
    [ Payload(1, Offset(p.addr), len),
      Bitwise(1, 1, CidrMask(p.bits, len), seq(len, _ => 0)),
      Cmp(1, Bytes(p.addr.n, len)) ]
  }

  function MarkPacket(c: Settings): seq<Expr> {
    [Immediate(1, EncodeUint32(c.Mark(), c.bigEndian)), SetMark(1)]
  }

  function Redirect(p: Prefix, c: Settings): seq<Expr> {
    [Immediate(1, Loopback(p.addr)), Immediate(2, EncodeUint16(c.Port())), TProxy(Family(p.addr), 1, 2)]
  }

  function OutputRule(p: Prefix, c: Settings): seq<Expr>
    requires p.Valid()
  {
    MatchDestination(p) + (MarkPacket(c) + [Accept])
  }

  function PreroutingRule(p: Prefix, c: Settings): seq<Expr>
    requires p.Valid()
  {
    MatchDestination(p) + (MarkPacket(c) + (Redirect(p, c) + [Accept]))
  }

  predicate AllValid(prefixes: seq<Prefix>) {
    forall i :: 0 <= i < |prefixes| ==> prefixes[i].Valid()
  }

  function OutputRules(prefixes: seq<Prefix>, c: Settings): (rules: seq<seq<Expr>>)
    requires AllValid(prefixes)
    ensures |rules| == |prefixes|
  {
    if prefixes == [] then [] else [OutputRule(prefixes[0], c)] + OutputRules(prefixes[1..], c)
  }

  function PreroutingRules(prefixes: seq<Prefix>, c: Settings): (rules: seq<seq<Expr>>)
    requires AllValid(prefixes)
    ensures |rules| == |prefixes|
  {
    if prefixes == [] then [] else [PreroutingRule(prefixes[0], c)] + PreroutingRules(prefixes[1..], c)
  }

  // ----- one rule -----

  /** The packet reaches the end of the field the rule loads, the prefix has no host bits, and the field
      holds an address of the prefix. */
  predicate Fires(p: Prefix, packet: seq<byte>)
    requires p.Valid()
  {
    var from, len := Offset(p.addr), Len(p.addr);
    && from + len <= |packet|
    && p.ZeroHostBits()
    && p.Contains(p.addr.With(Num(packet[from..from + len])))
  }

  /** A packet to address a: a full header of its family, with a as the destination. */
  predicate SentTo(packet: seq<byte>, a: Addr) {
    && a.Valid()
    && HeaderLen(a) <= |packet|
    && packet[Offset(a)..Offset(a) + Len(a)] == Bytes(a.n, Len(a))
  }

  lemma AddressBytes(a: Addr)
    requires a.Valid()
    ensures a.Width() == 8 * Len(a)
    ensures Num(Bytes(a.n, Len(a))) == a.n
  {
    LimitIsPow2(a);
    NumBytes(a.n, Len(a));
  }

  /** On a packet of the rule's own family: it fires exactly when the prefix has zero host bits and contains
      the destination. */
  lemma FiresIffContains(p: Prefix, packet: seq<byte>, a: Addr)
    requires p.Valid() && SentTo(packet, a) && SameFamily(p.addr, a)
    ensures Fires(p, packet) <==> p.ZeroHostBits() && p.Contains(a)
  {
    AddressBytes(a);
    assert p.addr.With(a.n) == a;
  }

  lemma {:induction false} ExecConcat(a: seq<Expr>, b: seq<Expr>, packet: seq<byte>, m: Machine, big: bool)
    ensures Exec(a + b, packet, m, big)
      == (var o := Exec(a, packet, m, big); if o.Next? then Exec(b, packet, o.m, big) else o)
  {
    if a == [] {
      assert a + b == b;
    } else {
      var o := Step(a[0], packet, m, big);
      assert (a + b)[1..] == a[1..] + b;
      if o.Next? {
        ExecConcat(a[1..], b, packet, o.m, big);
      }
    }
  }

  lemma ReadWrite(m: Machine, r: nat, data: seq<byte>)
    requires m.Valid() && r < 5 && |data| <= 16
    ensures m.Write(r, data).Valid() && m.Write(r, data).Read(r, |data|) == data
  {
  }

  lemma XorZero(s: seq<byte>)
    ensures Xored(s, seq(|s|, _ => 0)) == s
  {
    forall i | 0 <= i < |s| ensures XorByte(s[i], 0) == s[i] {
      assert Pow2(8) == 256;
      XorZeroBits(s[i], 8);
    }
  }

  lemma {:induction false} XorZeroBits(x: nat, n: nat)
    requires x < Pow2(n)
    ensures Xor(x, 0, n) == x
  {
    if n > 0 {
      XorZeroBits(x / 2, n - 1);
    }
  }

  /** The masked field equals the address of the prefix exactly when the prefix, free of host bits, contains it. */
  lemma CompareIsContains(p: Prefix, field: seq<byte>)
    requires p.Valid() && |field| == Len(p.addr)
    ensures Masked(field, CidrMask(p.bits, Len(p.addr))) == Bytes(p.addr.n, Len(p.addr))
       <==> p.ZeroHostBits() && p.Contains(p.addr.With(Num(field)))
  {
    var len := Len(p.addr);
    var masked := Masked(field, CidrMask(p.bits, len));
    AddressBytes(p.addr);
    MaskedNum(field, p.bits, p.addr.Width() - p.bits);
    if Num(masked) == p.addr.n {
      NumInjective(masked, Bytes(p.addr.n, len));
      DownIdempotent(Num(field), p.Block());
    }
  }

  /** Two outcomes leave the packet's mark and redirection alike. */
  predicate Untouched(a: Machine, b: Machine) {
    a.mark == b.mark && a.target == b.target
  }

  lemma {:induction false} DestinationMatched(p: Prefix, packet: seq<byte>, m: Machine, big: bool)
    requires p.Valid() && m.Valid()
    ensures var o := Exec(MatchDestination(p), packet, m, big);
      (if Fires(p, packet) then o.Next? else o.Broke?) && o.m.Valid() && Untouched(o.m, m)
  {
    var from, len := Offset(p.addr), Len(p.addr);
    var rule := MatchDestination(p);
    if from + len <= |packet| {
      var field := packet[from..from + len];
      var mask := CidrMask(p.bits, len);
      var loaded := m.Write(1, field);
      ReadWrite(m, 1, field);
      var masked := Masked(field, mask);
      XorZero(masked);
      ReadWrite(loaded, 1, masked);
      CompareIsContains(p, field);
      var ready := loaded.Write(1, masked);
      assert Step(rule[0], packet, m, big) == Next(loaded);
      assert Step(rule[1], packet, loaded, big) == Next(ready);
      ThreeSteps(rule, packet, m, loaded, ready, big);
    }
  }

  lemma ThreeSteps(rule: seq<Expr>, packet: seq<byte>, m: Machine, m1: Machine, m2: Machine, big: bool)
    requires |rule| == 3
    requires Step(rule[0], packet, m, big) == Next(m1) && Step(rule[1], packet, m1, big) == Next(m2)
    ensures Exec(rule, packet, m, big) == Step(rule[2], packet, m2, big)
  {
    assert rule[1..][1..] == rule[2..] && rule[2..][1..] == [];
    assert Exec(rule[1..], packet, m1, big) == Exec(rule[2..], packet, m2, big);
    var last := Step(rule[2], packet, m2, big);
    assert Exec([], packet, last.m, big) == Next(last.m);
  }

  lemma ReverseReverse(s: seq<byte>)
    ensures Reverse(Reverse(s)) == s
  {
  }

  /** Whatever the byte order of the machine, the mark is the configured one. */
  lemma PacketMarked(c: Settings, packet: seq<byte>, m: Machine)
    requires m.Valid()
    ensures var o := Exec(MarkPacket(c), packet, m, c.bigEndian);
      o.Next? && o.m.Valid() && o.m.mark == c.Mark() && o.m.target == m.target
  {
    var rule := MarkPacket(c);
    var data := EncodeUint32(c.Mark(), c.bigEndian);
    var stored := m.Write(1, data);
    ReadWrite(m, 1, data);
    ReverseReverse(Bytes(c.Mark(), 4));
    Pow2Is32();
    NumBytes(c.Mark(), 4);
    assert Exec(rule[1..][1..], packet, stored, c.bigEndian) == Next(stored);
    assert Step(rule[0], packet, m, c.bigEndian) == Next(stored);
    var marked := stored.(mark := c.Mark());
    assert Step(rule[1..][0], packet, stored, c.bigEndian) == Next(marked);
    assert Exec(rule[1..][1..], packet, marked, c.bigEndian) == Next(marked);
  }

  lemma Pow2Is32()
    ensures Pow2(8 * 4) == 0x1_0000_0000 && Pow2(8 * 2) == 0x1_0000
  {
    assert Pow2(8) == 0x100;
    Pow2Double(8, 0x100);
    Pow2Double(16, 0x1_0000);
  }

  /** Where the rule for a subnet redirects packets. */
  function TargetOf(p: Prefix, c: Settings): Target {
    Target(Family(p.addr), Loopback(p.addr), c.Port())
  }

  /** At the redirection, register 1 holds the loopback address and register 2 the big-endian port. */
  predicate RegistersReady(p: Prefix, c: Settings, m: Machine) {
    && m.Valid()
    && m.Read(1, Len(p.addr)) == Loopback(p.addr)
    && m.Read(2, 2) == Bytes(c.Port(), 2)
  }

  lemma PacketRedirected(p: Prefix, c: Settings, packet: seq<byte>, m: Machine)
    requires p.Valid() && m.Valid()
    ensures var o := Exec(Redirect(p, c), packet, m, c.bigEndian);
      o.Next? && RegistersReady(p, c, o.m) && o.m.mark == m.mark && o.m.target == Some(TargetOf(p, c))
  {
    var rule, port := Redirect(p, c), EncodeUint16(c.Port());
    var m1 := m.Write(1, Loopback(p.addr));
    ReadWrite(m, 1, Loopback(p.addr));
    var m2 := m1.Write(2, port);
    ReadWrite(m1, 2, port);
    Pow2Is32();
    NumBytes(c.Port(), 2);
    assert m2.Read(1, Len(p.addr)) == Loopback(p.addr);
    ThreeSteps(rule, packet, m, m1, m2, c.bigEndian);
  }

  lemma MatchThen(p: Prefix, rest: seq<Expr>, packet: seq<byte>, m: Machine, big: bool) returns (m1: Machine)
    requires p.Valid() && m.Valid()
    ensures m1.Valid() && Untouched(m1, m)
    ensures Exec(MatchDestination(p) + rest, packet, m, big)
      == if Fires(p, packet) then Exec(rest, packet, m1, big) else Broke(m1)
  {
    DestinationMatched(p, packet, m, big);
    ExecConcat(MatchDestination(p), rest, packet, m, big);
    m1 := Exec(MatchDestination(p), packet, m, big).m;
  }

  lemma MarkThen(c: Settings, rest: seq<Expr>, packet: seq<byte>, m: Machine) returns (m1: Machine)
    requires m.Valid()
    ensures m1.Valid() && m1.mark == c.Mark() && m1.target == m.target
    ensures Exec(MarkPacket(c) + rest, packet, m, c.bigEndian) == Exec(rest, packet, m1, c.bigEndian)
  {
    PacketMarked(c, packet, m);
    ExecConcat(MarkPacket(c), rest, packet, m, c.bigEndian);
    m1 := Exec(MarkPacket(c), packet, m, c.bigEndian).m;
  }

  lemma MarkAndAccept(c: Settings, packet: seq<byte>, m: Machine)
    requires m.Valid()
    ensures var o := Exec(MarkPacket(c) + [Accept], packet, m, c.bigEndian);
      o.Accepted? && o.m.Valid() && o.m.mark == c.Mark() && o.m.target == m.target
  {
    var m1 := MarkThen(c, [Accept], packet, m);
  }

  lemma RedirectThen(p: Prefix, c: Settings, packet: seq<byte>, m: Machine)
    requires p.Valid() && m.Valid()
    ensures var o := Exec(Redirect(p, c) + [Accept], packet, m, c.bigEndian);
      o.Accepted? && RegistersReady(p, c, o.m) && o.m.mark == m.mark && o.m.target == Some(TargetOf(p, c))
  {
    PacketRedirected(p, c, packet, m);
    ExecConcat(Redirect(p, c), [Accept], packet, m, c.bigEndian);
  }

  /** An output rule fires exactly on the packets its prefix asks for; it then leaves the configured mark, and
      otherwise leaves the packet alone. */
  lemma OutputRuleExact(p: Prefix, c: Settings, packet: seq<byte>, m: Machine)
    requires p.Valid() && m.Valid()
    ensures var o := Exec(OutputRule(p, c), packet, m, c.bigEndian);
      && o.m.Valid()
      && o.m.target == m.target
      && if Fires(p, packet) then o.Accepted? && o.m.mark == c.Mark() else o.Broke? && o.m.mark == m.mark
  {
    var m1 := MatchThen(p, MarkPacket(c) + [Accept], packet, m, c.bigEndian);
    if Fires(p, packet) {
      MarkAndAccept(c, packet, m1);
    }
  }

  /** The same for a prerouting rule, which also redirects to the loopback address and the configured port. */
  lemma PreroutingRuleExact(p: Prefix, c: Settings, packet: seq<byte>, m: Machine)
    requires p.Valid() && m.Valid()
    ensures var o := Exec(PreroutingRule(p, c), packet, m, c.bigEndian);
      && o.m.Valid()
      && if Fires(p, packet)
         then o.Accepted? && o.m.mark == c.Mark() && o.m.target == Some(TargetOf(p, c)) && RegistersReady(p, c, o.m)
         else o.Broke? && Untouched(o.m, m)
  {
    var m1 := MatchThen(p, MarkPacket(c) + (Redirect(p, c) + [Accept]), packet, m, c.bigEndian);
    if Fires(p, packet) {
      var m2 := MarkThen(c, Redirect(p, c) + [Accept], packet, m1);
      RedirectThen(p, c, packet, m2);
    }
  }

  // ----- the chains -----

  predicate SomeFires(prefixes: seq<Prefix>, packet: seq<byte>)
    requires AllValid(prefixes)
  {
    exists i :: 0 <= i < |prefixes| && Fires(prefixes[i], packet)
  }

  /** The output chain marks a packet exactly when some rule fires on it, whatever the order and the families
      of the rules. */
  lemma {:induction false} OutputChainExact(prefixes: seq<Prefix>, c: Settings, packet: seq<byte>, m: Machine)
    requires AllValid(prefixes) && m.Valid()
    ensures var o := RunChain(OutputRules(prefixes, c), packet, m, c.bigEndian);
      && o.m.target == m.target
      && if SomeFires(prefixes, packet) then o.Accepted? && o.m.mark == c.Mark() else o.Next? && o.m.mark == m.mark
  {
    if prefixes != [] {
      OutputRuleExact(prefixes[0], c, packet, m);
      var o := Exec(OutputRule(prefixes[0], c), packet, m, c.bigEndian);
      if !o.Accepted? {
        OutputChainExact(prefixes[1..], c, packet, o.m);
        SomeFiresTail(prefixes, packet);
      }
    }
  }

  lemma SomeFiresTail(prefixes: seq<Prefix>, packet: seq<byte>)
    requires AllValid(prefixes) && prefixes != [] && !Fires(prefixes[0], packet)
    ensures SomeFires(prefixes, packet) <==> SomeFires(prefixes[1..], packet)
  {
    if i :| 0 <= i < |prefixes| && Fires(prefixes[i], packet) {
      assert prefixes[1..][i - 1] == prefixes[i];
    }
  }

  /** Prefix i is the first whose rule fires. */
  predicate FirstFires(prefixes: seq<Prefix>, packet: seq<byte>, i: nat)
    requires AllValid(prefixes)
  {
    && i < |prefixes|
    && Fires(prefixes[i], packet)
    && forall j :: 0 <= j < i ==> !Fires(prefixes[j], packet)
  }

  /** The prerouting chain redirects a packet as the first rule that fires asks; with none, it leaves it alone. */
  lemma {:induction false} PreroutingChainExact(prefixes: seq<Prefix>, c: Settings, packet: seq<byte>, m: Machine)
    requires AllValid(prefixes) && m.Valid()
    ensures var o := RunChain(PreroutingRules(prefixes, c), packet, m, c.bigEndian);
      && (forall i: nat :: FirstFires(prefixes, packet, i) ==>
            o.Accepted? && o.m.mark == c.Mark() && o.m.target == Some(TargetOf(prefixes[i], c)))
      && (!SomeFires(prefixes, packet) ==> o.Next? && Untouched(o.m, m))
  {
    if prefixes != [] {
      PreroutingRuleExact(prefixes[0], c, packet, m);
      var o := Exec(PreroutingRule(prefixes[0], c), packet, m, c.bigEndian);
      if !o.Accepted? {
        PreroutingChainExact(prefixes[1..], c, packet, o.m);
        SomeFiresTail(prefixes, packet);
        forall i: nat | FirstFires(prefixes, packet, i) ensures i > 0 && FirstFires(prefixes[1..], packet, i - 1) {
        }
      }
    }
  }

  // ----- from the configuration to the chains -----

  /** What the parser makes of the configured subnets, in order, the unreadable ones left out. */
  function Parsed(cidrs: seq<string>, parse: string -> Option<Prefix>): seq<Prefix> {
    if cidrs == [] then []
    else
      var front := Parsed(cidrs[..|cidrs| - 1], parse);
      var last := parse(cidrs[|cidrs| - 1]);
      if last.None? then front else front + [last.value]
  }

  /** The parser yields valid prefixes only. */
  ghost predicate ParserOk(parse: string -> Option<Prefix>) {
    forall s :: parse(s).Some? ==> parse(s).value.Valid()
  }

  lemma {:induction false} ParsedValid(cidrs: seq<string>, parse: string -> Option<Prefix>)
    requires ParserOk(parse)
    ensures AllValid(Parsed(cidrs, parse))
  {
    if cidrs != [] {
      ParsedValid(cidrs[..|cidrs| - 1], parse);
    }
  }

  lemma {:induction false} OutputRulesAdd(prefixes: seq<Prefix>, p: Prefix, c: Settings)
    requires AllValid(prefixes) && p.Valid()
    ensures OutputRules(prefixes + [p], c) == OutputRules(prefixes, c) + [OutputRule(p, c)]
  {
    if prefixes != [] {
      assert (prefixes + [p])[1..] == prefixes[1..] + [p];
      OutputRulesAdd(prefixes[1..], p, c);
    }
  }

  lemma {:induction false} PreroutingRulesAdd(prefixes: seq<Prefix>, p: Prefix, c: Settings)
    requires AllValid(prefixes) && p.Valid()
    ensures PreroutingRules(prefixes + [p], c) == PreroutingRules(prefixes, c) + [PreroutingRule(p, c)]
  {
    if prefixes != [] {
      assert (prefixes + [p])[1..] == prefixes[1..] + [p];
      PreroutingRulesAdd(prefixes[1..], p, c);
    }
  }

  /** Builds both chains, one rule each per readable subnet. */
  method BuildChains(cidrs: seq<string>, parse: string -> Option<Prefix>, c: Settings)
    returns (prerouting: seq<seq<Expr>>, output: seq<seq<Expr>>)
    requires ParserOk(parse)
    ensures AllValid(Parsed(cidrs, parse))
    ensures prerouting == PreroutingRules(Parsed(cidrs, parse), c)
    ensures output == OutputRules(Parsed(cidrs, parse), c)
  {
    prerouting, output := [], [];
    ParsedValid(cidrs, parse);
    for k := 0 to |cidrs|
      invariant AllValid(Parsed(cidrs[..k], parse))
      invariant prerouting == PreroutingRules(Parsed(cidrs[..k], parse), c)
      invariant output == OutputRules(Parsed(cidrs[..k], parse), c)
    {
      assert cidrs[..k + 1][..k] == cidrs[..k];
      ghost var before := Parsed(cidrs[..k], parse);
      var parsed := parse(cidrs[k]);
      if parsed.None? {
        continue;
      }
      prerouting := prerouting + [PreroutingRule(parsed.value, c)];
      output := output + [OutputRule(parsed.value, c)];
      PreroutingRulesAdd(before, parsed.value, c);
      OutputRulesAdd(before, parsed.value, c);
    }
    assert cidrs[..|cidrs|] == cidrs;
  }

  /** The subnets of a family, in order. */
  function OfFamily(prefixes: seq<Prefix>, v4: bool): seq<Prefix> {
    if prefixes == [] then []
    else
      var front, last := OfFamily(prefixes[..|prefixes| - 1], v4), prefixes[|prefixes| - 1];
      if last.addr.V4? == v4 then front + [last] else front
  }

  lemma {:induction false} OfFamilyMembers(prefixes: seq<Prefix>, v4: bool, p: Prefix)
    requires p in OfFamily(prefixes, v4)
    ensures p in prefixes
  {
    if p !in OfFamily(prefixes[..|prefixes| - 1], v4) {
      assert p == prefixes[|prefixes| - 1];
    } else {
      OfFamilyMembers(prefixes[..|prefixes| - 1], v4, p);
    }
  }

  /** The subnets of the pool: an unreadable one, or none at all, is an error. */
  method ParseCidrs(cidrs: seq<string>, parse: string -> Option<Prefix>)
    returns (r: Option<(seq<Prefix>, seq<Prefix>)>)
    requires ParserOk(parse)
    ensures r.None? <==> cidrs == [] || exists k :: 0 <= k < |cidrs| && parse(cidrs[k]).None?
    ensures r.Some? ==>
      r.value == (OfFamily(Parsed(cidrs, parse), true), OfFamily(Parsed(cidrs, parse), false))
  {
    var v4: seq<Prefix>, v6: seq<Prefix> := [], [];
    for k := 0 to |cidrs|
      invariant forall j :: 0 <= j < k ==> parse(cidrs[j]).Some?
      invariant v4 == OfFamily(Parsed(cidrs[..k], parse), true)
      invariant v6 == OfFamily(Parsed(cidrs[..k], parse), false)
      invariant |v4| + |v6| == k
    {
      assert cidrs[..k + 1][..k] == cidrs[..k];
      var parsed := parse(cidrs[k]);
      if parsed.None? {
        return None;
      }
      ghost var before := Parsed(cidrs[..k], parse);
      assert (before + [parsed.value])[..|before|] == before;
      if parsed.value.addr.V4? {
        v4 := v4 + [parsed.value];
      } else {
        v6 := v6 + [parsed.value];
      }
    }
    assert cidrs[..|cidrs|] == cidrs;
    if |v4| == 0 && |v6| == 0 {
      return None;
    }
    return Some((v4, v6));
  }

  // ----- end to end -----

  ghost predicate NoHostBits(prefixes: seq<Prefix>)
    requires AllValid(prefixes)
  {
    forall i :: 0 <= i < |prefixes| ==> prefixes[i].ZeroHostBits()
  }

  /** With subnets free of host bits, a packet to any address of a subnet leaves with the configured mark. */
  lemma MemberIsMarked(prefixes: seq<Prefix>, family: bool, a: Addr, c: Settings, packet: seq<byte>, m: Machine)
    requires AllValid(prefixes) && NoHostBits(prefixes) && m.Valid()
    requires InSome(OfFamily(prefixes, family), a) && SentTo(packet, a)
    ensures var o := RunChain(OutputRules(prefixes, c), packet, m, c.bigEndian);
      o.Accepted? && o.m.mark == c.Mark()
  {
    var own := OfFamily(prefixes, family);
    var i :| 0 <= i < |own| && own[i].Valid() && own[i].Contains(a);
    OfFamilyMembers(prefixes, family, own[i]);
    var k :| 0 <= k < |prefixes| && prefixes[k] == own[i];
    FiresIffContains(prefixes[k], packet, a);
    OutputChainExact(prefixes, c, packet, m);
  }

  /** Every address the allocator hands out is marked on its way out, whatever the order and mix of rules. */
  lemma AllocatedIsMarked(prefixes: seq<Prefix>, family: bool, cursors: seq<Addr>, taken: set<Addr>,
                          picked: seq<Addr>, i: nat, c: Settings, packet: seq<byte>, m: Machine)
    requires AllValid(prefixes) && NoHostBits(prefixes) && m.Valid()
    requires CursorsOk(OfFamily(prefixes, family), cursors)
    requires AllFirstFree(OfFamily(prefixes, family), cursors, taken, picked)
    requires i < |picked| && SentTo(packet, picked[i])
    ensures var o := RunChain(OutputRules(prefixes, c), packet, m, c.bigEndian);
      o.Accepted? && o.m.mark == c.Mark()
  {
    PickedAreNew(OfFamily(prefixes, family), cursors, taken, picked);
    assert picked[i] in picked;
    MemberIsMarked(prefixes, family, picked[i], c, packet, m);
  }

  /** The same for whatever addresses the pool has records for: handed out, renewed or loaded. */
  lemma PoolIsMarked(pool: Pool, prefixes: seq<Prefix>, a: Addr, c: Settings, packet: seq<byte>, m: Machine)
    requires AllValid(prefixes) && NoHostBits(prefixes) && m.Valid()
    requires pool.v4Prefixes == OfFamily(prefixes, true) && pool.v6Prefixes == OfFamily(prefixes, false)
    requires pool.Valid() && a in pool.ips && SentTo(packet, a)
    ensures var o := RunChain(OutputRules(prefixes, c), packet, m, c.bigEndian);
      o.Accepted? && o.m.mark == c.Mark()
  {
    var all, v4 := pool.Prefixes(), pool.v4Prefixes;
    assert Placed(all, a);
    var i :| 0 <= i < |all| && all[i].Valid() && all[i].Contains(a);
    if i < |v4| {
      assert v4[i].Contains(a);
      MemberIsMarked(prefixes, true, a, c, packet, m);
    } else {
      assert pool.v6Prefixes[i - |v4|].Contains(a);
      MemberIsMarked(prefixes, false, a, c, packet, m);
    }
  }
}
