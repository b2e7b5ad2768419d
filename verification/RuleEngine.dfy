/** The routing rules: the configuration list, its compiled form, and a direct interpreter of the list. */
module RuleEngine {
  import opened Basics
  import opened Net
  import opened Names
  import opened Router
  import opened SuffixRules

  datatype RuleConfig =
    RuleConfig(kind: string, payload: string, proxy: string, domains: seq<string>, rewrite: Rewrites)

  type CidrPrefix = p: Prefix | p.Valid() witness Prefix(V4(0), 0)

  /** Parsing of a CIDR is a library function. */
  type Parser = string -> Option<CidrPrefix>

  /** Where a request goes, and the header rewrites of the rule that says so. */
  datatype Route = Route(proxy: string, rewrite: Rewrites)

  function Kind(c: RuleConfig): string {
    ToUpper(TrimSpace(c.kind))
  }

  predicate IsSuffixKind(c: RuleConfig) {
    Kind(c) == "DOMAIN-SUFFIX" || Kind(c) == "DOMAIN_SUFFIX" || Kind(c) == ""
  }

  // ----- the direct interpreter -----

  /** The suffix rule a domain text stands for, if any. */
  function SuffixFor(domain: string, c: RuleConfig): seq<Rule> {
    var d := TrimDot(TrimSpace(domain));
    if d == "" then [] else [Rule(d, c.proxy, c.rewrite)]
  }

  function SuffixForAll(domains: seq<string>, c: RuleConfig): seq<Rule> {
    if domains == [] then []
    else SuffixForAll(domains[..|domains| - 1], c) + SuffixFor(domains[|domains| - 1], c)
  }

  /** The suffix rules of one configuration entry. */
  function SuffixesOf(c: RuleConfig): seq<Rule> {
    if Kind(c) == "" && c.domains != [] then SuffixForAll(c.domains, c)
    else if IsSuffixKind(c) then SuffixFor(c.payload, c)
    else []
  }

  /** The suffix rules of the list, in order. */
  function Suffixes(cs: seq<RuleConfig>): seq<Rule> {
    if cs == [] then [] else Suffixes(cs[..|cs| - 1]) + SuffixesOf(cs[|cs| - 1])
  }

  predicate IsPrivate(ip: Addr) {
    match ip.Unmap()
    case V4(n) => n / 0x100_0000 == 10 || n / 0x10_0000 == 0xac1 || n / 0x1_0000 == 0xc0a8
    case V6(n) => n / 0x200_0000_0000_0000_0000_0000_0000_0000 == 0x7e
    case Invalid => false
  }

  predicate IsLoopback(ip: Addr) {
    match ip.Unmap()
    case V4(n) => n / 0x100_0000 == 127
    case V6(n) => n == 1
    case Invalid => false
  }

  /** A configuration entry that is no suffix rule applies to a request. */
  predicate Hits(c: RuleConfig, parse: Parser, domain: string, ip: Addr) {
    var kind := Kind(c);
    if kind == "DOMAIN" || kind == "DOMAIN-FULL" then ToLower(domain) == TrimDot(TrimSpace(c.payload))
    else if kind == "DOMAIN-KEYWORD" then ContainsText(ToLower(domain), ToLower(TrimSpace(c.payload)))
    else if kind == "IP-CIDR" || kind == "IP_CIDR" then
      var p := parse(TrimSpace(c.payload));
      p.Some? && !ip.Invalid? && p.value.Contains(ip)
    else if kind == "GEOIP" then
      ToUpper(TrimSpace(c.payload)) in ["PRIVATE", "LAN"] && !ip.Invalid? && (IsPrivate(ip) || IsLoopback(ip))
    else kind == "MATCH"
  }

  function FirstHit(cs: seq<RuleConfig>, parse: Parser, domain: string, ip: Addr): Option<Route> {
    if cs == [] then None
    else if Hits(cs[0], parse, domain, ip) then Some(Route(cs[0].proxy, cs[0].rewrite))
    else FirstHit(cs[1..], parse, domain, ip)
  }

  /** The winning suffix rule of the list for a domain. */
  function SuffixHit(cs: seq<RuleConfig>, domain: string): Option<Rule> {
    if TrimDot(domain) == "" then None else Winner(Suffixes(cs), TrimDot(domain))
  }

  /** The meaning of a configuration list: the longest suffix rule, else the first other entry that applies,
      else the default. */
  function Interp(cs: seq<RuleConfig>, parse: Parser, domain: string, ip: Addr, defaultUpstream: string): Route {
    match SuffixHit(cs, domain)
    case Some(r) => Route(r.upstream, r.rewrite)
    case None =>
      match FirstHit(cs, parse, domain, ip)
      case Some(route) => route
      case None => Route(defaultUpstream, map[])
  }

  // ----- the compiled form -----

  datatype ItemType = DomainKeyword | DomainFull | IpCidr(cidr: CidrPrefix) | GeoIp | MatchAll

  datatype RuleItem = RuleItem(kind: ItemType, payload: string, proxy: string, rewrite: Rewrites)

  /** The items one configuration entry compiles to. */
  function ItemsOf(c: RuleConfig, parse: Parser): seq<RuleItem> {
    var kind := Kind(c);
    if kind == "DOMAIN" || kind == "DOMAIN-FULL" then
      [RuleItem(DomainFull, TrimDot(TrimSpace(c.payload)), c.proxy, c.rewrite)]
    else if kind == "DOMAIN-KEYWORD" then [RuleItem(DomainKeyword, ToLower(TrimSpace(c.payload)), c.proxy, c.rewrite)]
    else if kind == "IP-CIDR" || kind == "IP_CIDR" then
      var p := parse(TrimSpace(c.payload));
      if p.Some? then [RuleItem(IpCidr(p.value), c.payload, c.proxy, c.rewrite)] else []
    else if kind == "GEOIP" then [RuleItem(GeoIp, ToUpper(TrimSpace(c.payload)), c.proxy, c.rewrite)]
    else if kind == "MATCH" then [RuleItem(MatchAll, "", c.proxy, c.rewrite)]
    else []
  }

  function Items(cs: seq<RuleConfig>, parse: Parser): seq<RuleItem> {
    if cs == [] then [] else Items(cs[..|cs| - 1], parse) + ItemsOf(cs[|cs| - 1], parse)
  }

  predicate ItemHits(item: RuleItem, domain: string, ip: Addr) {
    match item.kind
    case DomainFull => ToLower(domain) == item.payload
    case DomainKeyword => ContainsText(ToLower(domain), item.payload)
    case IpCidr(cidr) => !ip.Invalid? && cidr.Contains(ip)
    case GeoIp => (item.payload == "PRIVATE" || item.payload == "LAN") && !ip.Invalid? && (IsPrivate(ip) || IsLoopback(ip))
    case MatchAll => true
  }

  function FirstItem(items: seq<RuleItem>, domain: string, ip: Addr): Option<Route> {
    if items == [] then None
    else if ItemHits(items[0], domain, ip) then Some(Route(items[0].proxy, items[0].rewrite))
    else FirstItem(items[1..], domain, ip)
  }

  class Engine {
    const trie: DomainRouter
    var items: seq<RuleItem>

    /** The engine is the compiled form of the list. */
    ghost predicate Compiled(cs: seq<RuleConfig>, parse: Parser)
      reads this, trie, trie.nodes.Values
    {
      trie.Valid() && trie.entries == Entries(Suffixes(cs)) && items == Items(cs, parse)
    }

    /** Compilation: suffix rules into the trie, the others appended to the item list. */
    constructor (cs: seq<RuleConfig>, parse: Parser)
      ensures Compiled(cs, parse) && fresh(trie) && fresh(trie.nodes.Values)
    {
      trie := new DomainRouter();
      items := [];
      new;
      for i := 0 to |cs|
        invariant Compiled(cs[..i], parse) && fresh(trie) && fresh(trie.nodes.Values)
      {
        AddNext(cs, i, parse);
      }
      assert cs[..|cs|] == cs;
    }

    method AddNext(cs: seq<RuleConfig>, i: nat, parse: Parser)
      requires i < |cs| && Compiled(cs[..i], parse)
      modifies this, trie, trie.nodes.Values
      ensures Compiled(cs[..i + 1], parse) && fresh(trie.nodes.Values - old(trie.nodes.Values))
    {
      assert cs[..i + 1] == cs[..i] + [cs[i]];
      AddConfig(cs[i], parse, cs[..i]);
    }

    method AddConfig(c: RuleConfig, parse: Parser, ghost before: seq<RuleConfig>)
      requires Compiled(before, parse)
      modifies this, trie, trie.nodes.Values
      ensures Compiled(before + [c], parse) && fresh(trie.nodes.Values - old(trie.nodes.Values))
    {
      OneMoreCompiled(before, c, parse);
      var isSuffix := IsSuffixKind(c);
      if isSuffix {
        AddSuffixes(c, Suffixes(before));
      } else {
        AddItems(c, parse);
      }
    }

    method AddItems(c: RuleConfig, parse: Parser)
      modifies `items
      ensures items == old(items) + ItemsOf(c, parse)
    {
      var kind := Kind(c);
      if kind == "DOMAIN" || kind == "DOMAIN-FULL" {
        items := items + [RuleItem(DomainFull, TrimDot(TrimSpace(c.payload)), c.proxy, c.rewrite)];
      } else if kind == "DOMAIN-KEYWORD" {
        items := items + [RuleItem(DomainKeyword, ToLower(TrimSpace(c.payload)), c.proxy, c.rewrite)];
      } else if kind == "IP-CIDR" || kind == "IP_CIDR" {
        var p := parse(TrimSpace(c.payload));
        if p.Some? {
          items := items + [RuleItem(IpCidr(p.value), c.payload, c.proxy, c.rewrite)];
        }
      } else if kind == "GEOIP" {
        items := items + [RuleItem(GeoIp, ToUpper(TrimSpace(c.payload)), c.proxy, c.rewrite)];
      } else if kind == "MATCH" {
        items := items + [RuleItem(MatchAll, "", c.proxy, c.rewrite)];
      }
    }

    method AddSuffixes(c: RuleConfig, ghost before: seq<Rule>)
      requires trie.Valid() && trie.entries == Entries(before) && IsSuffixKind(c)
      modifies trie, trie.nodes.Values
      ensures trie.Valid() && trie.entries == Entries(before + SuffixesOf(c))
      ensures fresh(trie.nodes.Values - old(trie.nodes.Values))
    {
      if Kind(c) == "" && c.domains != [] {
        AddDomains(c, before);
      } else {
        EntriesAppend(before, c.payload, c);
        trie.AddRule(c.payload, c.proxy, c.rewrite);
      }
    }

    method AddDomains(c: RuleConfig, ghost before: seq<Rule>)
      requires trie.Valid() && trie.entries == Entries(before)
      modifies trie, trie.nodes.Values
      ensures trie.Valid() && trie.entries == Entries(before + SuffixForAll(c.domains, c))
      ensures fresh(trie.nodes.Values - old(trie.nodes.Values))
    {
      trie.AddRule("", c.proxy, c.rewrite);
      assert before + [] == before;
      for k := 0 to |c.domains|
        invariant trie.Valid() && fresh(trie.nodes.Values - old(trie.nodes.Values))
        invariant trie.entries == Entries(before + SuffixForAll(c.domains[..k], c))
      {
        AddDomain(c, before, k);
      }
      assert c.domains[..|c.domains|] == c.domains;
    }

    method AddDomain(c: RuleConfig, ghost before: seq<Rule>, k: nat)
      requires trie.Valid() && k < |c.domains| && trie.entries == Entries(before + SuffixForAll(c.domains[..k], c))
      modifies trie, trie.nodes.Values
      ensures trie.Valid() && trie.entries == Entries(before + SuffixForAll(c.domains[..k + 1], c))
      ensures fresh(trie.nodes.Values - old(trie.nodes.Values))
    {
      OneMoreDomain(before, c, k);
      trie.AddRule(c.domains[k], c.proxy, c.rewrite);
    }

    /** Evaluation: the trie first, then the items in order, then the default. */
    method Match(domain: string, ip: Addr, defaultUpstream: string, ghost cs: seq<RuleConfig>, ghost parse: Parser)
      returns (route: Route)
      requires Compiled(cs, parse)
      ensures route == Interp(cs, parse, domain, ip, defaultUpstream)
    {
      TrieIsNaive(Suffixes(cs), TrimDot(domain));
      ItemsMean(cs, parse, domain, ip);
      if domain != "" {
        var node := trie.MatchNode(domain);
        if node != null && node.upstream != "" {
          return Route(node.upstream, node.rewrite);
        }
      }
      for k := 0 to |items|
        invariant FirstItem(items, domain, ip) == FirstItem(items[k..], domain, ip)
      {
        if ItemHits(items[k], domain, ip) {
          return Route(items[k].proxy, items[k].rewrite);
        }
      }
      route := Route(defaultUpstream, map[]);
    }
  }

  /** An entry is a suffix rule or one of the others, never both. */
  lemma EitherKind(c: RuleConfig, parse: Parser)
    ensures IsSuffixKind(c) ==> ItemsOf(c, parse) == [] && forall domain, ip :: !Hits(c, parse, domain, ip)
    ensures !IsSuffixKind(c) ==> SuffixesOf(c) == []
  {
  }

  lemma OneMoreSuffix(before: seq<RuleConfig>, c: RuleConfig)
    ensures Suffixes(before + [c]) == Suffixes(before) + SuffixesOf(c)
  {
    assert (before + [c])[..|before|] == before;
  }

  lemma OneMoreConfig(before: seq<RuleConfig>, c: RuleConfig, parse: Parser)
    ensures Suffixes(before + [c]) == Suffixes(before) + SuffixesOf(c)
    ensures Items(before + [c], parse) == Items(before, parse) + ItemsOf(c, parse)
  {
    OneMoreSuffix(before, c);
    assert (before + [c])[..|before|] == before;
  }

  lemma OneMoreCompiled(before: seq<RuleConfig>, c: RuleConfig, parse: Parser)
    ensures Suffixes(before + [c]) == if IsSuffixKind(c) then Suffixes(before) + SuffixesOf(c) else Suffixes(before)
    ensures Items(before + [c], parse) == if IsSuffixKind(c) then Items(before, parse) else Items(before, parse) + ItemsOf(c, parse)
  {
    OneMoreConfig(before, c, parse);
    EitherKind(c, parse);
  }

  lemma OneMoreDomain(before: seq<Rule>, c: RuleConfig, k: nat)
    requires k < |c.domains|
    ensures Entries(before + SuffixForAll(c.domains[..k], c)) + EntriesOf(c.domains[k], c.proxy, c.rewrite)
         == Entries(before + SuffixForAll(c.domains[..k + 1], c))
  {
    var sofar := SuffixForAll(c.domains[..k], c);
    EntriesAppend(before + sofar, c.domains[k], c);
    assert c.domains[..k + 1][..k] == c.domains[..k];
    Assoc(before, sofar, SuffixFor(c.domains[k], c));
  }

  lemma EntriesAppend(rules: seq<Rule>, domain: string, c: RuleConfig)
    ensures Entries(rules) + EntriesOf(domain, c.proxy, c.rewrite) == Entries(rules + SuffixFor(domain, c))
  {
  }

  lemma {:induction false} FirstItemConcat(a: seq<RuleItem>, b: seq<RuleItem>, domain: string, ip: Addr)
    ensures FirstItem(a + b, domain, ip) ==
      if FirstItem(a, domain, ip).Some? then FirstItem(a, domain, ip) else FirstItem(b, domain, ip)
  {
    if a == [] {
      assert a + b == b;
    } else {
      assert (a + b)[1..] == a[1..] + b;
      FirstItemConcat(a[1..], b, domain, ip);
    }
  }

  lemma {:induction false} FirstHitConcat(a: seq<RuleConfig>, b: seq<RuleConfig>, parse: Parser, domain: string, ip: Addr)
    ensures FirstHit(a + b, parse, domain, ip) ==
      if FirstHit(a, parse, domain, ip).Some? then FirstHit(a, parse, domain, ip) else FirstHit(b, parse, domain, ip)
  {
    if a == [] {
      assert a + b == b;
    } else {
      assert (a + b)[1..] == a[1..] + b;
      FirstHitConcat(a[1..], b, parse, domain, ip);
    }
  }

  /** One entry's items say what the entry says. */
  lemma ItemMeans(c: RuleConfig, parse: Parser, domain: string, ip: Addr)
    ensures FirstItem(ItemsOf(c, parse), domain, ip) ==
      if Hits(c, parse, domain, ip) then Some(Route(c.proxy, c.rewrite)) else None
  {
    var items := ItemsOf(c, parse);
    if items != [] {
      assert items == [items[0]] && items[1..] == [];
    }
  }

  lemma OneHit(c: RuleConfig, parse: Parser, domain: string, ip: Addr)
    ensures FirstHit([c], parse, domain, ip) ==
      if Hits(c, parse, domain, ip) then Some(Route(c.proxy, c.rewrite)) else None
  {
    assert [c][1..] == [];
  }

  /** The compiled items say what the list says. */
  lemma {:induction false} ItemsMean(cs: seq<RuleConfig>, parse: Parser, domain: string, ip: Addr)
    ensures FirstItem(Items(cs, parse), domain, ip) == FirstHit(cs, parse, domain, ip)
  {
    if cs != [] {
      var front, last := cs[..|cs| - 1], cs[|cs| - 1];
      ItemsMean(front, parse, domain, ip);
      ItemMeans(last, parse, domain, ip);
      FirstItemConcat(Items(front, parse), ItemsOf(last, parse), domain, ip);
      FirstHitConcat(front, [last], parse, domain, ip);
      OneHit(last, parse, domain, ip);
      Unsnoc(cs);
    }
  }
}
