/** What a change to the rule list can and cannot change. */
module RuleChanges {
  import opened Basics
  import opened Net
  import opened Names
  import opened SuffixRules
  import opened RuleEngine

  /** The winner is the longest rule that applies, however it is found. */
  lemma WinnerIs(rules: seq<Rule>, q: string, i: nat)
    requires Longest(rules, q, i)
    ensures Winner(rules, q) == Some(rules[i])
  {
    ScanIsLongest(rules, q, |rules|);
    LongestUnique(rules, q, i, Scan(rules, q, |rules|).value);
  }

  lemma NoWinner(rules: seq<Rule>, q: string)
    requires forall i :: 0 <= i < |rules| ==> !Applies(rules, q, i)
    ensures Winner(rules, q) == None
  {
    ScanIsLongest(rules, q, |rules|);
  }

  /** Two lists in which the same rules apply have the same winner. */
  lemma SameWinner(a: seq<Rule>, b: seq<Rule>, q: string)
    requires forall i: nat :: Applies(a, q, i) ==> exists j: nat :: Applies(b, q, j) && b[j] == a[i]
    requires forall j: nat :: Applies(b, q, j) ==> exists i: nat :: Applies(a, q, i) && a[i] == b[j]
    ensures Winner(a, q) == Winner(b, q)
  {
    ScanIsLongest(a, q, |a|);
    ScanIsLongest(b, q, |b|);
    if Winner(a, q).Some? {
      var i := Scan(a, q, |a|).value;
      var j: nat :| Applies(b, q, j) && b[j] == a[i];
      forall k | 0 <= k < |b| && Applies(b, q, k) ensures |b[k].domain| <= |b[j].domain| {
        var m: nat :| Applies(a, q, m) && a[m] == b[k];
      }
      WinnerIs(b, q, j);
    } else {
      NoWinner(b, q);
    }
  }

  /** Rules that do not cover the query, appended, change no winner. */
  lemma AppendUncovering(rules: seq<Rule>, more: seq<Rule>, q: string)
    requires forall r :: r in more ==> !Covers(r.domain, q)
    ensures Winner(rules + more, q) == Winner(rules, q)
  {
    var all := rules + more;
    forall i: nat ensures Applies(all, q, i) <==> Applies(rules, q, i) {
      if i < |rules| {
        assert all[i] == rules[i];
        forall j | |rules| <= j < |all| && Covers(rules[i].domain, q) ensures all[j].domain != rules[i].domain {
          assert all[j] == more[j - |rules|];
        }
        assert forall j :: i < j < |rules| ==> all[j] == rules[j];
      } else if i < |all| {
        assert all[i] == more[i - |rules|];
      }
    }
    forall i: nat | Applies(rules, q, i) ensures Applies(all, q, i) && all[i] == rules[i] {
    }
    SameWinner(all, rules, q);
  }

  lemma {:induction false} SuffixesConcat(a: seq<RuleConfig>, b: seq<RuleConfig>)
    ensures Suffixes(a + b) == Suffixes(a) + Suffixes(b)
  {
    if b == [] {
      assert a + b == a;
    } else {
      var front, last := b[..|b| - 1], b[|b| - 1];
      SuffixesConcat(a, front);
      OneMoreSuffix(a + front, last);
      OneMoreSuffix(front, last);
      Unsnoc(b);
      Assoc(a, front, [last]);
      Assoc(Suffixes(a), Suffixes(front), SuffixesOf(last));
    }
  }

  lemma {:induction false} MatchStops(cs: seq<RuleConfig>, i: nat, parse: Parser, domain: string, ip: Addr)
    requires i < |cs| && Kind(cs[i]) == "MATCH"
    ensures FirstHit(cs, parse, domain, ip).Some?
  {
    if i > 0 {
      MatchStops(cs[1..], i - 1, parse, domain, ip);
    }
  }

  /** Appending rules to a list that has a MATCH entry changes the outcome only for domains that an appended
      suffix rule covers. */
  lemma AppendAfterMatch(cs: seq<RuleConfig>, more: seq<RuleConfig>, i: nat, parse: Parser, domain: string, ip: Addr,
                         defaultUpstream: string)
    requires i < |cs| && Kind(cs[i]) == "MATCH"
    requires forall r :: r in Suffixes(more) ==> !Covers(r.domain, TrimDot(domain))
    ensures Interp(cs + more, parse, domain, ip, defaultUpstream) == Interp(cs, parse, domain, ip, defaultUpstream)
  {
    SuffixesConcat(cs, more);
    AppendUncovering(Suffixes(cs), Suffixes(more), TrimDot(domain));
    MatchStops(cs, i, parse, domain, ip);
    FirstHitConcat(cs, more, parse, domain, ip);
  }

  function SuffixEntries(cs: seq<RuleConfig>): seq<RuleConfig> {
    if cs == [] then []
    else if IsSuffixKind(cs[|cs| - 1]) then SuffixEntries(cs[..|cs| - 1]) + [cs[|cs| - 1]]
    else SuffixEntries(cs[..|cs| - 1])
  }

  function OtherEntries(cs: seq<RuleConfig>): seq<RuleConfig> {
    if cs == [] then []
    else if IsSuffixKind(cs[|cs| - 1]) then OtherEntries(cs[..|cs| - 1])
    else OtherEntries(cs[..|cs| - 1]) + [cs[|cs| - 1]]
  }

  lemma {:induction false} SuffixesOfEntries(cs: seq<RuleConfig>, parse: Parser)
    ensures Suffixes(cs) == Suffixes(SuffixEntries(cs))
  {
    if cs != [] {
      var front, last := cs[..|cs| - 1], cs[|cs| - 1];
      SuffixesOfEntries(front, parse);
      Unsnoc(cs);
      OneMoreSuffix(front, last);
      if IsSuffixKind(last) {
        OneMoreSuffix(SuffixEntries(front), last);
      } else {
        EitherKind(last, parse);
      }
    }
  }

  lemma {:induction false} HitOfEntries(cs: seq<RuleConfig>, parse: Parser, domain: string, ip: Addr)
    ensures FirstHit(cs, parse, domain, ip) == FirstHit(OtherEntries(cs), parse, domain, ip)
  {
    if cs != [] {
      var front, last := cs[..|cs| - 1], cs[|cs| - 1];
      HitOfEntries(front, parse, domain, ip);
      OneHit(last, parse, domain, ip);
      Unsnoc(cs);
      FirstHitConcat(front, [last], parse, domain, ip);
      if IsSuffixKind(last) {
        EitherKind(last, parse);
      } else {
        FirstHitConcat(OtherEntries(front), [last], parse, domain, ip);
      }
    }
  }

  /** How suffix entries and other entries are interleaved makes no difference. */
  lemma Interleaving(a: seq<RuleConfig>, b: seq<RuleConfig>, parse: Parser, domain: string, ip: Addr,
                     defaultUpstream: string)
    requires SuffixEntries(a) == SuffixEntries(b) && OtherEntries(a) == OtherEntries(b)
    ensures Interp(a, parse, domain, ip, defaultUpstream) == Interp(b, parse, domain, ip, defaultUpstream)
  {
    SuffixesOfEntries(a, parse);
    SuffixesOfEntries(b, parse);
    HitOfEntries(a, parse, domain, ip);
    HitOfEntries(b, parse, domain, ip);
  }

  predicate DistinctDomains(rules: seq<Rule>) {
    forall i, j :: 0 <= i < j < |rules| ==> rules[i].domain != rules[j].domain
  }

  /** Nor does the order of suffix rules over distinct domains. */
  lemma Reordering(a: seq<RuleConfig>, b: seq<RuleConfig>, parse: Parser, domain: string, ip: Addr,
                   defaultUpstream: string)
    requires DistinctDomains(Suffixes(a)) && DistinctDomains(Suffixes(b))
    requires forall r :: r in Suffixes(a) <==> r in Suffixes(b)
    requires OtherEntries(a) == OtherEntries(b)
    ensures Interp(a, parse, domain, ip, defaultUpstream) == Interp(b, parse, domain, ip, defaultUpstream)
  {
    SameRulesSameWinner(Suffixes(a), Suffixes(b), TrimDot(domain));
    HitOfEntries(a, parse, domain, ip);
    HitOfEntries(b, parse, domain, ip);
  }

  lemma SameRulesSameWinner(a: seq<Rule>, b: seq<Rule>, q: string)
    requires DistinctDomains(a) && DistinctDomains(b) && forall r :: r in a <==> r in b
    ensures Winner(a, q) == Winner(b, q)
  {
    forall i: nat | Applies(a, q, i) ensures exists j: nat :: Applies(b, q, j) && b[j] == a[i] {
      assert a[i] in b;
      var j :| 0 <= j < |b| && b[j] == a[i];
      assert Applies(b, q, j);
    }
    forall j: nat | Applies(b, q, j) ensures exists i: nat :: Applies(a, q, i) && a[i] == b[j] {
      assert b[j] in a;
      var i :| 0 <= i < |a| && a[i] == b[j];
      assert Applies(a, q, i);
    }
    SameWinner(a, b, q);
  }

  /** A rule written with a leading dot, as suffix lists often have it, covers no ordinary name: what it
      covers has two dots in a row. */
  lemma LeadingDotCoversNoName(r: string, q: string)
    requires r != "" && r[0] == '.' && Covers(r, q)
    ensures exists k :: 0 <= k < |q| - 1 && q[k] == '.' == q[k + 1]
  {
    var k := |q| - |r| - 1;
    assert q[|q| - |r|..][0] == r[0];
    assert q[k] == '.' == q[k + 1];
  }
}
