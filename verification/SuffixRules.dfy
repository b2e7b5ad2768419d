/** What a list of suffix rules means, read off the list itself, and the proof that the trie means the same. */
module SuffixRules {
  import opened Basics
  import opened Names
  import opened Router

  /** A suffix rule after normalisation. */
  datatype Rule = Rule(domain: string, upstream: string, rewrite: Rewrites)

  function EntryOf(r: Rule): Entry {
    Entry(Path(r.domain), r.upstream, r.rewrite)
  }

  /** The trie entries of a rule list. */
  function Entries(rules: seq<Rule>): (es: seq<Entry>)
    ensures |es| == |rules|
  {
    seq(|rules|, i requires 0 <= i < |rules| => EntryOf(rules[i]))
  }

  /** Rule i applies to query q: its domain covers q, it has an upstream, and no later rule is for the same
      domain. */
  predicate Applies(rules: seq<Rule>, q: string, i: nat) {
    && i < |rules| && Covers(rules[i].domain, q) && rules[i].upstream != ""
    && forall j :: i < j < |rules| ==> rules[j].domain != rules[i].domain
  }

  /** The naive scan of the first n rules: the longest domain among the rules that apply. */
  function Scan(rules: seq<Rule>, q: string, n: nat): (r: Option<nat>)
    requires n <= |rules|
    ensures r.Some? ==> r.value < n
  {
    if n == 0 then None
    else
      var best := Scan(rules, q, n - 1);
      if Applies(rules, q, n - 1) && (best.Some? ==> |rules[best.value].domain| < |rules[n - 1].domain|)
      then Some(n - 1) else best
  }

  function Winner(rules: seq<Rule>, q: string): Option<Rule> {
    var i := Scan(rules, q, |rules|);
    if i.Some? then Some(rules[i.value]) else None
  }

  /** Rule i is the longest that applies. */
  predicate Longest(rules: seq<Rule>, q: string, i: nat) {
    Applies(rules, q, i) && forall j :: 0 <= j < |rules| && Applies(rules, q, j) ==> |rules[j].domain| <= |rules[i].domain|
  }

  lemma {:induction false} ScanIsLongest(rules: seq<Rule>, q: string, n: nat)
    requires n <= |rules|
    ensures Scan(rules, q, n).None? ==> forall i :: 0 <= i < n ==> !Applies(rules, q, i)
    ensures Scan(rules, q, n).Some? ==>
      var b := Scan(rules, q, n).value;
      Applies(rules, q, b)
      && forall i :: 0 <= i < n && Applies(rules, q, i) ==> |rules[i].domain| <= |rules[b].domain|
  {
    if n > 0 {
      ScanIsLongest(rules, q, n - 1);
    }
  }

  /** Two names of the same length that cover one query are the same name. */
  lemma CoverUnique(q: string, r: string, t: string)
    requires Covers(r, q) && Covers(t, q) && |r| == |t|
    ensures r == t
  {
  }

  /** The winner does not depend on how the list is scanned: at most one rule is longest. */
  lemma LongestUnique(rules: seq<Rule>, q: string, i: nat, j: nat)
    requires Longest(rules, q, i) && Longest(rules, q, j)
    ensures i == j
  {
    CoverUnique(q, rules[i].domain, rules[j].domain);
  }

  // ----- the same in terms of paths -----

  predicate PathApplies(es: seq<Entry>, w: seq<string>, i: nat) {
    && i < |es| && es[i].path <= w && es[i].upstream != ""
    && forall j :: i < j < |es| ==> es[j].path != es[i].path
  }

  /** Entry i is the last for path p. */
  predicate IsLast(es: seq<Entry>, p: seq<string>, i: nat) {
    i < |es| && es[i].path == p && forall j :: i < j < |es| ==> es[j].path != p
  }

  /** Entry i has the longest path among those that apply. */
  predicate PathLongest(es: seq<Entry>, w: seq<string>, i: nat) {
    && PathApplies(es, w, i)
    && forall j :: 0 <= j < |es| && PathApplies(es, w, j) ==> |es[j].path| <= |es[i].path|
  }

  lemma {:induction false} LastForIs(es: seq<Entry>, p: seq<string>)
    ensures LastFor(es, p).None? ==> forall i :: 0 <= i < |es| ==> es[i].path != p
    ensures LastFor(es, p).Some? ==> exists i: nat :: IsLast(es, p, i) && es[i] == LastFor(es, p).value
  {
    if es != [] && es[|es| - 1].path != p {
      var front := es[..|es| - 1];
      LastForIs(front, p);
      if LastFor(front, p).Some? {
        var i: nat :| IsLast(front, p, i) && front[i] == LastFor(front, p).value;
        assert IsLast(es, p, i);
      }
    }
  }

  /** The best prefix belongs to the entry with the longest path among those that apply. */
  lemma {:induction false} BestPrefixIsLongest(es: seq<Entry>, w: seq<string>)
    ensures BestPrefix(es, w).None? ==> forall i :: 0 <= i < |es| ==> !PathApplies(es, w, i)
    ensures BestPrefix(es, w).Some? ==> exists i: nat :: PathLongest(es, w, i) && es[i] == BestPrefix(es, w).value
  {
    LastForIs(es, w);
    var r := LastFor(es, w);
    if r.Some? && r.value.upstream != "" {
      var i: nat :| IsLast(es, w, i) && es[i] == r.value;
      assert PathLongest(es, w, i);
    } else {
      NoneAtFull(es, w);
      if w != [] {
        var front := w[..|w| - 1];
        BestPrefixIsLongest(es, front);
        forall i: nat ensures PathApplies(es, w, i) <==> PathApplies(es, front, i) {
          if i < |es| {
            PrefixShorter(es[i].path, w);
          }
        }
        if BestPrefix(es, front).Some? {
          var i: nat :| PathLongest(es, front, i) && es[i] == BestPrefix(es, front).value;
          assert PathLongest(es, w, i);
        }
      }
    }
  }

  lemma NoneAtFull(es: seq<Entry>, w: seq<string>)
    requires LastFor(es, w).None? || LastFor(es, w).value.upstream == ""
    ensures forall i: nat :: PathApplies(es, w, i) ==> es[i].path != w
  {
    LastForIs(es, w);
  }

  lemma PrefixShorter(p: seq<string>, w: seq<string>)
    requires w != []
    ensures p != w ==> (p <= w <==> p <= w[..|w| - 1])
    ensures !(w <= w[..|w| - 1])
  {
  }

  // ----- the trie refines the list -----

  lemma AppliesIsPathApplies(rules: seq<Rule>, q: string, i: nat)
    ensures Applies(rules, q, i) <==> PathApplies(Entries(rules), Walk(q), i)
  {
    if i < |rules| {
      WalkPrefixIffCovers(q, rules[i].domain);
      var es := Entries(rules);
      assert es[i] == EntryOf(rules[i]);
      forall j | 0 <= j < |rules| ensures es[j].path == es[i].path <==> rules[j].domain == rules[i].domain {
        assert es[j] == EntryOf(rules[j]);
        if es[j].path == es[i].path {
          PathInjective(rules[j].domain, rules[i].domain);
        }
      }
    }
  }

  /** Of two names that cover a query, the one with the longer path is the longer. */
  lemma LongerPathLongerName(q: string, r: string, t: string)
    requires Covers(r, q) && Covers(t, q) && |Path(r)| <= |Path(t)|
    ensures |r| <= |t|
  {
    WalkPrefixIffCovers(q, r);
    WalkPrefixIffCovers(q, t);
    PrefixesNest(Path(r), Path(t), Walk(q));
    PathPrefixIffUnder(t, |t|, r, |r|);
  }

  lemma PrefixesNest(a: seq<string>, b: seq<string>, w: seq<string>)
    requires a <= w && b <= w && |a| <= |b|
    ensures a <= b
  {
  }

  /** The trie refines the rule list: its longest-prefix match is the winner of the naive scan. */
  lemma TrieIsNaive(rules: seq<Rule>, q: string)
    ensures BestPrefix(Entries(rules), Walk(q)) ==
      match Winner(rules, q) { case None => None case Some(r) => Some(EntryOf(r)) }
  {
    var es, w := Entries(rules), Walk(q);
    forall i: nat {
      AppliesIsPathApplies(rules, q, i);
    }
    BestPrefixIsLongest(es, w);
    ScanIsLongest(rules, q, |rules|);
    if BestPrefix(es, w).Some? {
      var i: nat :| PathLongest(es, w, i) && es[i] == BestPrefix(es, w).value;
      assert Applies(rules, q, i);
      var b := Scan(rules, q, |rules|).value;
      forall j | 0 <= j < |rules| && Applies(rules, q, j) ensures |rules[j].domain| <= |rules[i].domain| {
        LongerPathLongerName(q, rules[j].domain, rules[i].domain);
      }
      LongestUnique(rules, q, i, b);
    }
  }
}
