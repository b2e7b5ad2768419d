/** The ad blocker: a second suffix matcher, from the left over a hash set, and its agreement with the
    router's, from the right over a trie. */
module AdBlock {
  import opened Basics
  import opened Names
  import opened Router
  import opened SuffixRules
  import opened RuleChanges

  /** The index of the first space from `start` on, or the length. */
  function FieldEnd(line: string, start: nat): (end: nat)
    requires start <= |line|
    ensures start <= end <= |line|
    decreases |line| - start
  {
    if start == |line| || IsSpace(line[start]) then start else FieldEnd(line, start + 1)
  }

  /** The fields of a line from `start` on. */
  function FieldsFrom(line: string, start: nat): seq<string>
    requires start <= |line|
    decreases |line| - start
  {
    if start == |line| then []
    else if IsSpace(line[start]) then FieldsFrom(line, start + 1)
    else
      var end := FieldEnd(line, start + 1);
      [line[start..end]] + FieldsFrom(line, end)
  }

  /** The entry a line of a block list makes: a hosts line with a null address, or a bare name. */
  function EntryOfLine(raw: string): Option<string> {
    var line := TrimSpace(raw);
    if line == "" || line[0] == '#' || line[0] == '!' then None
    else
      var parts := FieldsFrom(line, 0);
      if |parts| >= 2 && (parts[0] == "0.0.0.0" || parts[0] == "127.0.0.1") then Some(ToLower(TrimDot(parts[1])))
      else if |parts| == 1 then Some(ToLower(TrimDot(parts[0])))
      else None
  }

  /** Some entry is the name, or the name ends with a dot and the entry. */
  predicate Listed(blocked: set<string>, d: string) {
    exists e :: e in blocked && (d == e || EndsWithDot(d, e))
  }

  /** The index of the first dot at or after `start`, or -1. */
  function NextDot(s: string, start: nat): (i: int)
    requires start <= |s|
    ensures i == -1 || start <= i < |s|
    decreases |s| - start
  {
    if start == |s| then -1 else if s[start] == '.' then start else NextDot(s, start + 1)
  }

  lemma {:induction false} NextDotIs(s: string, start: nat)
    requires start <= |s|
    ensures NextDot(s, start) >= 0 ==> s[NextDot(s, start)] == '.'
    ensures forall j :: start <= j < (if NextDot(s, start) < 0 then |s| else NextDot(s, start)) ==> s[j] != '.'
    decreases |s| - start
  {
    if start < |s| && s[start] != '.' {
      NextDotIs(s, start + 1);
    }
  }

  class AdBlocker {
    var blocked: set<string>

    constructor ()
      ensures blocked == {}
    {
      blocked := {};
    }

    /** Every line that makes an entry adds it; nothing is removed. */
    method LoadLines(lines: seq<string>) returns (count: nat)
      modifies this
      ensures forall e :: e in blocked <==> e in old(blocked) || exists i :: 0 <= i < |lines| && EntryOfLine(lines[i]) == Some(e)
    {
      count := 0;
      for i := 0 to |lines|
        invariant forall e :: e in blocked <==> e in old(blocked) || exists k :: 0 <= k < i && EntryOfLine(lines[k]) == Some(e)
      {
        var entry := EntryOfLine(lines[i]);
        if entry.Some? {
          blocked := blocked + {entry.value};
          count := count + 1;
        }
      }
    }

    /** The walk from the left: the name, then what follows each dot. */
    method IsBlocked(name: string) returns (found: bool)
      ensures found <==> Listed(blocked, ToLower(TrimDot(name)))
    {
      if blocked == {} {
        return false;
      }
      var domain := ToLower(TrimDot(name));
      if domain in blocked {
        assert Listed(blocked, domain);
        return true;
      }
      var start := 0;
      assert domain[0..] == domain;
      while true
        invariant 0 <= start <= |domain| && NoneUpTo(blocked, domain, start)
        decreases |domain| - start
      {
        var idx := NextDot(domain, start);
        NextDotIs(domain, start);
        if idx == -1 {
          ListedAt(blocked, domain);
          return false;
        }
        if domain[idx + 1..] in blocked {
          assert IsStart(domain, idx + 1);
          ListedAt(blocked, domain);
          return true;
        }
        start := idx + 1;
      }
    }
  }

  /** Position k is the beginning of the name or follows a dot. */
  predicate IsStart(d: string, k: nat) {
    k <= |d| && (k == 0 || d[k - 1] == '.')
  }

  predicate NoneUpTo(blocked: set<string>, d: string, end: nat) {
    forall k: nat {:trigger IsStart(d, k)} :: IsStart(d, k) && k <= end ==> d[k..] !in blocked
  }

  lemma ListedAt(blocked: set<string>, d: string)
    ensures Listed(blocked, d) <==> exists k: nat :: IsStart(d, k) && d[k..] in blocked
  {
    if Listed(blocked, d) {
      var e :| e in blocked && (d == e || EndsWithDot(d, e));
      var k: nat := |d| - |e|;
      assert d[k..] == e;
      assert IsStart(d, k);
    }
    if k: nat :| IsStart(d, k) && d[k..] in blocked {
      var e := d[k..];
      if k == 0 {
        assert e == d;
      } else {
        assert EndsWithDot(d, e);
      }
    }
  }

  /** The rules a router is loaded with to block the entries: one or more for each, in any order. The router
      takes no rule for the empty name. */
  ghost predicate LoadedWith(rules: seq<Rule>, blocked: set<string>) {
    && (forall e :: e in blocked && e != "" <==> HasRule(rules, e))
    && (forall i :: 0 <= i < |rules| ==> rules[i].upstream != "")
  }

  /** Some entry, not the empty one, follows a dot at the end of the name. */
  predicate EndsWithEntry(blocked: set<string>, d: string) {
    exists e :: e in blocked && e != "" && EndsWithDot(d, e)
  }

  /** The trie blocks a name exactly when an entry follows a dot at its end, or is the name and the name does
      not begin with a dot. */
  lemma RouterBlocks(rules: seq<Rule>, blocked: set<string>, d: string)
    requires LoadedWith(rules, blocked)
    ensures BestPrefix(Entries(rules), Walk(d)).Some? <==> EndsWithEntry(blocked, d) || (d in blocked && NoLeadingDot(d))
  {
    TrieIsNaive(rules, d);
    ScanIsLongest(rules, d, |rules|);
    if Winner(rules, d).Some? {
      var k := Scan(rules, d, |rules|).value;
      assert rules[k].domain in blocked && Covers(rules[k].domain, d);
    }
    if e :| e in blocked && e != "" && Covers(e, d) {
      var k := LastOf(rules, e, |rules|);
      assert Applies(rules, d, k);
    }
  }

  /** A trie of the names as they stand and the hash walk decide alike exactly when an entry follows a dot at
      the end of the name, or else neither is the name an entry with a leading dot nor is there an empty
      entry for its trailing dot to match. */
  lemma RulesAgreeIff(rules: seq<Rule>, blocked: set<string>, d: string)
    requires LoadedWith(rules, blocked)
    ensures (Listed(blocked, d) <==> BestPrefix(Entries(rules), Walk(d)).Some?)
       <==> EndsWithEntry(blocked, d)
            || ((d in blocked ==> NoLeadingDot(d)) && ("" in blocked && EndsWithDot(d, "") ==> d in blocked))
  {
    RouterBlocks(rules, blocked, d);
  }

  // ----- a router loaded with the block list's own entries -----

  /** What the router's rule adding makes of an entry. */
  function Trimmed(e: string): string {
    TrimDot(TrimSpace(e))
  }

  /** The router takes the entry as it is. */
  predicate Plain(e: string) {
    e != "" && Trimmed(e) == e
  }

  /** The trie after adding a rule for each entry in turn. */
  function TrieOf(es: seq<string>, upstream: string, rewrite: Rewrites): seq<Entry> {
    if es == [] then []
    else TrieOf(es[..|es| - 1], upstream, rewrite) + EntriesOf(es[|es| - 1], upstream, rewrite)
  }

  function RulesOf(es: seq<string>, upstream: string, rewrite: Rewrites): seq<Rule> {
    if es == [] then []
    else
      var front, name := RulesOf(es[..|es| - 1], upstream, rewrite), Trimmed(es[|es| - 1]);
      if name == "" then front else front + [Rule(name, upstream, rewrite)]
  }

  function NamesOf(es: seq<string>): set<string> {
    set e | e in es :: Trimmed(e)
  }

  lemma {:induction false} TrieOfRules(es: seq<string>, upstream: string, rewrite: Rewrites)
    ensures TrieOf(es, upstream, rewrite) == Entries(RulesOf(es, upstream, rewrite))
  {
    if es != [] {
      TrieOfRules(es[..|es| - 1], upstream, rewrite);
    }
  }

  lemma {:induction false} RulesOfNames(es: seq<string>, upstream: string, rewrite: Rewrites)
    requires upstream != ""
    ensures LoadedWith(RulesOf(es, upstream, rewrite), NamesOf(es))
  {
    if es != [] {
      var front, last := es[..|es| - 1], es[|es| - 1];
      var before, rules := RulesOf(front, upstream, rewrite), RulesOf(es, upstream, rewrite);
      RulesOfNames(front, upstream, rewrite);
      Unsnoc(es);
      assert NamesOf(es) == NamesOf(front) + {Trimmed(last)};
      forall e ensures HasRule(rules, e) <==> HasRule(before, e) || (e == Trimmed(last) && e != "") {
        RuleAdded(before, rules, Trimmed(last), upstream, rewrite, e);
      }
    }
  }

  predicate HasRule(rules: seq<Rule>, e: string) {
    exists i :: 0 <= i < |rules| && rules[i].domain == e
  }

  lemma RuleAdded(before: seq<Rule>, rules: seq<Rule>, name: string, upstream: string, rewrite: Rewrites, e: string)
    requires rules == if name == "" then before else before + [Rule(name, upstream, rewrite)]
    ensures HasRule(rules, e) <==> HasRule(before, e) || (e == name && e != "")
  {
    if i :| 0 <= i < |before| && before[i].domain == e {
      assert rules[i].domain == e;
    }
    if name != "" {
      assert rules[|before|].domain == name;
    }
  }

  /** The name is covered the way the trie covers. */
  predicate TrieMatch(d: string, e: string) {
    EndsWithDot(d, e) || (d == e && NoLeadingDot(d))
  }

  /** The name is covered the way the block list covers. */
  predicate ListMatch(d: string, e: string) {
    EndsWithDot(d, e) || d == e
  }

  /** Some entry that the router takes as it is covers the name for both. */
  predicate BothCover(es: seq<string>, d: string) {
    exists e :: e in es && Plain(e) && TrieMatch(d, e)
  }

  /** Some entry covers the name for the list alone: the name is the entry and has a leading dot, or the entry
      is one the router trims or skips. */
  predicate ListCovers(es: seq<string>, d: string) {
    exists e :: e in es && ListMatch(d, e) && !(Plain(e) && TrieMatch(d, e))
  }

  /** Some entry that the router trims covers the name for the trie. */
  predicate TrieCovers(es: seq<string>, d: string) {
    exists e :: e in es && !Plain(e) && Trimmed(e) != "" && TrieMatch(d, Trimmed(e))
  }

  /** The hash walk from the left over the entries, and the trie walk from the right over what the router made
      of the same entries, in whatever order and however often they were loaded, decide alike exactly when an
      entry covers the name for both, or one covers it for the list and one for the trie, or none does. */
  lemma AgreesWithRouterIff(es: seq<string>, upstream: string, rewrite: Rewrites, blocked: set<string>, d: string)
    requires upstream != "" && forall e :: e in blocked <==> e in es
    ensures (Listed(blocked, d) <==> BestPrefix(TrieOf(es, upstream, rewrite), Walk(d)).Some?)
       <==> BothCover(es, d) || (ListCovers(es, d) <==> TrieCovers(es, d))
  {
    var rules := RulesOf(es, upstream, rewrite);
    TrieOfRules(es, upstream, rewrite);
    RulesOfNames(es, upstream, rewrite);
    RouterBlocks(rules, NamesOf(es), d);
    TrieCoversWhat(es, d);
    ListCoversWhat(es, blocked, d);
  }

  lemma ListCoversWhat(es: seq<string>, blocked: set<string>, d: string)
    requires forall e :: e in blocked <==> e in es
    ensures Listed(blocked, d) <==> BothCover(es, d) || ListCovers(es, d)
  {
    if e :| e in blocked && ListMatch(d, e) {
      assert (Plain(e) && TrieMatch(d, e)) || !(Plain(e) && TrieMatch(d, e));
    }
    if e :| e in es && ListMatch(d, e) {
      assert e in blocked;
    }
  }

  lemma TrieCoversWhat(es: seq<string>, d: string)
    ensures EndsWithEntry(NamesOf(es), d) || (d in NamesOf(es) && NoLeadingDot(d)) <==> BothCover(es, d) || TrieCovers(es, d)
  {
    if n :| n in NamesOf(es) && n != "" && TrieMatch(d, n) {
      var e :| e in es && Trimmed(e) == n;
      assert Plain(e) || (!Plain(e) && Trimmed(e) != "" && TrieMatch(d, Trimmed(e)));
    }
    if e :| e in es && Trimmed(e) != "" && TrieMatch(d, Trimmed(e)) {
      assert Trimmed(e) in NamesOf(es);
    }
  }

  /** When the router takes every entry as it is, they decide alike on every name without a leading dot. */
  lemma AgreeOnNames(es: seq<string>, upstream: string, rewrite: Rewrites, blocked: set<string>, d: string)
    requires upstream != "" && forall e :: e in blocked <==> e in es
    requires (forall e :: e in es ==> Plain(e)) && NoLeadingDot(d)
    ensures Listed(blocked, d) <==> BestPrefix(TrieOf(es, upstream, rewrite), Walk(d)).Some?
  {
    AgreesWithRouterIff(es, upstream, rewrite, blocked, d);
  }

  /** An entry that a line makes is taken as it is exactly when it is not empty and has no trailing dot, which
      a line with two dots at its end leaves it. */
  lemma LineEntryPlainIff(line: string, e: string)
    requires EntryOfLine(line) == Some(e)
    ensures Plain(e) <==> e != "" && e[|e| - 1] != '.'
  {
    var trimmed := TrimSpace(line);
    FieldsSolid(trimmed, 0);
    var parts := FieldsFrom(trimmed, 0);
    var field := if |parts| >= 2 then parts[1] else parts[0];
    assert field in parts;
    assert Solid(e);
    SolidStays(e);
  }

  predicate Solid(s: string) {
    forall i :: 0 <= i < |s| ==> !IsSpace(s[i])
  }

  lemma SolidStays(s: string)
    requires Solid(s)
    ensures TrimSpace(s) == s
  {
  }

  lemma {:induction false} FieldEndSolid(line: string, start: nat)
    requires start <= |line|
    ensures forall i :: start <= i < FieldEnd(line, start) ==> !IsSpace(line[i])
    decreases |line| - start
  {
    if start < |line| && !IsSpace(line[start]) {
      FieldEndSolid(line, start + 1);
    }
  }

  lemma {:induction false} FieldsSolid(line: string, start: nat)
    requires start <= |line|
    ensures forall f :: f in FieldsFrom(line, start) ==> Solid(f)
    decreases |line| - start
  {
    if start < |line| {
      if IsSpace(line[start]) {
        FieldsSolid(line, start + 1);
      } else {
        FieldEndSolid(line, start + 1);
        FieldsSolid(line, FieldEnd(line, start + 1));
      }
    }
  }

  lemma {:induction false} LastOf(rules: seq<Rule>, e: string, n: nat) returns (k: nat)
    requires n <= |rules| && exists i :: 0 <= i < n && rules[i].domain == e
    ensures k < n && rules[k].domain == e && forall j :: k < j < n ==> rules[j].domain != e
  {
    if rules[n - 1].domain == e {
      k := n - 1;
    } else {
      k := LastOf(rules, e, n - 1);
    }
  }

  /** A query with a leading dot that is itself an entry tells them apart: the trie's walk never visits the
      empty first label. */
  lemma LeadingDotDiffers()
    ensures Listed({".a"}, ".a")
    ensures Winner([Rule(".a", "REJECT", map[])], ".a") == None
  {
    assert ".a" in {".a"};
    var rules := [Rule(".a", "REJECT", map[])];
    assert !Applies(rules, ".a", 0);
    NoWinner(rules, ".a");
  }
}
