/** The suffix router: a heap trie over labels, and the rule list it stands for. */
module Router {
  import opened Basics
  import opened Names

  type Rewrites = map<string, string>

  /** A rule as it enters the trie, under the path of its domain. */
  datatype Entry = Entry(path: seq<string>, upstream: string, rewrite: Rewrites)

  /** The last entry for exactly this path. */
  function LastFor(entries: seq<Entry>, path: seq<string>): Option<Entry> {
    if entries == [] then None
    else if entries[|entries| - 1].path == path then Some(entries[|entries| - 1])
    else LastFor(entries[..|entries| - 1], path)
  }

  /** The entry of the longest prefix of the walk whose last entry has an upstream. */
  function BestPrefix(entries: seq<Entry>, walk: seq<string>): Option<Entry> {
    var r := LastFor(entries, walk);
    if r.Some? && r.value.upstream != "" then r
    else if walk == [] then None
    else BestPrefix(entries, walk[..|walk| - 1])
  }

  lemma LastForAppend(entries: seq<Entry>, e: Entry, path: seq<string>)
    ensures LastFor(entries + [e], path) == if path == e.path then Some(e) else LastFor(entries, path)
  {
    assert (entries + [e])[..|entries|] == entries;
  }

  function Child(path: seq<string>, name: string): seq<string> {
    path + [name]
  }

  lemma ChildInjective(p: seq<string>, l: string, q: seq<string>, m: string)
    requires Child(p, l) == Child(q, m)
    ensures p == q && l == m
  {
    assert Child(p, l)[..|p|] == p && Child(q, m)[..|q|] == q;
  }

  lemma PartsArePath(d: string, parts: seq<string>, path: seq<string>)
    requires parts == Split(d) && path == Path(d)
    ensures |parts| == |path| && forall i :: 0 <= i < |parts| ==> parts[i] == path[|parts| - 1 - i]
  {
    SplitIsPath(d, |d|, 0);
    forall i | 0 <= i < |parts| ensures parts[i] == path[|parts| - 1 - i] {
      SplitIsPath(d, |d|, |parts| - 1 - i);
    }
  }

  lemma NextPrefix(p: seq<string>, k: nat)
    requires k < |p|
    ensures Child(p[..k], p[k]) == p[..k + 1]
  {
  }

  class TrieNode {
    var children: map<string, TrieNode>
    var upstream: string
    var rewrite: Rewrites

    constructor ()
      ensures children == map[] && upstream == "" && rewrite == map[]
    {
      children, upstream, rewrite := map[], "", map[];
    }
  }

  /** What a node says about its path. */
  ghost predicate NodeSays(n: TrieNode, r: Option<Entry>)
    reads n
  {
    match r
    case None => n.upstream == ""
    case Some(rule) => n.upstream == rule.upstream && n.rewrite == rule.rewrite
  }

  /** The result of a match says what the winning rule says. */
  ghost predicate ResultSays(n: TrieNode?, r: Option<Entry>)
    reads n
  {
    match r
    case None => n == null
    case Some(rule) => n != null && n.upstream == rule.upstream && n.rewrite == rule.rewrite
  }

  class DomainRouter {
    const root: TrieNode
    /** The nodes by their paths, and the rules added so far. */
    ghost var nodes: map<seq<string>, TrieNode>
    ghost var entries: seq<Entry>

    /** The nodes form a tree whose edges are the labels. */
    ghost predicate Tree()
      reads this, nodes.Values
    {
      && [] in nodes && nodes[[]] == root
      && (forall p, q :: p in nodes && q in nodes && nodes[p] == nodes[q] ==> p == q)
      && (forall p, l {:trigger Child(p, l)} :: p in nodes ==> (l in nodes[p].children <==> Child(p, l) in nodes))
      && (forall p, l {:trigger Child(p, l)} :: Child(p, l) in nodes ==> p in nodes)
      && (forall p, l {:trigger nodes[p].children[l]} :: p in nodes && l in nodes[p].children ==>
            Child(p, l) in nodes && nodes[p].children[l] == nodes[Child(p, l)])
    }

    /** Each node says what the last rule for its path says, and every rule has its node. */
    ghost predicate Table()
      reads this, nodes.Values
    {
      && (forall p :: p in nodes ==> NodeSays(nodes[p], LastFor(entries, p)))
      && (forall p {:trigger LastFor(entries, p)} :: LastFor(entries, p).Some? ==> p in nodes)
    }

    ghost predicate Valid()
      reads this, nodes.Values
    {
      Tree() && Table()
    }

    constructor ()
      ensures Valid() && entries == [] && fresh(nodes.Values)
    {
      root := new TrieNode();
      entries := [];
      new;
      nodes := map[[] := root];
    }

    /** A node for a path that has none yet: a leaf below `node`. */
    method AddLeaf(ghost path: seq<string>, node: TrieNode, name: string) returns (leaf: TrieNode)
      requires Tree() && path in nodes && nodes[path] == node && name !in node.children
      modifies this`nodes, node`children
      ensures Tree() && fresh(leaf) && nodes == old(nodes)[Child(path, name) := leaf] && leaf.upstream == ""
    {
      ghost var added := Child(path, name);
      forall p, l | Child(p, l) == added ensures p == path && l == name {
        ChildInjective(p, l, path, name);
      }
      assert added !in nodes;
      assert added != [] && forall l :: Child(added, l) !in nodes;
      leaf := new TrieNode();
      node.children := node.children[name := leaf];
      nodes := nodes[added := leaf];
      assert forall p, l {:trigger Child(p, l)} :: Child(p, l) in nodes <==> Child(p, l) in old(nodes) || (p == path && l == name);
    }

    /** Follow a label, creating the node when it is missing. */
    method Descend(ghost path: seq<string>, node: TrieNode, name: string) returns (next: TrieNode)
      requires Valid() && path in nodes && nodes[path] == node
      modifies this`nodes, node`children
      ensures Valid() && Child(path, name) in nodes && nodes[Child(path, name)] == next
      ensures fresh(nodes.Values - old(nodes.Values))
    {
      if name !in node.children {
        assert LastFor(entries, Child(path, name)).None?;
        next := AddLeaf(path, node, name);
      } else {
        next := node.children[name];
      }
    }

    /** The node for a path, its labels given left to right; missing nodes are created on the way. */
    method NodeFor(parts: seq<string>, ghost full: seq<string>) returns (node: TrieNode)
      requires Valid() && |parts| == |full| && forall i :: 0 <= i < |parts| ==> parts[i] == full[|parts| - 1 - i]
      modifies this`nodes, nodes.Values
      ensures Valid() && full in nodes && nodes[full] == node && fresh(nodes.Values - old(nodes.Values))
    {
      node := root;
      ghost var path: seq<string> := [];
      var i := |parts|;
      while i > 0
        invariant 0 <= i <= |parts| && Valid() && fresh(nodes.Values - old(nodes.Values))
        invariant path == full[..|parts| - i] && path in nodes && nodes[path] == node
      {
        i := i - 1;
        NextPrefix(full, |parts| - 1 - i);
        node := Descend(path, node, parts[i]);
        path := Child(path, parts[i]);
      }
      assert full[..|parts|] == full;
    }

    /** The rule is appended to the list; a blank domain adds nothing. */
    method AddRule(domain: string, upstream: string, rewrite: Rewrites)
      requires Valid()
      modifies this, nodes.Values
      ensures Valid() && fresh(nodes.Values - old(nodes.Values))
      ensures entries == old(entries) + EntriesOf(domain, upstream, rewrite)
    {
      var d := TrimDot(TrimSpace(domain));
      if d == "" {
        return;
      }
      var parts := Split(d);
      PartsArePath(d, parts, Path(d));
      var node := NodeFor(parts, Path(d));
      SetEntry(node, Entry(Path(d), upstream, rewrite), upstream, rewrite);
    }

    method SetEntry(node: TrieNode, ghost entry: Entry, upstream: string, rewrite: Rewrites)
      requires Valid() && entry.path in nodes && nodes[entry.path] == node
      requires entry.upstream == upstream && entry.rewrite == rewrite
      modifies this`entries, node
      ensures Valid() && entries == old(entries) + [entry]
    {
      node.upstream := upstream;
      node.rewrite := rewrite;
      entries := entries + [entry];
      forall p ensures LastFor(entries, p) == if p == entry.path then Some(entry) else LastFor(old(entries), p) {
        LastForAppend(old(entries), entry, p);
      }
    }

    /** The label before `end`, and where the rest ends. */
    static method NextLabel(d: string, end: nat) returns (part: string, rest: nat)
      requires 0 < end <= |d|
      ensures rest < end && WalkTo(d, end) == [part] + WalkTo(d, rest)
    {
      var start := LastDot(d, end);
      if start == -1 {
        part := d[..end];
        rest := 0;
      } else {
        part := d[start + 1..end];
        rest := start;
      }
    }

    /** The walk from the right, by index: the deepest node on it that has an upstream. */
    method MatchNode(domain: string) returns (lastMatched: TrieNode?)
      requires Valid()
      ensures ResultSays(lastMatched, if TrimDot(domain) == "" then None else BestPrefix(entries, Walk(TrimDot(domain))))
      ensures lastMatched != null ==> lastMatched.upstream != ""
    {
      var d := TrimDot(domain);
      lastMatched := null;
      if d == "" {
        return;
      }
      var node := root;
      if node.upstream != "" {
        lastMatched := node;
      }
      ghost var path: seq<string> := [];
      var end := |d|;
      while end > 0
        invariant 0 <= end <= |d| && Walk(d) == path + WalkTo(d, end)
        invariant path in nodes && nodes[path] == node
        invariant ResultSays(lastMatched, BestPrefix(entries, path)) && (lastMatched != null ==> lastMatched.upstream != "")
      {
        ghost var rest := WalkTo(d, end);
        var part;
        part, end := NextLabel(d, end);
        if part !in node.children {
          NoDeeper(path, rest, |rest|);
          assert rest[..|rest|] == rest;
          return;
        }
        node := node.children[part];
        Deeper(path, part, WalkTo(d, end));
        path := Child(path, part);
        if node.upstream != "" {
          lastMatched := node;
        }
      }
      assert path + [] == path;
    }

    /** A child on the path replaces the match so far exactly when its last rule has an upstream. */
    lemma Deeper(path: seq<string>, part: string, tail: seq<string>)
      requires Valid() && path in nodes && part in nodes[path].children
      ensures path + ([part] + tail) == Child(path, part) + tail
      ensures Child(path, part) in nodes && nodes[Child(path, part)] == nodes[path].children[part]
      ensures BestPrefix(entries, Child(path, part)) ==
        if nodes[path].children[part].upstream != "" then LastFor(entries, Child(path, part)) else BestPrefix(entries, path)
      ensures NodeSays(nodes[Child(path, part)], LastFor(entries, Child(path, part)))
    {
      assert Child(path, part)[..|path|] == path;
    }

    /** A missing child ends the match: no longer path has a rule. */
    lemma {:induction false} NoDeeper(path: seq<string>, rest: seq<string>, k: nat)
      requires Valid() && path in nodes && rest != [] && rest[0] !in nodes[path].children && k <= |rest|
      ensures k > 0 ==> path + rest[..k] !in nodes
      ensures BestPrefix(entries, path + rest[..k]) == BestPrefix(entries, path)
    {
      if k == 0 {
        assert path + rest[..0] == path;
      } else {
        NoDeeper(path, rest, k - 1);
        var longer := path + rest[..k];
        assert longer == Child(path + rest[..k - 1], rest[k - 1]);
        assert longer[..|longer| - 1] == path + rest[..k - 1];
        if k == 1 {
          assert path + rest[..0] == path;
        }
        assert LastFor(entries, longer).None?;
      }
    }
  }

  /** What adding a rule adds to the trie. */
  function EntriesOf(domain: string, upstream: string, rewrite: Rewrites): seq<Entry> {
    var d := TrimDot(TrimSpace(domain));
    if d == "" then [] else [Entry(Path(d), upstream, rewrite)]
  }
}
