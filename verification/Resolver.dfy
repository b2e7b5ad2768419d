/** The resolver's cache: what a query makes of the answers, how long the result lives, and the lookups,
    cleaning, clearing and counting that use it. Times are in seconds. */
module Resolver {
  import opened Basics
  import opened Net

  datatype Answer = A(ip: Addr, ttl: nat) | Aaaa(ip: Addr, ttl: nat) | Other(ttl: nat)

  /** What came back from one query, the fallback server included. */
  datatype Reply = Answers(records: seq<Answer>) | NoReply

  datatype Entry = Entry(ips: seq<Addr>, expiresAt: int, staleAt: int)

  const MinLife: nat := 60
  const MaxLife: nat := 300
  const StaleFor: nat := 600

  predicate Matches(a: Answer, v6: bool) {
    if v6 then a.Aaaa? else a.A?
  }

  /** The addresses of the records of the type asked for, in order. */
  function Addresses(records: seq<Answer>, v6: bool): seq<Addr> {
    if records == [] then []
    else
      var front, last := Addresses(records[..|records| - 1], v6), records[|records| - 1];
      if Matches(last, v6) then front + [last.ip] else front
  }

  function IpsOf(reply: Reply, v6: bool): seq<Addr> {
    if reply.Answers? then Addresses(reply.records, v6) else []
  }

  /** Both queries together found an address. */
  predicate Succeeds(v4: Reply, v6: Reply) {
    IpsOf(v6, true) + IpsOf(v4, false) != []
  }

  /** A positive TTL of a record of the type asked for. */
  predicate HasTtl(reply: Reply, v6: bool, ttl: nat) {
    reply.Answers? && ttl > 0 && exists a :: a in reply.records && Matches(a, v6) && a.ttl == ttl
  }

  predicate SomeTtl(v4: Reply, v6: Reply, ttl: nat) {
    HasTtl(v4, false, ttl) || HasTtl(v6, true, ttl)
  }

  function AtLeastMin(ttl: nat): nat {
    if ttl < MinLife then MinLife else ttl
  }

  /** life == max(60, min(300, every positive TTL of both answers)). */
  ghost predicate IsLifetime(life: nat, v4: Reply, v6: Reply) {
    && MinLife <= life <= MaxLife
    && (forall ttl: nat :: SomeTtl(v4, v6, ttl) ==> life <= AtLeastMin(ttl))
    && (life == MaxLife || exists ttl: nat :: SomeTtl(v4, v6, ttl) && life == AtLeastMin(ttl))
  }

  lemma LifetimeUnique(a: nat, b: nat, v4: Reply, v6: Reply)
    requires IsLifetime(a, v4, v6) && IsLifetime(b, v4, v6)
    ensures a == b
  {
  }

  /** m is the least of 300 and the positive TTLs of the first records. */
  ghost predicate IsLeast(m: nat, reply: Reply, v6: bool) {
    && 0 < m <= MaxLife
    && (forall ttl: nat :: HasTtl(reply, v6, ttl) ==> m <= ttl)
    && (m == MaxLife || HasTtl(reply, v6, m))
  }

  lemma HasTtlNext(records: seq<Answer>, k: nat, v6: bool, ttl: nat)
    requires k < |records|
    ensures HasTtl(Answers(records[..k + 1]), v6, ttl)
       <==> HasTtl(Answers(records[..k]), v6, ttl) || (Matches(records[k], v6) && records[k].ttl == ttl && ttl > 0)
  {
    assert records[..k + 1] == records[..k] + [records[k]];
  }

  lemma LeastNext(records: seq<Answer>, k: nat, v6: bool, m: nat)
    requires k < |records| && IsLeast(m, Answers(records[..k]), v6)
    ensures var ttl := records[k].ttl;
      IsLeast(if Matches(records[k], v6) && 0 < ttl < m then ttl else m, Answers(records[..k + 1]), v6)
  {
    var next := if Matches(records[k], v6) && 0 < records[k].ttl < m then records[k].ttl else m;
    var longer := Answers(records[..k + 1]);
    HasTtlNext(records, k, v6, next);
    forall ttl: nat | HasTtl(longer, v6, ttl) ensures next <= ttl {
      HasTtlNext(records, k, v6, ttl);
    }
  }

  /** Reads one answer section: the addresses, and the least TTL that counts. */
  method ReadReply(reply: Reply, v6: bool) returns (ips: seq<Addr>, minTtl: nat)
    ensures ips == IpsOf(reply, v6)
    ensures IsLeast(minTtl, reply, v6)
  {
    if reply.NoReply? {
      return [], MaxLife;
    }
    ips, minTtl := [], MaxLife;
    var records := reply.records;
    for k := 0 to |records|
      invariant ips == Addresses(records[..k], v6)
      invariant IsLeast(minTtl, Answers(records[..k]), v6)
    {
      assert records[..k + 1][..k] == records[..k];
      LeastNext(records, k, v6, minTtl);
      var a := records[k];
      if Matches(a, v6) {
        ips := ips + [a.ip];
        if 0 < a.ttl < minTtl {
          minTtl := a.ttl;
        }
      }
    }
    assert records[..|records|] == records;
  }

  class Cache {
    var entries: map<string, Entry>

    constructor ()
      ensures entries == map[]
    {
      entries := map[];
    }

    /** One flight: merges both answers, IPv6 addresses first, and stores them under the domain. */
    method RawQuery(domain: string, v4: Reply, v6: Reply, now: int) returns (r: Option<seq<Addr>>)
      modifies this
      ensures r.Some? <==> Succeeds(v4, v6)
      ensures r.None? ==> entries == old(entries)
      ensures r.Some? ==> r.value == IpsOf(v6, true) + IpsOf(v4, false)
      ensures r.Some? ==> exists life: nat ::
        && IsLifetime(life, v4, v6)
        && entries == old(entries)[domain := Entry(r.value, now + life, now + life + StaleFor)]
    {
      var ipsV4, ttlV4 := ReadReply(v4, false);
      var ipsV6, ttlV6 := ReadReply(v6, true);
      var all := [];
      if |ipsV6| > 0 {
        all := all + ipsV6;
      }
      if |ipsV4| > 0 {
        all := all + ipsV4;
      }
      if |all| == 0 {
        return None;
      }
      var minTtl := ttlV4;
      if |ipsV6| > 0 && ttlV6 < minTtl {
        minTtl := ttlV6;
      }
      var ttl := minTtl;
      if ttl < MinLife {
        ttl := MinLife;
      }
      if ttl > MaxLife {
        ttl := MaxLife;
      }
      LifetimeOf(v4, v6, ttlV4, ttlV6, minTtl);
      assert IsLifetime(ttl, v4, v6);
      entries := entries[domain := Entry(all, now + ttl, now + ttl + StaleFor)];
      return Some(all);
    }

    /** Drops exactly the entries past their stale time. */
    method Clean(now: int)
      modifies this
      ensures entries == map d | d in old(entries) && now <= old(entries)[d].staleAt :: old(entries)[d]
    {
      var todo := entries.Keys;
      while todo != {}
        invariant todo <= entries.Keys <= old(entries).Keys
        invariant forall d :: d in entries ==> entries[d] == old(entries)[d]
        invariant forall d :: d in old(entries) && d !in todo ==> (d in entries <==> now <= old(entries)[d].staleAt)
        decreases todo
      {
        var d :| d in todo;
        if now > entries[d].staleAt {
          entries := entries - {d};
        }
        todo := todo - {d};
      }
    }

    method Clear()
      modifies this
      ensures entries == map[]
    {
      var todo := entries.Keys;
      while todo != {}
        invariant entries.Keys == todo
        decreases todo
      {
        var d :| d in todo;
        entries := entries - {d};
        todo := todo - {d};
      }
    }

    /** The number of entries that can still be answered from. */
    method Count(now: int) returns (n: nat)
      ensures n == |Usable(entries, now)|
    {
      n := 0;
      var todo, seen: set<string> := entries.Keys, {};
      while todo != {}
        invariant todo !! seen && todo + seen == entries.Keys
        invariant n == |set d | d in seen && now < entries[d].staleAt|
        decreases todo
      {
        var d :| d in todo;
        ghost var before := set e | e in seen && now < entries[e].staleAt;
        ghost var after := set e | e in seen + {d} && now < entries[e].staleAt;
        if now < entries[d].staleAt {
          n := n + 1;
          assert after == before + {d};
        } else {
          assert after == before;
        }
        todo, seen := todo - {d}, seen + {d};
      }
      assert seen == entries.Keys;
      assert Usable(entries, now) == set d | d in seen && now < entries[d].staleAt;
    }

    /** A lookup with nobody else about: a literal address is its own answer, a blocked name none; otherwise
        the cache answers before the stale time, and from the expiry on a flight follows; past the stale
        time the flight answers. The flight, if any, gets these replies at time `later`. */
    method LookupIp(domain: string, literal: Option<Addr>, blocked: bool, now: int, v4: Reply, v6: Reply, later: int)
      returns (r: Option<seq<Addr>>)
      modifies this
      ensures literal.Some? ==> r == Some([literal.value]) && entries == old(entries)
      ensures literal.None? && blocked ==> r == None && entries == old(entries)
      ensures literal.None? && !blocked ==>
        var e := old(entries);
        && (domain in e && now < e[domain].expiresAt ==> r == Some(e[domain].ips) && entries == e)
        && (domain in e && e[domain].expiresAt <= now < e[domain].staleAt ==> r == Some(e[domain].ips))
        && (!(domain in e && (now < e[domain].expiresAt || now < e[domain].staleAt)) ==>
              r == if Succeeds(v4, v6) then Some(IpsOf(v6, true) + IpsOf(v4, false)) else None)
        && (!(domain in e && now < e[domain].expiresAt) && Succeeds(v4, v6) ==> exists life: nat ::
              && IsLifetime(life, v4, v6)
              && entries == e[domain := Entry(IpsOf(v6, true) + IpsOf(v4, false), later + life, later + life + StaleFor)])
        && (!Succeeds(v4, v6) ==> entries == e)
    {
      if literal.Some? {
        return Some([literal.value]);
      }
      if blocked {
        return None;
      }
      if domain in entries {
        var entry := entries[domain];
        if now < entry.expiresAt {
          return Some(entry.ips);
        }
        if now < entry.staleAt {
          var refreshed := RawQuery(domain, v4, v6, later);
          return Some(entry.ips);
        }
      }
      r := RawQuery(domain, v4, v6, later);
    }
  }

  /** The domains a lookup at time `now` is answered for from the cache. */
  function Usable(entries: map<string, Entry>, now: int): set<string> {
    set d | d in entries && now < entries[d].staleAt
  }

  lemma LifetimeOf(v4: Reply, v6: Reply, ttlV4: nat, ttlV6: nat, minTtl: nat)
    requires IsLeast(ttlV4, v4, false) && IsLeast(ttlV6, v6, true)
    requires minTtl == if |IpsOf(v6, true)| > 0 && ttlV6 < ttlV4 then ttlV6 else ttlV4
    ensures IsLifetime(AtLeastMin(minTtl), v4, v6)
  {
    forall ttl: nat | HasTtl(v6, true, ttl) ensures |IpsOf(v6, true)| > 0 {
      var a :| a in v6.records && Matches(a, true) && a.ttl == ttl;
      InAddresses(v6.records, true, a);
    }
    if minTtl != MaxLife {
      assert SomeTtl(v4, v6, minTtl);
    }
  }

  lemma {:induction false} InAddresses(records: seq<Answer>, v6: bool, a: Answer)
    requires a in records && Matches(a, v6)
    ensures a.ip in Addresses(records, v6)
  {
    if a != records[|records| - 1] {
      InAddresses(records[..|records| - 1], v6, a);
    }
  }
}
