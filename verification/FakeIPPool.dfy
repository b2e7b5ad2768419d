/** The FakeIP pool as one goroutine at a time sees it: two sharded maps over shared records, a cursor for
    each subnet, the expiry sweep, and persistence. */
module FakeIPPool {
  import opened Basics
  import opened Net
  import opened Cursor
  import opened Shards

  /** A domain's record. One object serves the domain's entry and the entries of all its addresses, so
      renewing it through either map renews it for both. */
  class Record {
    const ips: seq<Addr>
    const domain: string
    var expiresAt: int

    constructor (ips: seq<Addr>, domain: string, expiresAt: int)
      ensures this.ips == ips && this.domain == domain && this.expiresAt == expiresAt
    {
      this.ips, this.domain, this.expiresAt := ips, domain, expiresAt;
    }
  }

  datatype SavedRecord = SavedRecord(ips: seq<Addr>, domain: string, expiresAt: int)

  /** What the persistence file holds. */
  datatype PersistState =
    PersistState(v4Currents: seq<Addr>, v6Currents: seq<Addr>, records: map<string, SavedRecord>)

  /** The two maps agree: a domain's record names that domain and is the record of each of its addresses,
      and an address's record lists that address and is the record of its domain. */
  ghost predicate Agree(host: map<string, Record>, ip: map<Addr, Record>) {
    && (forall d :: d in host ==> host[d].domain == d && host[d].ips != [])
    && (forall d, a :: d in host && a in host[d].ips ==> a in ip && ip[a] == host[d])
    && (forall a :: a in ip ==> a in ip[a].ips && ip[a].domain in host && host[ip[a].domain] == ip[a])
  }

  /** While the maps agree, an address is looked up to a domain exactly when that domain's record lists it,
      so no address is held by two domains. */
  lemma LookupInverse(host: map<string, Record>, ip: map<Addr, Record>, a: Addr, d: string)
    requires Agree(host, ip)
    ensures a in ip && ip[a].domain == d <==> d in host && a in host[d].ips
    ensures forall e :: d in host && e in host && a in host[d].ips && a in host[e].ips ==> d == e
  {
  }

  /** The address map once `rec` is the record of every address in s. */
  ghost function WithRecord(ip: map<Addr, Record>, s: seq<Addr>, rec: Record): map<Addr, Record> {
    ip + map a | a in s :: rec
  }

  lemma WithOneMore(ip: map<Addr, Record>, s: seq<Addr>, a: Addr, rec: Record)
    ensures WithRecord(ip, s + [a], rec) == WithRecord(ip, s, rec)[a := rec]
  {
  }

  /** A domain gets a record whose addresses were free: the maps still agree. */
  lemma AgreeInsert(host: map<string, Record>, ip: map<Addr, Record>, rec: Record)
    requires Agree(host, ip) && rec.domain !in host && rec.ips != []
    requires forall a :: a in rec.ips ==> a !in ip
    ensures Agree(host[rec.domain := rec], WithRecord(ip, rec.ips, rec))
  {
  }

  /** The address map after the first n shards are swept of the dead records. */
  ghost function SweptIps(ip: map<Addr, Record>, dead: set<Record>, n: nat): map<Addr, Record> {
    map a | a in ip && !(IpShard(a) < n && ip[a] in dead) :: ip[a]
  }

  /** The sweep deletes domain d: an address of a dead record of d lies in an address shard whose index is
      also the index of d's host shard. */
  ghost predicate SweepHits(ip: map<Addr, Record>, dead: set<Record>, n: nat, d: string) {
    exists a :: a in ip && IpShard(a) == HostShard(d) < n && ip[a] in dead && ip[a].domain == d
  }

  /** The host map after the same: the code deletes a domain only from the host shard with the index of the
      ADDRESS shard being swept. */
  ghost function SweptHost(host: map<string, Record>, ip: map<Addr, Record>, dead: set<Record>, n: nat)
    : map<string, Record>
  {
    map d | d in host && !SweepHits(ip, dead, n, d) :: host[d]
  }

  /** The host map had the domain been deleted from its own shard. */
  ghost function RehashedHost(host: map<string, Record>, ip: map<Addr, Record>, dead: set<Record>): map<string, Record> {
    map d | d in host && !(exists a :: a in ip && ip[a] in dead && ip[a].domain == d) :: host[d]
  }

  /** Some address of the record shares its shard index with the record's domain. */
  ghost predicate Aligned(rec: Record) {
    exists a :: a in rec.ips && IpShard(a) == HostShard(rec.domain)
  }

  /** The sweep as written keeps the maps in agreement exactly when every dead record is aligned. A dead
      record that is not keeps its domain's entry, and none of that entry's addresses can be looked up
      any more. */
  lemma SweepKeepsAgreementIff(host: map<string, Record>, ip: map<Addr, Record>, dead: set<Record>)
    requires Agree(host, ip) && dead <= ip.Values
    ensures Agree(SweptHost(host, ip, dead, ShardCount), SweptIps(ip, dead, ShardCount))
       <==> forall rec :: rec in dead ==> Aligned(rec)
    ensures forall rec :: rec in dead && !Aligned(rec) ==>
      && rec.domain in SweptHost(host, ip, dead, ShardCount)
      && forall a :: a in rec.ips ==> a !in SweptIps(ip, dead, ShardCount)
  {
    if exists rec :: rec in dead && !Aligned(rec) {
      SweepLeaves(host, ip, dead);
    } else {
      AlignedSweep(host, ip, dead);
    }
  }

  /** A dead record that is not aligned keeps its domain's entry, without addresses. */
  lemma SweepLeaves(host: map<string, Record>, ip: map<Addr, Record>, dead: set<Record>)
    requires Agree(host, ip) && dead <= ip.Values
    ensures forall rec :: rec in dead && !Aligned(rec) ==>
      && rec.domain in SweptHost(host, ip, dead, ShardCount)
      && forall a :: a in rec.ips ==> a !in SweptIps(ip, dead, ShardCount)
    ensures (exists rec :: rec in dead && !Aligned(rec)) ==>
      !Agree(SweptHost(host, ip, dead, ShardCount), SweptIps(ip, dead, ShardCount))
  {
    forall rec | rec in dead && !Aligned(rec)
      ensures rec.domain in SweptHost(host, ip, dead, ShardCount)
      ensures forall a :: a in rec.ips ==> a !in SweptIps(ip, dead, ShardCount)
      ensures !Agree(SweptHost(host, ip, dead, ShardCount), SweptIps(ip, dead, ShardCount))
    {
      DeadRecord(host, ip, dead, rec);
      assert rec.ips[0] in rec.ips;
    }
  }

  lemma AlignedSweep(host: map<string, Record>, ip: map<Addr, Record>, dead: set<Record>)
    requires Agree(host, ip) && dead <= ip.Values
    requires forall rec :: rec in dead ==> Aligned(rec)
    ensures Agree(SweptHost(host, ip, dead, ShardCount), SweptIps(ip, dead, ShardCount))
  {
    var host' := SweptHost(host, ip, dead, ShardCount);
    forall d | d in host ensures d in host' <==> host[d] !in dead {
      if host[d] in dead {
        DeadRecord(host, ip, dead, host[d]);
      } else {
        LiveIsMissed(host, ip, dead, d);
      }
    }
    LiveAgree(host, host', ip, dead);
  }

  lemma LiveIsMissed(host: map<string, Record>, ip: map<Addr, Record>, dead: set<Record>, d: string)
    requires Agree(host, ip) && d in host && host[d] !in dead
    ensures !SweepHits(ip, dead, ShardCount, d)
  {
  }

  lemma DeadRecord(host: map<string, Record>, ip: map<Addr, Record>, dead: set<Record>, rec: Record)
    requires Agree(host, ip) && dead <= ip.Values && rec in dead
    ensures rec.domain in host && host[rec.domain] == rec && rec.ips != []
    ensures forall a :: a in rec.ips ==> a in ip && ip[a] == rec && a !in SweptIps(ip, dead, ShardCount)
    ensures rec.domain in SweptHost(host, ip, dead, ShardCount) <==> !Aligned(rec)
  {
    var a :| a in ip && ip[a] == rec;
    AlignedIsHit(host, ip, dead, rec);
  }

  lemma AlignedIsHit(host: map<string, Record>, ip: map<Addr, Record>, dead: set<Record>, rec: Record)
    requires Agree(host, ip) && rec in dead && rec.domain in host && host[rec.domain] == rec
    ensures SweepHits(ip, dead, ShardCount, rec.domain) <==> Aligned(rec)
  {
    if Aligned(rec) {
      var b :| b in rec.ips && IpShard(b) == HostShard(rec.domain);
      assert b in ip && ip[b] == rec;
    }
  }

  /** Dropping the dead records' domains, and no other, keeps the maps in agreement. */
  lemma LiveAgree(host: map<string, Record>, host': map<string, Record>, ip: map<Addr, Record>, dead: set<Record>)
    requires Agree(host, ip)
    requires forall d :: d in host' <==> d in host && host[d] !in dead
    requires forall d :: d in host' ==> host'[d] == host[d]
    ensures Agree(host', SweptIps(ip, dead, ShardCount))
  {
  }

  /** Deleting a domain from its own shard always keeps the maps in agreement. */
  lemma RehashedSweepKeepsAgreement(host: map<string, Record>, ip: map<Addr, Record>, dead: set<Record>)
    requires Agree(host, ip) && dead <= ip.Values
    ensures Agree(RehashedHost(host, ip, dead), SweptIps(ip, dead, ShardCount))
  {
    forall d | d in host
      ensures host[d] in dead <==> exists a :: a in ip && ip[a] in dead && ip[a].domain == d
    {
      var a := host[d].ips[0];
      assert a in ip && ip[a] == host[d];
    }
    LiveAgree(host, RehashedHost(host, ip, dead), ip, dead);
  }

  /** Every position after the cursor's and up to c was found taken. */
  ghost predicate TakenUpTo(p: Prefix, cur: Addr, taken: set<Addr>, c: int)
    requires Usable(p) && p.Contains(cur)
  {
    forall e :: Coord(p, cur) < e <= c ==> OnLine(p, e) && VisitAt(p, e) in taken
  }

  /** a is the first free address after the cursor in cyclic order. */
  ghost predicate FirstFree(p: Prefix, cur: Addr, taken: set<Addr>, a: Addr) {
    && Usable(p) && p.Contains(cur) && a !in taken
    && exists d :: Coord(p, cur) < d && OnLine(p, d) && VisitAt(p, d) == a && TakenUpTo(p, cur, taken, d - 1)
  }

  lemma FirstFreeInside(p: Prefix, cur: Addr, taken: set<Addr>, a: Addr)
    requires FirstFree(p, cur, taken, a)
    ensures p.Contains(a) && a != p.addr && a.Unmap() == a
  {
    var d :| Coord(p, cur) < d && OnLine(p, d) && VisitAt(p, d) == a && TakenUpTo(p, cur, taken, d - 1);
    VisitInside(p, d);
  }

  /** Each cursor stands inside its subnet. */
  ghost predicate CursorsOk(prefixes: seq<Prefix>, cursors: seq<Addr>) {
    && |prefixes| == |cursors|
    && forall i :: 0 <= i < |prefixes| ==> Sound(prefixes[i]) && prefixes[i].Contains(cursors[i])
  }

  /** The first |picked| subnets have been served. */
  ghost predicate Served(prefixes: seq<Prefix>, cursors: seq<Addr>, taken: set<Addr>, picked: seq<Addr>)
    requires CursorsOk(prefixes, cursors)
  {
    && |picked| <= |prefixes|
    && forall i :: 0 <= i < |picked| ==> FirstFree(prefixes[i], cursors[i], taken, picked[i])
  }

  /** Each of `picked` is the first free address of its subnet. */
  ghost predicate AllFirstFree(prefixes: seq<Prefix>, cursors: seq<Addr>, taken: set<Addr>, picked: seq<Addr>)
    requires CursorsOk(prefixes, cursors)
  {
    |picked| == |prefixes| && Served(prefixes, cursors, taken, picked)
  }

  lemma ServeNext(prefixes: seq<Prefix>, cursors: seq<Addr>, taken: set<Addr>, picked: seq<Addr>, a: Addr)
    requires CursorsOk(prefixes, cursors) && Served(prefixes, cursors, taken, picked) && |picked| < |prefixes|
    requires FirstFree(prefixes[|picked|], cursors[|picked|], taken, a)
    ensures Served(prefixes, cursors, taken, picked + [a])
  {
  }

  /** In each subnet the loop started at the cursor can stop. */
  predicate RoomIn(prefixes: seq<Prefix>, cursors: seq<Addr>, taken: set<Addr>) {
    |cursors| == |prefixes| && forall i :: 0 <= i < |prefixes| ==> CanStop(prefixes[i], cursors[i], taken)
  }

  /** Address a belongs to one of the subnets. */
  predicate InSome(prefixes: seq<Prefix>, a: Addr) {
    exists i :: 0 <= i < |prefixes| && prefixes[i].Valid() && prefixes[i].Contains(a)
  }

  /** Cursor i after a load: the saved one when its subnet still contains it and the number of subnets is
      the same, otherwise the one already there. */
  function RestoredCursor(prefixes: seq<Prefix>, saved: seq<Addr>, i: nat, current: Addr): Addr
    requires i < |prefixes| && prefixes[i].Valid()
  {
    if |saved| == |prefixes| && prefixes[i].Contains(saved[i]) then saved[i] else current
  }

  /** Cursor i of a new pool. */
  function StartCursor(prefixes: seq<Prefix>, file: Option<PersistState>, v6: bool, i: nat): Addr
    requires i < |prefixes| && prefixes[i].Valid()
  {
    match file
    case None => prefixes[i].addr
    case Some(f) => RestoredCursor(prefixes, if v6 then f.v6Currents else f.v4Currents, i, prefixes[i].addr)
  }

  predicate SoundPrefixes(prefixes: seq<Prefix>) {
    forall i :: 0 <= i < |prefixes| ==> Sound(prefixes[i])
  }

  /** The listed addresses that belong to one of the subnets. */
  function Kept(prefixes: seq<Prefix>, s: seq<Addr>): seq<Addr> {
    if s == [] then []
    else
      var front, a := Kept(prefixes, s[..|s| - 1]), s[|s| - 1].Unmap();
      if InSome(prefixes, a) then front + [a] else front
  }

  lemma {:induction false} KeptFrom(prefixes: seq<Prefix>, s: seq<Addr>, a: Addr) returns (b: Addr)
    requires a in Kept(prefixes, s)
    ensures InSome(prefixes, a) && b in s && b.Unmap() == a
  {
    b := s[|s| - 1];
    if b.Unmap() != a || !InSome(prefixes, a) {
      b := KeptFrom(prefixes, s[..|s| - 1], a);
    }
  }

  lemma KeptMembers(prefixes: seq<Prefix>, s: seq<Addr>)
    ensures forall a :: a in Kept(prefixes, s) ==> Placed(prefixes, a)
  {
    forall a | a in Kept(prefixes, s) ensures Placed(prefixes, a) {
      var b := KeptFrom(prefixes, s, a);
    }
  }

  lemma {:induction false} KeptAll(prefixes: seq<Prefix>, s: seq<Addr>)
    requires forall a :: a in s ==> Placed(prefixes, a)
    ensures Kept(prefixes, s) == s
  {
    if s != [] {
      assert Placed(prefixes, s[|s| - 1]);
      KeptAll(prefixes, s[..|s| - 1]);
    }
  }

  /** A saved record that survives a load at time `now`. */
  predicate Survives(prefixes: seq<Prefix>, rec: SavedRecord, now: int) {
    now <= rec.expiresAt && Kept(prefixes, rec.ips) != []
  }

  /** The saved records name their own domains and share no address. */
  ghost predicate SavedAgree(records: map<string, SavedRecord>) {
    && (forall d :: d in records ==> records[d].domain == d)
    && (forall d, e, a, b ::
          (d in records && e in records && a in records[d].ips && b in records[e].ips && a.Unmap() == b.Unmap())
          ==> d == e)
  }

  /** The maps hold the surviving ones among the `done` records, and nothing else. */
  ghost predicate LoadedMaps(prefixes: seq<Prefix>, records: map<string, SavedRecord>, now: int, done: set<string>,
                             host: map<string, Record>, ip: map<Addr, Record>)
  {
    && (forall d :: d in host <==> d in records && d in done && Survives(prefixes, records[d], now))
    && (forall d :: d in host ==> host[d].ips == Kept(prefixes, records[d].ips) && host[d].domain == records[d].domain)
    && (forall d, a :: d in host && a in host[d].ips ==> a in ip)
    && (forall a :: a in ip ==> a in ip[a].ips && exists d :: d in host && host[d] == ip[a])
  }

  /** And they expire as saved. */
  ghost predicate Loaded(prefixes: seq<Prefix>, records: map<string, SavedRecord>, now: int, done: set<string>,
                         host: map<string, Record>, ip: map<Addr, Record>)
    reads host.Values
  {
    && LoadedMaps(prefixes, records, now, done, host, ip)
    && forall d :: d in host ==> host[d].expiresAt == records[d].expiresAt
  }

  /** Loading disjoint records yields maps that agree, whatever order they were taken in. */
  lemma LoadedAgrees(prefixes: seq<Prefix>, records: map<string, SavedRecord>, now: int, done: set<string>,
                     host: map<string, Record>, ip: map<Addr, Record>)
    requires LoadedMaps(prefixes, records, now, done, host, ip) && SavedAgree(records)
    ensures Agree(host, ip)
  {
    forall d, a | d in host && a in host[d].ips ensures ip[a] == host[d] {
      var e :| e in host && host[e] == ip[a];
      var x := KeptFrom(prefixes, records[d].ips, a);
      var y := KeptFrom(prefixes, records[e].ips, a);
    }
  }

  /** The addresses of one version. */
  function OfVersion(s: seq<Addr>, v4: bool): seq<Addr> {
    if s == [] then []
    else
      var front, a := OfVersion(s[..|s| - 1], v4), s[|s| - 1];
      if (if v4 then a.V4? else a.V6?) then front + [a] else front
  }

  /** No address of the record is lost or duplicated between the two parts. */
  lemma {:induction false} VersionsPartition(s: seq<Addr>)
    requires forall a :: a in s ==> !a.Invalid?
    ensures multiset(OfVersion(s, true)) + multiset(OfVersion(s, false)) == multiset(s)
  {
    if s != [] {
      VersionsPartition(s[..|s| - 1]);
      Unsnoc(s);
    }
  }

  /** The address is in the form the maps use and belongs to one of the subnets. */
  predicate Placed(prefixes: seq<Prefix>, a: Addr) {
    a.Unmap() == a && InSome(prefixes, a)
  }

  class Pool {
    const v4Prefixes: seq<Prefix>
    const v6Prefixes: seq<Prefix>
    const ttl: int
    var hostShards: seq<map<string, Record>>
    var ipShards: seq<map<Addr, Record>>
    var v4Currents: seq<Addr>
    var v6Currents: seq<Addr>
    var dirty: bool
    ghost var host: map<string, Record>
    ghost var ips: map<Addr, Record>

    ghost function Prefixes(): seq<Prefix> { v4Prefixes + v6Prefixes }

    ghost function Records(): set<Record>
      reads this
    {
      host.Values + ips.Values
    }

    /** What every operation keeps, the sweep included. */
    ghost predicate Valid()
      reads this
    {
      && HostUnion(host, hostShards) && IpUnion(ips, ipShards)
      && Prefixes() != []
      && CursorsOk(v4Prefixes, v4Currents) && CursorsOk(v6Prefixes, v6Currents)
      && (forall a {:trigger Placed(Prefixes(), a)} :: a in ips ==> Placed(Prefixes(), a))
    }

    ghost predicate Agreed()
      reads this
    {
      Agree(host, ips)
    }

    /** In each subnet the cursor has a free address to come to; without one the allocation loop would not
        stop. */
    ghost predicate HasRoom()
      reads this
    {
      RoomIn(v4Prefixes, v4Currents, ips.Keys) && RoomIn(v6Prefixes, v6Currents, ips.Keys)
    }

    /** The lookup in the shard a domain hashes to decides whether it has a record at all. */
    method Knows(name: string) returns (known: bool)
      requires Valid()
      ensures known <==> TrimDot(name) in host
    {
      known := TrimDot(name) in hostShards[HostShard(TrimDot(name))];
    }

    /** Whether the allocation loop would stop in every subnet. */
    method FindRoom() returns (room: bool)
      requires Valid()
      ensures room <==> HasRoom()
    {
      var taken := set i, a | 0 <= i < |ipShards| && a in ipShards[i] :: a;
      assert taken == ips.Keys by {
        forall a | a in ips ensures a in taken {
          assert a in ipShards[IpShard(a)];
        }
      }
      room := RoomIn(v4Prefixes, v4Currents, taken) && RoomIn(v6Prefixes, v6Currents, taken);
    }

    /** The lookup in the shard an address hashes to decides whether it has a record at all. */
    method Occupied(a: Addr, ghost taken: set<Addr>) returns (found: bool)
      requires Valid() && taken == ips.Keys
      ensures found <==> a in taken
    {
      found := a in ipShards[IpShard(a)];
    }

    /** The head of the allocation loop: advance, wrap at the end of the prefix, skip the configured
        address. */
    static method Advance(p: Prefix, cur: Addr, ghost start: Addr, ghost c: int) returns (next: Addr)
      requires Usable(p) && p.Contains(start) && Coord(p, start) <= c && AtVisit(p, start, c, cur)
      ensures OnLine(p, c + 1) && next == VisitAt(p, c + 1)
    {
      NextVisit(p, start, c, cur);
      next := cur.Next().Unmap();
      if !p.Contains(next) {
        next := p.addr.Unmap();
        next := next.Next().Unmap();
      }
      if next == p.addr.Unmap() {
        next := next.Next().Unmap();
      }
    }

    /** The allocation loop of one subnet. */
    method NextForSubnet(p: Prefix, start: Addr) returns (cur: Addr)
      requires Valid() && CanStop(p, start, ips.Keys)
      ensures FirstFree(p, start, ips.Keys, cur)
    {
      ghost var taken := ips.Keys;
      ghost var c0 := Coord(p, start);
      ghost var stop := StopAhead(p, start, taken);
      ghost var c := c0;
      cur := start;
      while true
        invariant c0 <= c < stop && AtVisit(p, start, c, cur)
        invariant TakenUpTo(p, start, taken, c)
        decreases stop - c
      {
        cur := Advance(p, cur, start, c);
        c := c + 1;
        var occupied := Occupied(cur, taken);
        if !occupied {
          break;
        }
      }
    }

    method NextV4ForSubnet(idx: nat) returns (a: Addr)
      requires Valid() && idx < |v4Prefixes| && CanStop(v4Prefixes[idx], v4Currents[idx], ips.Keys)
      modifies `v4Currents
      ensures Valid() && v4Currents == old(v4Currents)[idx := a]
      ensures FirstFree(v4Prefixes[idx], old(v4Currents[idx]), ips.Keys, a)
    {
      a := NextForSubnet(v4Prefixes[idx], v4Currents[idx]);
      FirstFreeInside(v4Prefixes[idx], v4Currents[idx], ips.Keys, a);
      v4Currents := v4Currents[idx := a];
    }

    method NextV6ForSubnet(idx: nat) returns (a: Addr)
      requires Valid() && idx < |v6Prefixes| && CanStop(v6Prefixes[idx], v6Currents[idx], ips.Keys)
      modifies `v6Currents
      ensures Valid() && v6Currents == old(v6Currents)[idx := a]
      ensures FirstFree(v6Prefixes[idx], old(v6Currents[idx]), ips.Keys, a)
    {
      a := NextForSubnet(v6Prefixes[idx], v6Currents[idx]);
      FirstFreeInside(v6Prefixes[idx], v6Currents[idx], ips.Keys, a);
      v6Currents := v6Currents[idx := a];
    }

    method AllocateV4() returns (picked: seq<Addr>)
      requires Valid() && RoomIn(v4Prefixes, v4Currents, ips.Keys)
      modifies `v4Currents
      ensures Valid() && picked == v4Currents
      ensures AllFirstFree(v4Prefixes, old(v4Currents), ips.Keys, picked)
    {
      picked := [];
      ghost var start, taken := v4Currents, ips.Keys;
      for i := 0 to |v4Prefixes|
        invariant Valid() && |picked| == i
        invariant forall k :: 0 <= k < |start| ==> v4Currents[k] == if k < i then picked[k] else start[k]
        invariant Served(v4Prefixes, start, taken, picked)
      {
        var a := NextV4ForSubnet(i);
        ServeNext(v4Prefixes, start, taken, picked, a);
        picked := picked + [a];
      }
    }

    method AllocateV6() returns (picked: seq<Addr>)
      requires Valid() && RoomIn(v6Prefixes, v6Currents, ips.Keys)
      modifies `v6Currents
      ensures Valid() && picked == v6Currents
      ensures AllFirstFree(v6Prefixes, old(v6Currents), ips.Keys, picked)
    {
      picked := [];
      ghost var start, taken := v6Currents, ips.Keys;
      for i := 0 to |v6Prefixes|
        invariant Valid() && |picked| == i
        invariant forall k :: 0 <= k < |start| ==> v6Currents[k] == if k < i then picked[k] else start[k]
        invariant Served(v6Prefixes, start, taken, picked)
      {
        var a := NextV6ForSubnet(i);
        ServeNext(v6Prefixes, start, taken, picked, a);
        picked := picked + [a];
      }
    }

    method PutIp(a: Addr, rec: Record)
      requires IpUnion(ips, ipShards)
      modifies `ipShards, `ips
      ensures IpUnion(ips, ipShards) && ips == old(ips)[a := rec]
    {
      var ipIdx := IpShard(a);
      IpPut(ips, ipShards, a, rec);
      ipShards := ipShards[ipIdx := ipShards[ipIdx][a := rec]];
      ips := ips[a := rec];
    }

    /** The record becomes the record of each of its addresses. */
    method InsertIps(rec: Record)
      requires IpUnion(ips, ipShards)
      requires forall a :: a in rec.ips ==> a.Unmap() == a
      modifies `ipShards, `ips
      ensures IpUnion(ips, ipShards) && ips == WithRecord(old(ips), rec.ips, rec)
    {
      for k := 0 to |rec.ips|
        invariant IpUnion(ips, ipShards) && ips == WithRecord(old(ips), rec.ips[..k], rec)
      {
        WithOneMore(old(ips), rec.ips[..k], rec.ips[k], rec);
        assert rec.ips[..k] + [rec.ips[k]] == rec.ips[..k + 1];
        PutIp(rec.ips[k].Unmap(), rec);
      }
      assert rec.ips[..|rec.ips|] == rec.ips;
    }

    /** One address from each subnet, IPv4 subnets first; what the source does under its cursor lock. */
    method Allocate() returns (newIPs: seq<Addr>)
      requires Valid() && HasRoom()
      modifies `v4Currents, `v6Currents
      ensures Valid() && newIPs == v4Currents + v6Currents
      ensures AllFirstFree(v4Prefixes, old(v4Currents), ips.Keys, v4Currents)
      ensures AllFirstFree(v6Prefixes, old(v6Currents), ips.Keys, v6Currents)
    {
      var v4 := AllocateV4();
      var v6 := AllocateV6();
      newIPs := v4 + v6;
    }

    method PutHost(domain: string, rec: Record)
      requires HostUnion(host, hostShards)
      modifies `hostShards, `host
      ensures HostUnion(host, hostShards) && host == old(host)[domain := rec]
    {
      var hIdx := HostShard(domain);
      HostPut(host, hostShards, domain, rec);
      hostShards := hostShards[hIdx := hostShards[hIdx][domain := rec]];
      host := host[domain := rec];
    }

    /** The record is entered under a domain, then under each of its addresses. */
    method Enter(domain: string, rec: Record)
      requires Valid() && forall a :: a in rec.ips ==> Placed(Prefixes(), a)
      modifies `hostShards, `host, `ipShards, `ips
      ensures Valid() && host == old(host)[domain := rec] && ips == WithRecord(old(ips), rec.ips, rec)
      ensures Records() <= old(Records()) + {rec}
    {
      PutHost(domain, rec);
      InsertIps(rec);
    }

    /** A miss: allocate, then enter the new record. */
    method AddRecord(domain: string, now: int) returns (newIPs: seq<Addr>)
      requires Valid() && HasRoom() && domain !in host
      modifies this
      ensures Valid() && newIPs == v4Currents + v6Currents
      ensures AllFirstFree(v4Prefixes, old(v4Currents), old(ips).Keys, v4Currents)
      ensures AllFirstFree(v6Prefixes, old(v6Currents), old(ips).Keys, v6Currents)
      ensures domain in host && fresh(host[domain]) && host[domain].expiresAt == now + ttl
      ensures host[domain].ips == newIPs && host[domain].domain == domain
      ensures host == old(host)[domain := host[domain]]
      ensures ips == WithRecord(old(ips), newIPs, host[domain])
      ensures forall a :: a in newIPs ==> a !in old(ips)
    {
      newIPs := Allocate();
      PickedAreNew(v4Prefixes, old(v4Currents), ips.Keys, v4Currents);
      PickedAreNew(v6Prefixes, old(v6Currents), ips.Keys, v6Currents);
      forall a | a in newIPs ensures Placed(Prefixes(), a) {
        InSomeAppend(v4Prefixes, v6Prefixes, a);
      }
      var rec := new Record(newIPs, domain, now + ttl);
      Enter(domain, rec);
      dirty := true;
    }

    /** The addresses of a domain: its record's when there is one, renewed; otherwise a new record's. */
    method GetFakeIP(name: string, now: int) returns (answer: seq<Addr>)
      requires Valid() && (TrimDot(name) in host || HasRoom())
      modifies this, Records()
      ensures Valid() && (old(Agreed()) ==> Agreed())
      ensures TrimDot(name) in host && answer == host[TrimDot(name)].ips
      ensures host[TrimDot(name)].expiresAt == now + ttl
      ensures forall r :: r in old(Records()) && r != host[TrimDot(name)] ==> r.expiresAt == old(r.expiresAt)
      ensures TrimDot(name) in old(host) ==>
        host == old(host) && ips == old(ips) && v4Currents == old(v4Currents) && v6Currents == old(v6Currents)
      ensures TrimDot(name) !in old(host) ==>
        && AllFirstFree(v4Prefixes, old(v4Currents), old(ips).Keys, v4Currents)
        && AllFirstFree(v6Prefixes, old(v6Currents), old(ips).Keys, v6Currents)
        && answer == v4Currents + v6Currents
        && (forall a :: a in answer ==> a !in old(ips))
        && fresh(host[TrimDot(name)]) && host[TrimDot(name)].domain == TrimDot(name)
        && host == old(host)[TrimDot(name) := host[TrimDot(name)]]
        && ips == WithRecord(old(ips), answer, host[TrimDot(name)])
    {
      var domain := TrimDot(name);
      var hIdx := HostShard(domain);
      if domain in hostShards[hIdx] {
        var rec := hostShards[hIdx][domain];
        assert host[domain] == rec;
        rec.expiresAt := now + ttl;
        dirty := true;
        answer := rec.ips;
      } else {
        answer := AddRecord(domain, now);
        if old(Agreed()) {
          NewIsAgreed(old(host), old(ips), host[domain]);
        }
      }
    }

    /** The IPv4 part of the domain's record, in order. */
    method GetFakeIPv4(name: string, now: int) returns (answer: seq<Addr>)
      requires Valid() && (TrimDot(name) in host || HasRoom())
      modifies this, Records()
      ensures Valid() && (old(Agreed()) ==> Agreed())
      ensures TrimDot(name) in host && answer == OfVersion(host[TrimDot(name)].ips, true)
      ensures host[TrimDot(name)].expiresAt == now + ttl
      ensures forall r :: r in old(Records()) && r != host[TrimDot(name)] ==> r.expiresAt == old(r.expiresAt)
      ensures TrimDot(name) in old(host) ==>
        host == old(host) && ips == old(ips) && v4Currents == old(v4Currents) && v6Currents == old(v6Currents)
      ensures TrimDot(name) !in old(host) ==>
        && AllFirstFree(v4Prefixes, old(v4Currents), old(ips).Keys, v4Currents)
        && AllFirstFree(v6Prefixes, old(v6Currents), old(ips).Keys, v6Currents)
        && fresh(host[TrimDot(name)]) && host[TrimDot(name)].domain == TrimDot(name)
        && host[TrimDot(name)].ips == v4Currents + v6Currents
        && host == old(host)[TrimDot(name) := host[TrimDot(name)]]
        && ips == WithRecord(old(ips), v4Currents + v6Currents, host[TrimDot(name)])
    {
      var all := GetFakeIP(name, now);
      answer := Only(all, true);
    }

    /** The IPv6 part of the domain's record, in order. */
    method GetFakeIPv6(name: string, now: int) returns (answer: seq<Addr>)
      requires Valid() && (TrimDot(name) in host || HasRoom())
      modifies this, Records()
      ensures Valid() && (old(Agreed()) ==> Agreed())
      ensures TrimDot(name) in host && answer == OfVersion(host[TrimDot(name)].ips, false)
      ensures host[TrimDot(name)].expiresAt == now + ttl
      ensures forall r :: r in old(Records()) && r != host[TrimDot(name)] ==> r.expiresAt == old(r.expiresAt)
      ensures TrimDot(name) in old(host) ==>
        host == old(host) && ips == old(ips) && v4Currents == old(v4Currents) && v6Currents == old(v6Currents)
      ensures TrimDot(name) !in old(host) ==>
        && AllFirstFree(v4Prefixes, old(v4Currents), old(ips).Keys, v4Currents)
        && AllFirstFree(v6Prefixes, old(v6Currents), old(ips).Keys, v6Currents)
        && fresh(host[TrimDot(name)]) && host[TrimDot(name)].domain == TrimDot(name)
        && host[TrimDot(name)].ips == v4Currents + v6Currents
        && host == old(host)[TrimDot(name) := host[TrimDot(name)]]
        && ips == WithRecord(old(ips), v4Currents + v6Currents, host[TrimDot(name)])
    {
      var all := GetFakeIP(name, now);
      answer := Only(all, false);
    }

    static method Only(all: seq<Addr>, v4: bool) returns (part: seq<Addr>)
      ensures part == OfVersion(all, v4)
    {
      part := [];
      for i := 0 to |all|
        invariant part == OfVersion(all[..i], v4)
      {
        assert all[..i + 1][..i] == all[..i];
        if (if v4 then all[i].V4? else all[i].V6?) {
          part := part + [all[i]];
        }
      }
      assert all[..|all|] == all;
    }

    lemma NewIsAgreed(oldHost: map<string, Record>, oldIps: map<Addr, Record>, rec: Record)
      requires Agree(oldHost, oldIps) && rec.domain !in oldHost
      requires rec.ips == v4Currents + v6Currents && rec.ips != []
      requires host == oldHost[rec.domain := rec] && ips == WithRecord(oldIps, rec.ips, rec)
      requires forall a :: a in rec.ips ==> a !in oldIps
      ensures Agreed()
    {
      AgreeInsert(oldHost, oldIps, rec);
    }

    /** The domain of an address, its record renewed. */
    method LookUpAddr(addr: Addr, now: int) returns (r: Option<string>)
      requires Valid()
      modifies `dirty, Records()
      ensures Valid() && (old(Agreed()) ==> Agreed())
      ensures r.Some? <==> addr.Unmap() in ips
      ensures r.Some? ==> r.value == ips[addr.Unmap()].domain && ips[addr.Unmap()].expiresAt == now + ttl
      ensures forall rec :: rec in Records() && (r.Some? ==> rec != ips[addr.Unmap()]) ==>
        rec.expiresAt == old(rec.expiresAt)
    {
      var a := addr.Unmap();
      var ipIdx := IpShard(a);
      if a !in ipShards[ipIdx] {
        return None;
      }
      var rec := ipShards[ipIdx][a];
      assert ips[a] == rec;
      rec.expiresAt := now + ttl;
      dirty := true;
      r := Some(rec.domain);
    }

    /** The metric adds up the shard sizes; that is the number of distinct domains. */
    method UpdateMetricsTotal() returns (count: nat)
      requires Valid()
      ensures count == |host|
    {
      count := 0;
      for i := 0 to ShardCount
        invariant count == SumSizes(hostShards[..i])
      {
        count := count + |hostShards[i]|;
        assert hostShards[..i + 1][..i] == hostShards[..i];
      }
      assert hostShards[..ShardCount] == hostShards;
      SumIsCount(host, hostShards);
    }

    /** One address shard under its lock: what stays, and the domains of what goes. */
    static method SweepShard(shard: map<Addr, Record>, now: int) returns (live: map<Addr, Record>, domains: seq<string>)
      ensures live == map a | a in shard && now <= shard[a].expiresAt :: shard[a]
      ensures forall d :: d in domains <==> exists a :: a in shard && now > shard[a].expiresAt && shard[a].domain == d
    {
      live, domains := shard, [];
      var todo := shard.Keys;
      while todo != {}
        invariant todo <= shard.Keys
        invariant live == map a | a in shard && (a in todo || now <= shard[a].expiresAt) :: shard[a]
        invariant forall d :: d in domains <==>
          exists a :: a in shard && a !in todo && now > shard[a].expiresAt && shard[a].domain == d
      {
        var a :| a in todo;
        todo := todo - {a};
        if now > shard[a].expiresAt {
          live := live - {a};
          domains := domains + [shard[a].domain];
        }
      }
    }

    /** The host shard of the same index under its lock: the listed domains go. */
    static method DeleteDomains(shard: map<string, Record>, domains: seq<string>) returns (left: map<string, Record>)
      ensures left == map d | d in shard && d !in domains :: shard[d]
    {
      left := shard;
      for k := 0 to |domains|
        invariant left == map d | d in shard && d !in domains[..k] :: shard[d]
      {
        left := left - {domains[k]};
      }
    }

    /** The records a sweep at time `now` finds expired. */
    ghost function Dead(now: int): set<Record>
      reads this, Records()
    {
      set a | a in ips && now > ips[a].expiresAt :: ips[a]
    }

    /** The state after the first n shards of a sweep that began with maps host0 and ips0. */
    ghost predicate SweptTo(host0: map<string, Record>, ips0: map<Addr, Record>, dead: set<Record>, n: nat)
      reads this
    {
      Swept(host0, host, hostShards, ips0, ips, ipShards, dead, n)
    }

    /** One turn of the sweep: address shard i, then host shard i. */
    method SweepTurn(i: nat, now: int, ghost host0: map<string, Record>, ghost ips0: map<Addr, Record>,
                     ghost dead: set<Record>)
      requires i < ShardCount && SweptTo(host0, ips0, dead, i)
      requires forall a :: a in ips0 ==> (ips0[a] in dead <==> now > ips0[a].expiresAt)
      modifies `hostShards, `host, `ipShards, `ips, `dirty
      ensures SweptTo(host0, ips0, dead, i + 1)
    {
      var live, domains := SweepShard(ipShards[i], now);
      var left := hostShards[i];
      if domains != [] {
        left := DeleteDomains(hostShards[i], domains);
        dirty := true;
      }
      TurnKeeps(host0, host, hostShards, ips0, ips, ipShards, dead, i, live, left, domains);
      ipShards, hostShards := ipShards[i := live], hostShards[i := left];
      ips, host := SweptIps(ips0, dead, i + 1), SweptHost(host0, ips0, dead, i + 1);
    }

    /** The expiry sweep as written. */
    method CleanExpired(now: int)
      requires Valid()
      modifies `hostShards, `host, `ipShards, `ips, `dirty
      ensures Valid()
      ensures ips == SweptIps(old(ips), old(Dead(now)), ShardCount)
      ensures host == SweptHost(old(host), old(ips), old(Dead(now)), ShardCount)
    {
      ghost var dead := Dead(now);
      SweepAll(now, dead);
    }

    method SweepAll(now: int, ghost dead: set<Record>)
      requires Valid() && dead == Dead(now)
      modifies `hostShards, `host, `ipShards, `ips, `dirty
      ensures SweptTo(old(host), old(ips), dead, ShardCount)
    {
      ghost var host0, ips0 := host, ips;
      SweepStarts(host0, ips0, dead);
      for i := 0 to ShardCount
        invariant SweptTo(host0, ips0, dead, i)
      {
        SweepTurn(i, now, host0, ips0, dead);
      }
    }

    /** What the persistence file would say now. */
    ghost function Snapshot(): PersistState
      reads this, Records()
    {
      PersistState(v4Currents, v6Currents,
                   map d | d in host :: SavedRecord(host[d].ips, host[d].domain, host[d].expiresAt))
    }

    method SaveToFileIfDirty() returns (file: Option<PersistState>)
      requires Valid()
      modifies `dirty
      ensures Valid() && !dirty && file == if old(dirty) then Some(Snapshot()) else None
    {
      if !dirty {
        return None;
      }
      var all: map<string, Record> := map[];
      for i := 0 to ShardCount
        invariant all == map d | d in host && HostShard(d) < i :: host[d]
      {
        CollectShard(host, hostShards, i);
        all := all + hostShards[i];
      }
      assert all == host;
      dirty := false;
      file := Some(PersistState(v4Currents, v6Currents,
                                map d | d in all :: SavedRecord(all[d].ips, all[d].domain, all[d].expiresAt)));
    }

    /** Shutting down always writes. */
    method Close() returns (file: PersistState)
      requires Valid()
      modifies `dirty
      ensures Valid() && file == Snapshot()
    {
      dirty := true;
      var f := SaveToFileIfDirty();
      file := f.value;
    }

    /** Clearing empties the maps and keeps the cursors. */
    method Clear() returns (file: PersistState)
      requires Valid()
      modifies `hostShards, `host, `ipShards, `ips, `dirty
      ensures Valid() && Agreed() && host == map[] && ips == map[]
      ensures file == PersistState(v4Currents, v6Currents, map[])
    {
      for i := 0 to ShardCount
        invariant |hostShards| == |ipShards| == ShardCount
        invariant forall k :: 0 <= k < i ==> hostShards[k] == map[] && ipShards[k] == map[]
      {
        hostShards := hostShards[i := map[]];
        ipShards := ipShards[i := map[]];
      }
      host, ips, dirty := map[], map[], true;
      var f := SaveToFileIfDirty();
      file := f.value;
    }

    static method InPrefix(prefixes: seq<Prefix>, a: Addr) returns (found: bool)
      requires SoundPrefixes(prefixes)
      ensures found <==> InSome(prefixes, a)
    {
      found := false;
      for i := 0 to |prefixes|
        invariant !found && forall k :: 0 <= k < i ==> !prefixes[k].Contains(a)
      {
        if prefixes[i].Contains(a) {
          return true;
        }
      }
    }

    method KeepInPrefix(saved: seq<Addr>) returns (valid: seq<Addr>)
      requires SoundPrefixes(v4Prefixes) && SoundPrefixes(v6Prefixes)
      ensures valid == Kept(Prefixes(), saved)
    {
      valid := [];
      for k := 0 to |saved|
        invariant valid == Kept(Prefixes(), saved[..k])
      {
        var a := saved[k].Unmap();
        var inPrefix := InPrefix(v4Prefixes, a);
        if !inPrefix {
          inPrefix := InPrefix(v6Prefixes, a);
        }
        InSomeSplit(v4Prefixes, v6Prefixes, a);
        if inPrefix {
          valid := valid + [a];
        }
        assert saved[..k + 1][..k] == saved[..k];
      }
      assert saved[..|saved|] == saved;
    }

    static method RestoreCursors(prefixes: seq<Prefix>, current: seq<Addr>, saved: seq<Addr>) returns (cursors: seq<Addr>)
      requires CursorsOk(prefixes, current)
      ensures CursorsOk(prefixes, cursors)
      ensures forall i :: 0 <= i < |prefixes| ==> cursors[i] == RestoredCursor(prefixes, saved, i, current[i])
    {
      cursors := current;
      if |saved| == |prefixes| {
        for i := 0 to |saved|
          invariant CursorsOk(prefixes, cursors)
          invariant forall k :: i <= k < |prefixes| ==> cursors[k] == current[k]
          invariant forall k :: 0 <= k < i ==> cursors[k] == RestoredCursor(prefixes, saved, k, current[k])
        {
          if !saved[i].Invalid? && prefixes[i].Contains(saved[i]) {
            ContainsIsInterval(prefixes[i], saved[i]);
            cursors := cursors[i := saved[i].Unmap()];
          }
        }
      }
    }

    constructor (v4: seq<Prefix>, v6: seq<Prefix>, ttl: int, file: Option<PersistState>, now: int)
      requires SoundPrefixes(v4) && SoundPrefixes(v6) && v4 + v6 != []
      ensures v4Prefixes == v4 && v6Prefixes == v6 && this.ttl == ttl && Valid() && fresh(Records())
      ensures file.None? ==> host == map[] && ips == map[] && Agreed()
      ensures file.Some? ==> Loaded(Prefixes(), file.value.records, now, file.value.records.Keys, host, ips)
      ensures file.Some? && SavedAgree(file.value.records) ==> Agreed()
      ensures forall i :: 0 <= i < |v4| ==> v4Currents[i] == StartCursor(v4, file, false, i)
      ensures forall i :: 0 <= i < |v6| ==> v6Currents[i] == StartCursor(v6, file, true, i)
    {
      v4Prefixes, v6Prefixes, this.ttl := v4, v6, ttl;
      v4Currents := seq(|v4|, i requires 0 <= i < |v4| => v4[i].addr);
      v6Currents := seq(|v6|, i requires 0 <= i < |v6| => v6[i].addr);
      hostShards := seq(ShardCount, _ => map[]);
      ipShards := seq(ShardCount, _ => map[]);
      host, ips, dirty := map[], map[], false;
      new;
      if file.Some? {
        v4Currents := RestoreCursors(v4, v4Currents, file.value.v4Currents);
        v6Currents := RestoreCursors(v6, v6Currents, file.value.v6Currents);
        LoadRecords(file.value.records, now);
        if SavedAgree(file.value.records) {
          LoadedAgrees(Prefixes(), file.value.records, now, file.value.records.Keys, host, ips);
        }
      }
    }

    /** The surviving records are entered one by one, in whatever order the decoded map yields them. */
    method LoadRecords(records: map<string, SavedRecord>, now: int)
      requires Valid() && host == map[] && ips == map[]
      modifies `hostShards, `host, `ipShards, `ips
      ensures Valid() && Loaded(Prefixes(), records, now, records.Keys, host, ips)
      ensures fresh(Records())
    {
      var todo := records.Keys;
      ghost var done: set<string> := {};
      while todo != {}
        invariant done !! todo && done + todo == records.Keys
        invariant Valid() && Loaded(Prefixes(), records, now, done, host, ips)
        invariant fresh(Records())
        decreases todo
      {
        var domain :| domain in todo;
        LoadRecord(records, domain, done, now);
        todo, done := todo - {domain}, done + {domain};
      }
      assert done == records.Keys;
    }

    method LoadRecord(records: map<string, SavedRecord>, domain: string, ghost done: set<string>, now: int)
      requires Valid() && domain in records && domain !in done
      requires Loaded(Prefixes(), records, now, done, host, ips)
      modifies `hostShards, `host, `ipShards, `ips
      ensures Valid() && Loaded(Prefixes(), records, now, done + {domain}, host, ips)
      ensures fresh(Records() - old(Records()))
    {
      var saved := records[domain];
      if now <= saved.expiresAt {
        var valid := KeepInPrefix(saved.ips);
        if valid != [] {
          EnterLoaded(records, domain, valid, done, now);
        }
      }
    }

    method EnterLoaded(records: map<string, SavedRecord>, domain: string, valid: seq<Addr>, ghost done: set<string>, now: int)
      requires Valid() && domain in records && domain !in done
      requires Loaded(Prefixes(), records, now, done, host, ips)
      requires Survives(Prefixes(), records[domain], now) && valid == Kept(Prefixes(), records[domain].ips)
      modifies `hostShards, `host, `ipShards, `ips
      ensures Valid() && Loaded(Prefixes(), records, now, done + {domain}, host, ips)
      ensures fresh(Records() - old(Records()))
    {
      var rec := new Record(valid, records[domain].domain, records[domain].expiresAt);
      KeptMembers(Prefixes(), records[domain].ips);
      LoadedMore(Prefixes(), records, now, done, host, ips, domain, rec);
      Enter(domain, rec);
    }
  }

  lemma LoadedMore(prefixes: seq<Prefix>, records: map<string, SavedRecord>, now: int, done: set<string>,
                   host: map<string, Record>, ip: map<Addr, Record>, d: string, rec: Record)
    requires LoadedMaps(prefixes, records, now, done, host, ip) && d in records && d !in done
    requires Survives(prefixes, records[d], now) && rec.ips == Kept(prefixes, records[d].ips)
    requires rec.domain == records[d].domain
    ensures LoadedMaps(prefixes, records, now, done + {d}, host[d := rec], WithRecord(ip, rec.ips, rec))
  {
    var host', ip' := host[d := rec], WithRecord(ip, rec.ips, rec);
    forall a | a in ip' ensures exists e :: e in host' && host'[e] == ip'[a] {
      if a in rec.ips {
        assert host'[d] == rec;
      } else {
        var e :| e in host && host[e] == ip[a];
        assert host'[e] == ip[a];
      }
    }
  }

  lemma CollectShard(host: map<string, Record>, shards: seq<map<string, Record>>, i: nat)
    requires HostUnion(host, shards) && i < ShardCount
    ensures (map d | d in host && HostShard(d) < i :: host[d]) + shards[i]
         == map d | d in host && HostShard(d) < i + 1 :: host[d]
  {
    forall d: string {
      InNextShard(host, shards, i + 1, d);
    }
  }

  lemma InSomeSplit(p: seq<Prefix>, q: seq<Prefix>, a: Addr)
    ensures InSome(p + q, a) <==> InSome(p, a) || InSome(q, a)
  {
    if InSome(p, a) || InSome(q, a) {
      InSomeAppend(p, q, a);
    }
  }

  lemma SweepStarts(host: map<string, Record>, ip: map<Addr, Record>, dead: set<Record>)
    ensures SweptHost(host, ip, dead, 0) == host && SweptIps(ip, dead, 0) == ip
  {
  }

  ghost predicate Swept(host0: map<string, Record>, host: map<string, Record>, hostShards: seq<map<string, Record>>,
                        ip0: map<Addr, Record>, ip: map<Addr, Record>, ipShards: seq<map<Addr, Record>>,
                        dead: set<Record>, n: nat)
  {
    && HostUnion(host, hostShards) && IpUnion(ip, ipShards)
    && ip == SweptIps(ip0, dead, n) && host == SweptHost(host0, ip0, dead, n)
  }

  lemma TurnKeeps(host0: map<string, Record>, host: map<string, Record>, hostShards: seq<map<string, Record>>,
                  ip0: map<Addr, Record>, ip: map<Addr, Record>, ipShards: seq<map<Addr, Record>>,
                  dead: set<Record>, i: nat, live: map<Addr, Record>, left: map<string, Record>, domains: seq<string>)
    requires i < ShardCount && Swept(host0, host, hostShards, ip0, ip, ipShards, dead, i)
    requires live == map a | a in ipShards[i] && ipShards[i][a] !in dead :: ipShards[i][a]
    requires forall d :: d in domains <==>
      exists a :: a in ipShards[i] && ipShards[i][a] in dead && ipShards[i][a].domain == d
    requires left == map d | d in hostShards[i] && d !in domains :: hostShards[i][d]
    ensures Swept(host0, SweptHost(host0, ip0, dead, i + 1), hostShards[i := left],
                  ip0, SweptIps(ip0, dead, i + 1), ipShards[i := live], dead, i + 1)
  {
    IpSweep(ip0, ip, ipShards, dead, i, live);
    DomainsOfShard(ip0, ip, ipShards, dead, i, domains);
    HostSweep(host0, host, hostShards, ip0, dead, i, domains);
  }

  /** Sweeping address shard i on top of the shards before it. */
  lemma IpSweep(ip0: map<Addr, Record>, ip: map<Addr, Record>, shards: seq<map<Addr, Record>>, dead: set<Record>,
                i: nat, live: map<Addr, Record>)
    requires IpUnion(ip, shards) && i < ShardCount && ip == SweptIps(ip0, dead, i)
    requires live == map a | a in shards[i] && shards[i][a] !in dead :: shards[i][a]
    ensures IpUnion(SweptIps(ip0, dead, i + 1), shards[i := live])
  {
  }

  lemma DomainsOfShard(ip0: map<Addr, Record>, ip: map<Addr, Record>, shards: seq<map<Addr, Record>>,
                       dead: set<Record>, i: nat, domains: seq<string>)
    requires IpUnion(ip, shards) && i < ShardCount && ip == SweptIps(ip0, dead, i)
    requires forall d :: d in domains <==> exists a :: a in shards[i] && shards[i][a] in dead && shards[i][a].domain == d
    ensures forall d :: d in domains <==> exists a :: a in ip0 && IpShard(a) == i && ip0[a] in dead && ip0[a].domain == d
  {
    forall a ensures a in ip0 && IpShard(a) == i <==> a in shards[i] {
      var h := IpShard(a);
    }
  }

  /** Deleting from host shard i the domains of the dead records found in address shard i. */
  lemma HostSweep(host0: map<string, Record>, host: map<string, Record>, shards: seq<map<string, Record>>,
                  ip0: map<Addr, Record>, dead: set<Record>, i: nat, domains: seq<string>)
    requires HostUnion(host, shards) && i < ShardCount && host == SweptHost(host0, ip0, dead, i)
    requires forall d :: d in domains <==> exists a :: a in ip0 && IpShard(a) == i && ip0[a] in dead && ip0[a].domain == d
    ensures HostUnion(SweptHost(host0, ip0, dead, i + 1),
                      shards[i := map d | d in shards[i] && d !in domains :: shards[i][d]])
  {
  }

  lemma PickedAreNew(prefixes: seq<Prefix>, cursors: seq<Addr>, taken: set<Addr>, picked: seq<Addr>)
    requires CursorsOk(prefixes, cursors) && AllFirstFree(prefixes, cursors, taken, picked)
    ensures forall a :: a in picked ==> a !in taken && a.Unmap() == a && InSome(prefixes, a)
  {
    forall i | 0 <= i < |picked|
      ensures picked[i] !in taken && picked[i].Unmap() == picked[i] && InSome(prefixes, picked[i])
    {
      FirstFreeInside(prefixes[i], cursors[i], taken, picked[i]);
    }
  }

  lemma InSomeAppend(p: seq<Prefix>, q: seq<Prefix>, a: Addr)
    requires InSome(p, a) || InSome(q, a)
    ensures InSome(p + q, a)
  {
    if i :| 0 <= i < |p| && p[i].Valid() && p[i].Contains(a) {
      assert (p + q)[i].Contains(a);
    } else {
      var j :| 0 <= j < |q| && q[j].Valid() && q[j].Contains(a);
      assert (p + q)[|p| + j].Contains(a);
    }
  }
}
