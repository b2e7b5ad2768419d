/** The pool across a restart, and the concrete record on which the expiry sweep breaks the agreement. */
module FakeIPRestart {
  import opened Basics
  import opened Net
  import opened Shards
  import opened FakeIPPool

  /** Maps that agree are saved as records that name their own domains and share no address. */
  lemma SnapshotAgrees(host: map<string, Record>, ip: map<Addr, Record>, records: map<string, SavedRecord>)
    requires Agree(host, ip) && forall a :: a in ip ==> a.Unmap() == a
    requires records.Keys == host.Keys
    requires forall d :: d in host ==> records[d].ips == host[d].ips && records[d].domain == host[d].domain
    ensures SavedAgree(records)
  {
    forall d, e, a, b |
      d in records && e in records && a in records[d].ips && b in records[e].ips && a.Unmap() == b.Unmap()
      ensures d == e
    {
      ListedBy(host, ip, d, a);
      ListedBy(host, ip, e, b);
    }
  }

  lemma ListedBy(host: map<string, Record>, ip: map<Addr, Record>, d: string, a: Addr)
    requires Agree(host, ip) && d in host && a in host[d].ips
    ensures a in ip && ip[a].domain == d
  {
  }

  /** host' and ip' hold exactly the records of host and ip not expired at t. */
  ghost predicate Unexpired(host: map<string, Record>, ip: map<Addr, Record>, t: int,
                            host': map<string, Record>, ip': map<Addr, Record>)
    reads host.Values, ip.Values, host'.Values
  {
    && (forall d :: d in host' <==> d in host && t <= host[d].expiresAt)
    && (forall d :: d in host' ==> host'[d].ips == host[d].ips && host'[d].expiresAt == host[d].expiresAt)
    && (forall a :: a in ip' <==> a in ip && t <= ip[a].expiresAt)
    && (forall a :: a in ip' ==> ip'[a].domain == ip[a].domain)
  }

  /** Round trip on the maps: what a load at time t makes of the saved form of agreeing maps is exactly the
      records not expired at t, in both maps. */
  lemma RoundTrip(prefixes: seq<Prefix>, host: map<string, Record>, ip: map<Addr, Record>,
                  records: map<string, SavedRecord>, t: int, host': map<string, Record>, ip': map<Addr, Record>)
    requires Agree(host, ip) && forall a :: a in ip ==> Placed(prefixes, a)
    requires records == map d | d in host :: SavedRecord(host[d].ips, host[d].domain, host[d].expiresAt)
    requires Loaded(prefixes, records, t, records.Keys, host', ip')
    ensures Agree(host', ip') && Unexpired(host, ip, t, host', ip')
  {
    SnapshotAgrees(host, ip, records);
    LoadedAgrees(prefixes, records, t, records.Keys, host', ip');
    SameRecords(prefixes, host, ip, records, t, host', ip');
    SameAddresses(host, ip, t, host', ip');
  }

  lemma SameAddresses(host: map<string, Record>, ip: map<Addr, Record>, t: int,
                      host': map<string, Record>, ip': map<Addr, Record>)
    requires Agree(host, ip) && Agree(host', ip')
    requires forall d :: d in host' <==> d in host && t <= host[d].expiresAt
    requires forall d :: d in host' ==> host'[d].ips == host[d].ips
    ensures forall a :: a in ip' <==> a in ip && t <= ip[a].expiresAt
    ensures forall a :: a in ip' ==> ip'[a].domain == ip[a].domain
  {
    forall a
      ensures a in ip' <==> a in ip && t <= ip[a].expiresAt
      ensures a in ip' ==> ip'[a].domain == ip[a].domain
    {
      SameAddress(host, ip, t, host', ip', a);
    }
  }

  lemma SameRecords(prefixes: seq<Prefix>, host: map<string, Record>, ip: map<Addr, Record>,
                    records: map<string, SavedRecord>, t: int, host': map<string, Record>, ip': map<Addr, Record>)
    requires Agree(host, ip) && forall a :: a in ip ==> Placed(prefixes, a)
    requires records == map d | d in host :: SavedRecord(host[d].ips, host[d].domain, host[d].expiresAt)
    requires Loaded(prefixes, records, t, records.Keys, host', ip')
    ensures forall d :: d in host' <==> d in host && t <= host[d].expiresAt
    ensures forall d :: d in host' ==> host'[d].ips == host[d].ips && host'[d].expiresAt == host[d].expiresAt
  {
    forall d | d in host ensures Kept(prefixes, records[d].ips) == host[d].ips {
      KeptAll(prefixes, host[d].ips);
    }
  }

  lemma SameAddress(host: map<string, Record>, ip: map<Addr, Record>, t: int,
                    host': map<string, Record>, ip': map<Addr, Record>, a: Addr)
    requires Agree(host, ip) && Agree(host', ip')
    requires forall d :: d in host' <==> d in host && t <= host[d].expiresAt
    requires forall d :: d in host' ==> host'[d].ips == host[d].ips
    ensures a in ip' <==> a in ip && t <= ip[a].expiresAt
    ensures a in ip' ==> ip'[a].domain == ip[a].domain
  {
    if a in ip && t <= ip[a].expiresAt {
      assert ip[a].domain in host' && a in host'[ip[a].domain].ips;
    }
    if a in ip' {
      assert a in host[ip'[a].domain].ips;
    }
  }

  /** Restart with the same subnets from what closing the pool wrote: the cursors come back as they were,
      and exactly the records that have not expired, in both maps. */
  method Reopen(p: Pool, file: PersistState, now: int) returns (q: Pool)
    requires p.Valid() && p.Agreed() && file == p.Snapshot()
    ensures fresh(q) && q.Valid() && q.Agreed()
    ensures q.v4Currents == p.v4Currents && q.v6Currents == p.v6Currents
    ensures Unexpired(p.host, p.ips, now, q.host, q.ips)
  {
    assert forall a :: a in p.ips ==> Placed(p.Prefixes(), a);
    SnapshotAgrees(p.host, p.ips, file.records);
    q := new Pool(p.v4Prefixes, p.v6Prefixes, p.ttl, Some(file), now);
    CursorsBack(p.v4Prefixes, p.v4Currents, Some(file), false, q.v4Currents);
    CursorsBack(p.v6Prefixes, p.v6Currents, Some(file), true, q.v6Currents);
    RoundTrip(p.Prefixes(), p.host, p.ips, file.records, now, q.host, q.ips);
  }

  /** With the same subnets every saved cursor is taken over. */
  lemma CursorsBack(prefixes: seq<Prefix>, cursors: seq<Addr>, file: Option<PersistState>, v6: bool, back: seq<Addr>)
    requires CursorsOk(prefixes, cursors) && |back| == |prefixes|
    requires file.Some? && cursors == if v6 then file.value.v6Currents else file.value.v4Currents
    requires forall i :: 0 <= i < |prefixes| ==> back[i] == StartCursor(prefixes, file, v6, i)
    ensures back == cursors
  {
  }

  function Sum(bytes: seq<byte>): nat {
    if bytes == [] then 0 else Sum(bytes[..|bytes| - 1]) + bytes[|bytes| - 1]
  }

  /** The low bits of a product with the prime depend on the low bits alone. */
  lemma WrapParity(x: nat)
    ensures (x * 16777619) % 0x1_0000_0000 % 2 == x % 2
  {
    var y := x * 16777619;
    EvenApart(y, x, x * 8388809);
    EvenApart(y, y % 0x1_0000_0000, y / 0x1_0000_0000 * 0x8000_0000);
  }

  lemma EvenApart(y: nat, x: nat, k: nat)
    requires y == x + 2 * k
    ensures y % 2 == x % 2
  {
  }

  lemma ShardParity(hash: nat)
    ensures hash % 32 % 2 == hash % 2
  {
  }

  lemma LowBit(a: nat, b: nat, n: nat)
    requires n > 0
    ensures Xor(a, b, n) % 2 == if a % 2 != b % 2 then 1 else 0
  {
  }

  lemma XorParity(a: nat, b: nat)
    ensures XorByte(a, b) % 2 == (a + b) % 2
  {
    LowBit(a, b, 8);
  }

  lemma RoundParity(hash: nat, b: byte)
    ensures FnvRound(hash, b) % 2 == (hash + b) % 2
  {
    XorParity(hash, b);
    BlockParity(hash, XorByte(hash, b));
    WrapParity(hash - hash % 256 + XorByte(hash, b));
  }

  lemma BlockParity(hash: nat, low: nat)
    ensures (hash - hash % 256 + low) % 2 == low % 2
  {
  }

  /** The prime is odd, so a hash keeps the parity of its input: the hash is even exactly when the bytes add
      up to an odd number. */
  lemma {:induction false} FnvParity(bytes: seq<byte>)
    ensures Fnv(bytes) % 2 == (1 + Sum(bytes)) % 2
  {
    if bytes != [] {
      var front, last := bytes[..|bytes| - 1], bytes[|bytes| - 1];
      FnvParity(front);
      RoundParity(Fnv(front), last);
      assert Sum(bytes) == Sum(front) + last;
      assert Fnv(bytes) == FnvRound(Fnv(front), last);
      AddParity(Fnv(front), 1 + Sum(front), last);
    }
  }

  lemma AddParity(x: nat, y: nat, z: nat)
    requires x % 2 == y % 2
    ensures (x + z) % 2 == (y + z) % 2
  {
  }

  predicate OddName(domain: string) {
    Sum(NameBytes(domain)) % 2 == 1
  }

  predicate OddAddr(a: Addr) {
    Sum(Bytes(Number16(a.Unmap()), AddrBytes)) % 2 == 1
  }

  /** At least half of all pairs of a domain and an address hash to different shards: those whose byte sums
      differ in parity. */
  lemma OddAndEvenMisaligned(domain: string, a: Addr)
    requires OddName(domain) != OddAddr(a)
    ensures HostShard(domain) != IpShard(a)
  {
    HostParity(domain);
    IpParity(a);
    ParityApart(HostShard(domain), IpShard(a),
                Sum(NameBytes(domain)), Sum(Bytes(Number16(a.Unmap()), AddrBytes)));
  }

  lemma ParityApart(h: nat, i: nat, x: nat, y: nat)
    requires h % 2 == (1 + x) % 2 && i % 2 == (1 + y) % 2 && (x % 2 == 1) != (y % 2 == 1)
    ensures h != i
  {
  }

  lemma HostParity(domain: string)
    ensures HostShard(domain) % 2 == (1 + Sum(NameBytes(domain))) % 2
  {
    FnvParity(NameBytes(domain));
    ShardParity(Fnv(NameBytes(domain)));
  }

  lemma IpParity(a: Addr)
    ensures IpShard(a) % 2 == (1 + Sum(Bytes(Number16(a.Unmap()), AddrBytes))) % 2
  {
    FnvParity(Bytes(Number16(a.Unmap()), AddrBytes));
    ShardParity(Fnv(Bytes(Number16(a.Unmap()), AddrBytes)));
  }

  /** So the sweep as written breaks the agreement whenever it drops a record whose domain differs in parity
      from all of its addresses: the domain's entry stays while its addresses are gone. */
  lemma SweepBreaks(host: map<string, Record>, ip: map<Addr, Record>, dead: set<Record>, rec: Record)
    requires Agree(host, ip) && dead <= ip.Values && rec in dead
    requires forall a :: a in rec.ips ==> OddName(rec.domain) != OddAddr(a)
    ensures !Agree(SweptHost(host, ip, dead, ShardCount), SweptIps(ip, dead, ShardCount))
    ensures rec.domain in SweptHost(host, ip, dead, ShardCount)
  {
    forall a | a in rec.ips ensures IpShard(a) != HostShard(rec.domain) {
      OddAndEvenMisaligned(rec.domain, a);
    }
    SweepKeepsAgreementIff(host, ip, dead);
  }

  lemma {:induction false} SumOfBytes(n: nat, len: nat)
    ensures Sum(Bytes(n, len)) == if len == 0 then 0 else n % 256 + Sum(Bytes(n / 256, len - 1))
  {
    if len > 0 {
      assert Bytes(n, len)[..len - 1] == Bytes(n / 256, len - 1);
    }
  }

  /** One such record: the domain "a" with the address 198.18.0.2. */
  lemma SweepBreaksExample(rec: Record)
    requires rec.domain == "a" && rec.ips == [V4(0xc612_0002)]
    ensures Agree(map["a" := rec], map[V4(0xc612_0002) := rec])
    ensures !Agree(SweptHost(map["a" := rec], map[V4(0xc612_0002) := rec], {rec}, ShardCount),
                   SweptIps(map[V4(0xc612_0002) := rec], {rec}, ShardCount))
  {
    ExampleParity(0, 2);
    var ip := map[V4(0xc612_0002) := rec];
    assert ip[V4(0xc612_0002)] == rec;
    assert rec in ip.Values;
    SweepBreaks(map["a" := rec], ip, {rec}, rec);
  }

  /** The domain "a" against the addresses 198.18.h.l. */
  lemma ExampleParity(h: byte, l: byte)
    ensures OddName("a") && (OddAddr(V4(0xc612_0000 + 256 * h + l)) <==> (h + l) % 2 == 1)
  {
    assert NameBytes("a") == [97] by { assert "a"[..0] == ""; }
    assert Sum([97]) == Sum([]) + 97;
    SumOfBytes(0xffff_c612_0000 + 256 * h + l, 16);
    SumOfBytes(0xffff_c612_00 + h, 15);
    SumOfBytes(0xffff_c612, 14);
    SumOfBytes(0xffff_c6, 13);
    SumOfBytes(0xffff, 12);
    SumOfBytes(0xff, 11);
    SumOfZeros(10);
  }

  lemma {:induction false} SumOfZeros(len: nat)
    ensures Sum(Bytes(0, len)) == 0
  {
    SumOfBytes(0, len);
    if len > 0 {
      SumOfZeros(len - 1);
    }
  }
}
