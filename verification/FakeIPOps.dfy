/** Sequential runs of a pool's operations, restarts included, as traces of what the pool holds; and exactly
    when its two maps agree all along such a run. */
module FakeIPOps {
  import opened Basics
  import opened Net
  import opened Shards
  import opened FakeIPPool
  import opened FakeIPRestart

  /** What a pool is configured with. */
  datatype Setup = Setup(v4: seq<Prefix>, v6: seq<Prefix>, ttl: int) {
    function Prefixes(): seq<Prefix> { v4 + v6 }
  }

  /** What a pool holds: the two maps, when each of their records expires, and the cursors. */
  datatype Snap = Snap(host: map<string, Record>, ip: map<Addr, Record>, expires: map<Record, int>,
                       v4: seq<Addr>, v6: seq<Addr>)

  ghost function SetupOf(p: Pool): Setup {
    Setup(p.v4Prefixes, p.v6Prefixes, p.ttl)
  }

  ghost function SnapOf(p: Pool): Snap
    reads p, p.Records()
  {
    Snap(p.host, p.ips, map r | r in p.Records() :: r.expiresAt, p.v4Currents, p.v6Currents)
  }

  /** An operation, with the time it reads. A restart closes the pool and opens a new one from its file. */
  datatype Op =
    | Get(name: string, now: int)
    | Find(addr: Addr, now: int)
    | Expire(now: int)
    | Save
    | Restart(now: int)
    | Wipe

  // ----- what each operation does -----

  ghost predicate OpStep(c: Setup, s: Snap, op: Op, t: Snap) {
    match op
    case Get(name, now) => GetStep(c, s, TrimDot(name), now, t)
    case Find(addr, now) => FindStep(c, s, addr.Unmap(), now, t)
    case Expire(now) => ExpireStep(s, now, t)
    case Save => t == s
    case Restart(now) => LoadedSnap(c.Prefixes(), SavedOf(s), now, t) && t.v4 == s.v4 && t.v6 == s.v6
    case Wipe => t == Snap(map[], map[], map[], s.v4, s.v6)
  }

  /** A known domain's record is renewed; a new one gets a record of the first free addresses. With no free
      address to come to in some subnet the source never returns, and the step changes nothing. */
  ghost predicate GetStep(c: Setup, s: Snap, d: string, now: int, t: Snap) {
    if d in s.host then t == s.(expires := s.expires[s.host[d] := now + c.ttl])
    else if RoomIn(c.v4, s.v4, s.ip.Keys) && RoomIn(c.v6, s.v6, s.ip.Keys) then NewStep(c, s, d, now, t)
    else t == s
  }

  ghost predicate NewStep(c: Setup, s: Snap, d: string, now: int, t: Snap) {
    && CursorsOk(c.v4, s.v4) && AllFirstFree(c.v4, s.v4, s.ip.Keys, t.v4)
    && CursorsOk(c.v6, s.v6) && AllFirstFree(c.v6, s.v6, s.ip.Keys, t.v6)
    && d in t.host
    && var rec := t.host[d];
    && rec !in s.expires && rec.domain == d && rec.ips == t.v4 + t.v6
    && t.host == s.host[d := rec] && t.ip == WithRecord(s.ip, rec.ips, rec)
    && t.expires == s.expires[rec := now + c.ttl]
  }

  /** The record of a known address is renewed. */
  ghost predicate FindStep(c: Setup, s: Snap, a: Addr, now: int, t: Snap) {
    t == if a in s.ip then s.(expires := s.expires[s.ip[a] := now + c.ttl]) else s
  }

  /** The records in the address map that have expired. */
  ghost function DeadIn(s: Snap, now: int): set<Record> {
    set a | a in s.ip && s.ip[a] in s.expires && now > s.expires[s.ip[a]] :: s.ip[a]
  }

  /** The sweep as the source has it: a dead record's domain is deleted from the shards numbered like its
      addresses'. */
  ghost predicate ExpireStep(s: Snap, now: int, t: Snap) {
    && t.host == SweptHost(s.host, s.ip, DeadIn(s, now), ShardCount)
    && t.ip == SweptIps(s.ip, DeadIn(s, now), ShardCount)
    && t.expires == (map r | r in s.expires && (r in t.host.Values || r in t.ip.Values) :: s.expires[r])
    && t.v4 == s.v4 && t.v6 == s.v6
  }

  /** The records as a file holds them. */
  ghost function SavedOf(s: Snap): map<string, SavedRecord> {
    map d | d in s.host && s.host[d] in s.expires ::
      SavedRecord(s.host[d].ips, s.host[d].domain, s.expires[s.host[d]])
  }

  /** What loading the records at time `now` makes. */
  ghost predicate LoadedSnap(prefixes: seq<Prefix>, records: map<string, SavedRecord>, now: int, t: Snap) {
    && LoadedMaps(prefixes, records, now, records.Keys, t.host, t.ip)
    && t.expires.Keys == t.host.Values + t.ip.Values
    && (forall d :: d in t.host ==> t.host[d] in t.expires && t.expires[t.host[d]] == records[d].expiresAt)
  }

  /** A run: what the pool holds before the first operation and after each. */
  ghost predicate IsRun(c: Setup, ops: seq<Op>, trace: seq<Snap>) {
    && |trace| == |ops| + 1
    && forall k {:trigger ops[k]} :: 0 <= k < |ops| ==> OpStep(c, trace[k], ops[k], trace[k + 1])
  }

  /** What a new pool holds: nothing, or what its file restores. */
  ghost predicate StartsFrom(c: Setup, file: Option<PersistState>, now: int, s: Snap) {
    && CursorsOk(c.v4, s.v4) && (forall i :: 0 <= i < |c.v4| ==> s.v4[i] == StartCursor(c.v4, file, false, i))
    && CursorsOk(c.v6, s.v6) && (forall i :: 0 <= i < |c.v6| ==> s.v6[i] == StartCursor(c.v6, file, true, i))
    && match file
       case None => s.host == map[] && s.ip == map[] && s.expires == map[]
       case Some(f) => LoadedSnap(c.Prefixes(), f.records, now, s)
  }

  // ----- the maps agree all along exactly when every sweep is aligned -----

  ghost predicate Agrees(s: Snap) {
    Agree(s.host, s.ip)
  }

  /** A sweep finds that every expired record shares a shard number with one of its addresses. */
  ghost predicate SweepAligned(s: Snap, op: Op) {
    op.Expire? ==> forall rec :: rec in DeadIn(s, op.now) ==> Aligned(rec)
  }

  ghost predicate SnapOk(c: Setup, s: Snap) {
    && c.Prefixes() != [] && CursorsOk(c.v4, s.v4) && CursorsOk(c.v6, s.v6)
    && (forall a {:trigger Placed(c.Prefixes(), a)} :: a in s.ip ==> Placed(c.Prefixes(), a))
    && s.expires.Keys == s.host.Values + s.ip.Values
  }

  lemma NewKeeps(c: Setup, s: Snap, d: string, now: int, t: Snap)
    requires SnapOk(c, s) && d !in s.host && NewStep(c, s, d, now, t)
    ensures SnapOk(c, t) && (Agrees(s) ==> Agrees(t))
  {
    var rec := t.host[d];
    NewCursors(c.v4, s.v4, s.ip.Keys, t.v4);
    NewCursors(c.v6, s.v6, s.ip.Keys, t.v6);
    PickedPlaced(c, s, rec, t.v4, t.v6);
    NewRecords(s.host, s.ip, d, rec);
    if Agrees(s) {
      AgreeInsert(s.host, s.ip, rec);
    }
  }

  lemma PickedPlaced(c: Setup, s: Snap, rec: Record, v4: seq<Addr>, v6: seq<Addr>)
    requires CursorsOk(c.v4, s.v4) && AllFirstFree(c.v4, s.v4, s.ip.Keys, v4)
    requires CursorsOk(c.v6, s.v6) && AllFirstFree(c.v6, s.v6, s.ip.Keys, v6)
    requires rec.ips == v4 + v6
    ensures forall a :: a in rec.ips ==> Placed(c.Prefixes(), a) && a !in s.ip
  {
    PickedAreNew(c.v4, s.v4, s.ip.Keys, v4);
    PickedAreNew(c.v6, s.v6, s.ip.Keys, v6);
    forall a | a in rec.ips ensures Placed(c.Prefixes(), a) {
      InSomeAppend(c.v4, c.v6, a);
    }
  }

  lemma NewCursors(prefixes: seq<Prefix>, cursors: seq<Addr>, taken: set<Addr>, picked: seq<Addr>)
    requires CursorsOk(prefixes, cursors) && AllFirstFree(prefixes, cursors, taken, picked)
    ensures CursorsOk(prefixes, picked)
  {
    forall i | 0 <= i < |prefixes| ensures prefixes[i].Contains(picked[i]) {
      FirstFreeInside(prefixes[i], cursors[i], taken, picked[i]);
    }
  }

  /** Entering a record of new addresses under a new domain adds just that record. */
  lemma NewRecords(host: map<string, Record>, ip: map<Addr, Record>, d: string, rec: Record)
    requires d !in host && forall a :: a in rec.ips ==> a !in ip
    ensures host[d := rec].Values + WithRecord(ip, rec.ips, rec).Values == host.Values + ip.Values + {rec}
  {
    var host', ip' := host[d := rec], WithRecord(ip, rec.ips, rec);
    forall r | r in host.Values ensures r in host'.Values {
      var e :| e in host && host[e] == r;
      assert host'[e] == r;
    }
    forall r | r in ip.Values ensures r in ip'.Values {
      var a :| a in ip && ip[a] == r;
      assert ip'[a] == r;
    }
    assert host'[d] == rec;
  }

  lemma ExpireKeeps(c: Setup, s: Snap, now: int, t: Snap)
    requires SnapOk(c, s) && ExpireStep(s, now, t)
    ensures SnapOk(c, t)
    ensures Agrees(s) ==> (Agrees(t) <==> SweepAligned(s, Expire(now)))
  {
    SweptRecords(s, DeadIn(s, now), t);
    if Agrees(s) {
      SweepKeepsAgreementIff(s.host, s.ip, DeadIn(s, now));
    }
  }

  lemma RestartKeeps(c: Setup, s: Snap, now: int, t: Snap)
    requires SnapOk(c, s) && OpStep(c, s, Restart(now), t)
    ensures SnapOk(c, t) && (Agrees(s) ==> Agrees(t))
  {
    var records := SavedOf(s);
    forall a | a in t.ip ensures Placed(c.Prefixes(), a) {
      var d :| d in t.host && t.host[d] == t.ip[a];
      KeptMembers(c.Prefixes(), records[d].ips);
    }
    if Agrees(s) {
      SavedOfAgrees(c, s);
      LoadedAgrees(c.Prefixes(), records, now, records.Keys, t.host, t.ip);
    }
  }

  /** What an agreeing pool saves names its own domains and shares no address. */
  lemma SavedOfAgrees(c: Setup, s: Snap)
    requires SnapOk(c, s) && Agrees(s)
    ensures SavedAgree(SavedOf(s))
  {
    forall a | a in s.ip ensures a.Unmap() == a {
      assert Placed(c.Prefixes(), a);
    }
    SnapshotAgrees(s.host, s.ip, SavedOf(s));
  }

  /** Every operation but a sweep keeps the maps in agreement; a sweep does exactly when it is aligned. */
  lemma StepAgrees(c: Setup, s: Snap, op: Op, t: Snap)
    requires SnapOk(c, s) && OpStep(c, s, op, t)
    ensures SnapOk(c, t)
    ensures Agrees(s) ==> (Agrees(t) <==> SweepAligned(s, op))
  {
    match op
    case Get(name, now) =>
      var d := TrimDot(name);
      if d !in s.host && RoomIn(c.v4, s.v4, s.ip.Keys) && RoomIn(c.v6, s.v6, s.ip.Keys) {
        NewKeeps(c, s, d, now, t);
      }
    case Find(_, _) =>
    case Expire(now) => ExpireKeeps(c, s, now, t);
    case Save =>
    case Restart(now) => RestartKeeps(c, s, now, t);
    case Wipe =>
  }

  ghost predicate AllAgree(trace: seq<Snap>) {
    forall k :: 0 <= k < |trace| ==> Agrees(trace[k])
  }

  ghost predicate AllAligned(ops: seq<Op>, trace: seq<Snap>)
    requires |trace| == |ops| + 1
  {
    forall k {:trigger ops[k]} :: 0 <= k < |ops| ==> SweepAligned(trace[k], ops[k])
  }

  /** In every run of gets, lookups, sweeps, saves, restarts and clears, in any order, that starts from agreeing
      maps, the maps agree after every operation if and only if every sweep finds all expired records aligned. */
  lemma {:induction false} AgreesIffAligned(c: Setup, ops: seq<Op>, trace: seq<Snap>)
    requires IsRun(c, ops, trace) && SnapOk(c, trace[0]) && Agrees(trace[0])
    ensures SnapOk(c, trace[|ops|])
    ensures AllAgree(trace) <==> AllAligned(ops, trace)
    decreases |ops|
  {
    if ops != [] {
      var n := |ops| - 1;
      var before, past := ops[..n], trace[..n + 1];
      assert forall k :: 0 <= k < n ==> before[k] == ops[k];
      AgreesIffAligned(c, before, past);
      StepAgrees(c, trace[n], ops[n], trace[n + 1]);
      LastStep(ops, trace, n);
    }
  }

  /** Agreement and alignment of a run and of the run without its last operation. */
  lemma LastStep(ops: seq<Op>, trace: seq<Snap>, n: nat)
    requires |trace| == |ops| + 1 && |ops| == n + 1
    ensures AllAgree(trace) <==> AllAgree(trace[..n + 1]) && Agrees(trace[n + 1])
    ensures AllAligned(ops, trace) <==> AllAligned(ops[..n], trace[..n + 1]) && SweepAligned(trace[n], ops[n])
    ensures AllAgree(trace[..n + 1]) ==> Agrees(trace[n])
  {
    var before, past := ops[..n], trace[..n + 1];
    assert past[n] == trace[n];
    assert forall k :: 0 <= k < n ==> before[k] == ops[k];
    assert forall k :: 0 <= k < n + 1 ==> past[k] == trace[k];
  }

  // ----- the pool runs that way -----

  method Serve(p: Pool, name: string, now: int)
    requires p.Valid()
    modifies p, p.Records()
    ensures p.Valid() && fresh(p.Records() - old(p.Records()))
    ensures GetStep(SetupOf(p), old(SnapOf(p)), TrimDot(name), now, SnapOf(p))
  {
    ghost var c, s, t := SetupOf(p), SnapOf(p), SnapOf(p);
    var known := p.Knows(name);
    var room := false;
    if known {
      t := Renew(p, name, now, s);
    } else {
      room := p.FindRoom();
      if room {
        t := Create(p, name, now, c, s);
      }
    }
    GetIs(c, s, TrimDot(name), now, t, room);
  }

  lemma GetIs(c: Setup, s: Snap, d: string, now: int, t: Snap, room: bool)
    requires d in s.host ==> t == s.(expires := s.expires[s.host[d] := now + c.ttl])
    requires d !in s.host ==> (room <==> RoomIn(c.v4, s.v4, s.ip.Keys) && RoomIn(c.v6, s.v6, s.ip.Keys))
    requires d !in s.host && room ==> NewStep(c, s, d, now, t)
    requires d !in s.host && !room ==> t == s
    ensures GetStep(c, s, d, now, t)
  {
  }

  method Renew(p: Pool, name: string, now: int, ghost s: Snap) returns (ghost t: Snap)
    requires p.Valid() && TrimDot(name) in p.host && s == SnapOf(p)
    modifies p, p.Records()
    ensures p.Valid() && p.Records() == old(p.Records())
    ensures t == SnapOf(p) && t == s.(expires := s.expires[s.host[TrimDot(name)] := now + p.ttl])
  {
    var answer := p.GetFakeIP(name, now);
    t := SnapOf(p);
    ChangedAt(s.expires, t.expires, s.host[TrimDot(name)], now + p.ttl);
  }

  method Create(p: Pool, name: string, now: int, ghost c: Setup, ghost s: Snap) returns (ghost t: Snap)
    requires p.Valid() && TrimDot(name) !in p.host && p.HasRoom() && c == SetupOf(p) && s == SnapOf(p)
    modifies p, p.Records()
    ensures p.Valid() && fresh(p.Records() - old(p.Records()))
    ensures t == SnapOf(p) && NewStep(c, s, TrimDot(name), now, t)
  {
    ghost var d := TrimDot(name);
    var answer := p.GetFakeIP(name, now);
    t := SnapOf(p);
    NewRecords(s.host, s.ip, d, t.host[d]);
    ChangedAt(s.expires, t.expires, t.host[d], now + p.ttl);
    NewStepIs(c, s, d, now, t);
  }

  lemma NewStepIs(c: Setup, s: Snap, d: string, now: int, t: Snap)
    requires CursorsOk(c.v4, s.v4) && AllFirstFree(c.v4, s.v4, s.ip.Keys, t.v4)
    requires CursorsOk(c.v6, s.v6) && AllFirstFree(c.v6, s.v6, s.ip.Keys, t.v6)
    requires d in t.host && t.host[d] !in s.expires && t.host[d].domain == d && t.host[d].ips == t.v4 + t.v6
    requires t.host == s.host[d := t.host[d]] && t.ip == WithRecord(s.ip, t.host[d].ips, t.host[d])
    requires t.expires == s.expires[t.host[d] := now + c.ttl]
    ensures NewStep(c, s, d, now, t)
  {
  }

  lemma ChangedAt(m: map<Record, int>, m': map<Record, int>, r: Record, v: int)
    requires m'.Keys == m.Keys + {r} && m'[r] == v
    requires forall q :: q in m && q != r ==> m'[q] == m[q]
    ensures m' == m[r := v]
  {
  }

  method LookUp(p: Pool, addr: Addr, now: int)
    requires p.Valid()
    modifies p, p.Records()
    ensures p.Valid() && p.Records() == old(p.Records())
    ensures FindStep(SetupOf(p), old(SnapOf(p)), addr.Unmap(), now, SnapOf(p))
  {
    ghost var s, a := SnapOf(p), addr.Unmap();
    var domain := p.LookUpAddr(addr, now);
    assert SnapOf(p).expires == if a in s.ip then s.expires[s.ip[a] := now + p.ttl] else s.expires;
  }

  method Sweep(p: Pool, now: int)
    requires p.Valid()
    modifies p
    ensures p.Valid() && fresh(p.Records() - old(p.Records()))
    ensures ExpireStep(old(SnapOf(p)), now, SnapOf(p))
  {
    ghost var s := SnapOf(p);
    assert DeadIn(s, now) == p.Dead(now);
    p.CleanExpired(now);
    ghost var t := SnapOf(p);
    SweptRecords(s, DeadIn(s, now), t);
    Restricted(s.expires, t.expires, t.host.Values, t.ip.Values);
  }

  lemma Restricted(m: map<Record, int>, m': map<Record, int>, a: set<Record>, b: set<Record>)
    requires m'.Keys == a + b <= m.Keys && forall r :: r in m' ==> m'[r] == m[r]
    ensures m' == map r | r in m && (r in a || r in b) :: m[r]
  {
  }

  lemma SweptRecords(s: Snap, dead: set<Record>, t: Snap)
    requires t.host == SweptHost(s.host, s.ip, dead, ShardCount) && t.ip == SweptIps(s.ip, dead, ShardCount)
    ensures t.host.Values + t.ip.Values <= s.host.Values + s.ip.Values
  {
  }

  method Open(c: Setup, file: Option<PersistState>, now: int) returns (p: Pool)
    requires SoundPrefixes(c.v4) && SoundPrefixes(c.v6) && c.Prefixes() != []
    ensures fresh(p) && fresh(p.Records()) && p.Valid() && SetupOf(p) == c
    ensures StartsFrom(c, file, now, SnapOf(p))
    ensures SnapOk(c, SnapOf(p)) && (file.None? || SavedAgree(file.value.records) ==> Agrees(SnapOf(p)))
  {
    p := new Pool(c.v4, c.v6, c.ttl, file, now);
    ghost var t := SnapOf(p);
    if file.None? {
      assert t.expires == map[];
    }
  }

  method Reopened(p: Pool, now: int) returns (q: Pool)
    requires p.Valid()
    modifies p
    ensures fresh(q) && fresh(q.Records()) && q.Valid() && SetupOf(q) == SetupOf(p)
    ensures OpStep(SetupOf(p), old(SnapOf(p)), Restart(now), SnapOf(q))
  {
    ghost var s := SnapOf(p);
    var file := p.Close();
    assert file.records == SavedOf(s);
    q := Open(Setup(p.v4Prefixes, p.v6Prefixes, p.ttl), Some(file), now);
    CursorsBack(p.v4Prefixes, p.v4Currents, Some(file), false, q.v4Currents);
    CursorsBack(p.v6Prefixes, p.v6Currents, Some(file), true, q.v6Currents);
  }

  /** One operation on the pool, or on the one a restart makes of it. */
  method Perform(p: Pool, op: Op) returns (q: Pool)
    requires p.Valid()
    modifies p, p.Records()
    ensures (q == p || fresh(q)) && fresh(q.Records() - old(p.Records()))
    ensures q.Valid() && SetupOf(q) == SetupOf(p)
    ensures OpStep(SetupOf(p), old(SnapOf(p)), op, SnapOf(q))
  {
    q := p;
    match op
    case Get(name, now) => Serve(p, name, now);
    case Find(addr, now) => LookUp(p, addr, now);
    case Expire(now) => Sweep(p, now);
    case Save =>
      var file := p.SaveToFileIfDirty();
    case Restart(now) =>
      q := Reopened(p, now);
    case Wipe =>
      var file := p.Clear();
      assert SnapOf(p).expires == map[];
  }

  /** Performs the operations on a new pool. The trace is the run, and along it the maps agree if and only if
      every sweep is aligned, provided that the file the pool was opened from agrees. */
  method RunAll(c: Setup, file: Option<PersistState>, now: int, ops: seq<Op>) returns (p: Pool, ghost trace: seq<Snap>)
    requires SoundPrefixes(c.v4) && SoundPrefixes(c.v6) && c.Prefixes() != []
    ensures fresh(p) && p.Valid() && SetupOf(p) == c
    ensures IsRun(c, ops, trace) && StartsFrom(c, file, now, trace[0]) && trace[|ops|] == SnapOf(p)
    ensures file.None? || SavedAgree(file.value.records) ==> (AllAgree(trace) <==> AllAligned(ops, trace))
  {
    p := Open(c, file, now);
    p, trace := RunOps(p, ops);
    if file.None? || SavedAgree(file.value.records) {
      AgreesIffAligned(c, ops, trace);
    }
  }

  method RunOps(p0: Pool, ops: seq<Op>) returns (p: Pool, ghost trace: seq<Snap>)
    requires p0.Valid()
    modifies p0, p0.Records()
    ensures (p == p0 || fresh(p)) && p.Valid() && SetupOf(p) == SetupOf(p0)
    ensures IsRun(SetupOf(p0), ops, trace) && trace[0] == old(SnapOf(p0)) && trace[|ops|] == SnapOf(p)
  {
    p := p0;
    trace := [SnapOf(p)];
    for k := 0 to |ops|
      invariant (p == p0 || fresh(p)) && fresh(p.Records() - old(p0.Records()))
      invariant p.Valid() && SetupOf(p) == SetupOf(p0)
      invariant IsRun(SetupOf(p0), ops[..k], trace) && trace[0] == old(SnapOf(p0)) && trace[k] == SnapOf(p)
    {
      p, trace := Extend(p, ops, trace, k);
    }
    assert ops[..|ops|] == ops;
  }

  method Extend(p: Pool, ops: seq<Op>, ghost past: seq<Snap>, k: nat) returns (q: Pool, ghost trace: seq<Snap>)
    requires p.Valid() && k < |ops| && IsRun(SetupOf(p), ops[..k], past) && past[k] == SnapOf(p)
    modifies p, p.Records()
    ensures (q == p || fresh(q)) && fresh(q.Records() - old(p.Records()))
    ensures q.Valid() && SetupOf(q) == SetupOf(p)
    ensures IsRun(SetupOf(p), ops[..k + 1], trace) && trace[0] == past[0] && trace[k + 1] == SnapOf(q)
  {
    q := Perform(p, ops[k]);
    trace := past + [SnapOf(q)];
    RunLonger(SetupOf(p), ops, past, k, SnapOf(q));
  }

  lemma RunLonger(c: Setup, ops: seq<Op>, past: seq<Snap>, k: nat, t: Snap)
    requires k < |ops| && IsRun(c, ops[..k], past) && OpStep(c, past[k], ops[k], t)
    ensures IsRun(c, ops[..k + 1], past + [t])
  {
    var now, trace := ops[..k + 1], past + [t];
    forall j | 0 <= j < k + 1 ensures OpStep(c, trace[j], now[j], trace[j + 1]) {
      if j < k {
        assert ops[..k][j] == now[j] && trace[j] == past[j] && trace[j + 1] == past[j + 1];
      }
    }
  }
}
