/** Concurrent FakeIP requests. Each critical section of the source is one step; between two steps of a
    request any other request, the expiry sweep, a clear or a lookup may run. */
module FakeIPProtocol {
  import opened Basics
  import opened Net
  import opened Cursor
  import opened Shards

  /** A record loaded from the file, with its addresses. */
  datatype Saved = Saved(domain: string, ips: set<Addr>)

  /** What a pool starts with: the loaded records, by number, the two maps and the expiry times. */
  datatype Restored = Restored(records: map<nat, Saved>, host: map<string, nat>, ip: map<Addr, nat>, expires: map<nat, int>)

  const Nothing := Restored(map[], map[], map[], map[])

  datatype Config = Config(prefixes: seq<Prefix>, starts: seq<Addr>, ttl: int, restored: Restored)

  /** One pass of an allocation loop: the address the cursor moved to, and whether it had a record. */
  datatype Visit = Visit(addr: Addr, occupied: bool)

  /** An address handed to a request, and which visit of its subnet handed it out. */
  datatype Slot = Slot(addr: Addr, at: nat)

  /** Where a request is. `Inserting(k)`: its host entry and its first k address entries are made.
      `Answered(rec)`: it has returned the addresses of record rec. */
  datatype Phase = Missed | Allocating | Allocated | Inserting(k: nat) | Answered(rec: nat)

  datatype Req = Req(domain: string, phase: Phase, slots: seq<Slot>)

  /** Where the expiry sweep stands: about to go through address shard i, or about to delete the domains it
      found there from host shard i. It reads the clock once. */
  datatype Sweep = NoSweep | AtIps(now: nat, i: nat) | AtHosts(now: nat, i: nat, domains: set<string>)

  /** A record is named by the request that makes it, or by its number among the loaded ones, which is no
      request's. `trail` logs the cursors; `gone` logs the address entries that a record has lost: to a
      sweep, to a clear, or, when the loaded maps do not agree, to another loaded record. */
  datatype State = State(
    saved: map<nat, Saved>,
    trail: seq<seq<Visit>>,
    lock: Option<nat>,
    reqs: map<nat, Req>,
    host: map<string, nat>,
    ip: map<Addr, nat>,
    expires: map<nat, int>,
    clock: nat,
    sweep: Sweep,
    gone: set<(nat, Addr)>)

  datatype Action =
    | Ask(r: nat, domain: string)
    | Lock(r: nat)
    | Advance(r: nat)
    | Unlock(r: nat)
    | EnterHost(r: nat)
    | EnterIp(r: nat)
    | LookUp(a: Addr)
    | SweepStart
    | SweepIps
    | SweepHost
    | ClearHost(i: nat)
    | ClearIps(i: nat)
    | Tick(dt: nat)

  predicate ValidConfig(c: Config) {
    && c.prefixes != [] && |c.starts| == |c.prefixes|
    && (forall i :: 0 <= i < |c.prefixes| ==> Usable(c.prefixes[i]) && c.prefixes[i].Contains(c.starts[i]))
    && RestoredOk(c.restored)
  }

  /** Each entry of the loaded maps leads to a loaded record: of the domain, or listing the address. The maps
      need not agree. */
  predicate RestoredOk(m: Restored) {
    && (forall d :: d in m.host ==> m.host[d] in m.records && m.records[m.host[d]].domain == d)
    && (forall a :: a in m.ip ==> m.ip[a] in m.records && a in m.records[m.ip[a]].ips)
  }

  /** The addresses a loaded record lists and is not looked up for. None, when the loaded maps agree. */
  function Lost(m: Restored): set<(nat, Addr)> {
    set rec, a | rec in m.records && a in m.records[rec].ips && !(a in m.ip && m.ip[a] == rec) :: (rec, a)
  }

  /** No address belongs to two subnets. */
  ghost predicate Disjoint(c: Config)
    requires ValidConfig(c)
  {
    forall i, j, a {:trigger c.prefixes[i].Contains(a), c.prefixes[j].Contains(a)} ::
      0 <= i < |c.prefixes| && 0 <= j < |c.prefixes| && c.prefixes[i].Contains(a) && c.prefixes[j].Contains(a) ==> i == j
  }

  function Init(c: Config): State {
    State(c.restored.records, seq(|c.prefixes|, _ => []), None, map[], c.restored.host, c.restored.ip,
          c.restored.expires, 0, NoSweep, Lost(c.restored))
  }

  function CursorOf(c: Config, s: State, i: nat): Addr
    requires i < |s.trail| && i < |c.starts|
  {
    if s.trail[i] == [] then c.starts[i] else s.trail[i][|s.trail[i]| - 1].addr
  }

  predicate InPhase(s: State, r: nat, p: Phase) {
    r in s.reqs && s.reqs[r].phase == p
  }

  predicate Enabled(c: Config, s: State, act: Action) {
    match act
    case Ask(r, _) => r !in s.reqs && r !in s.saved
    case Lock(r) => InPhase(s, r, Missed) && s.lock == None
    case Advance(r) =>
      && InPhase(s, r, Allocating) && s.lock == Some(r) && |s.reqs[r].slots| < |c.prefixes|
      && |s.trail| == |c.prefixes| == |c.starts|
      && var i := |s.reqs[r].slots|; c.prefixes[i].Valid() && !CursorOf(c, s, i).Invalid?
    case Unlock(r) => InPhase(s, r, Allocating) && s.lock == Some(r) && |s.reqs[r].slots| == |c.prefixes|
    case EnterHost(r) => InPhase(s, r, Allocated)
    case EnterIp(r) => r in s.reqs && s.reqs[r].phase.Inserting? && s.reqs[r].phase.k < |s.reqs[r].slots|
    case LookUp(a) => a in s.ip
    case SweepStart => s.sweep.NoSweep?
    case SweepIps => s.sweep.AtIps?
    case SweepHost => s.sweep.AtHosts?
    case ClearHost(i) => i < ShardCount
    case ClearIps(i) => i < ShardCount
    case Tick(_) => true
  }

  predicate Expired(s: State, r: nat, now: nat) {
    r in s.expires && now > s.expires[r]
  }

  /** The address entries of shard i that a sweep which read the clock at `now` removes. */
  function Dead(s: State, i: nat, now: nat): set<Addr> {
    set a | a in s.ip && IpShard(a) == i && Expired(s, s.ip[a], now)
  }

  /** The domain a record names. */
  function DomainOf(s: State, rec: nat): string {
    if rec in s.saved then s.saved[rec].domain else if rec in s.reqs then s.reqs[rec].domain else ""
  }

  function InShard(s: State, i: nat): set<Addr> {
    set a | a in s.ip && IpShard(a) == i
  }

  function Remove(s: State, as_: set<Addr>): State {
    s.(ip := s.ip - as_, gone := s.gone + set a | a in s.ip && a in as_ :: (s.ip[a], a))
  }

  function Apply(c: Config, s: State, act: Action): State
    requires Enabled(c, s, act)
  {
    match act
    case Ask(r, d) =>
      if d in s.host then
        s.(reqs := s.reqs[r := Req(d, Answered(s.host[d]), [])], expires := s.expires[s.host[d] := s.clock + c.ttl])
      else
        s.(reqs := s.reqs[r := Req(d, Missed, [])])
    case Lock(r) => s.(lock := Some(r), reqs := s.reqs[r := s.reqs[r].(phase := Allocating)])
    case Advance(r) =>
      var q, i := s.reqs[r], |s.reqs[r].slots|;
      var a := Step(c.prefixes[i], CursorOf(c, s, i));
      var visit := Visit(a, a in s.ip);
      var s' := s.(trail := s.trail[i := s.trail[i] + [visit]]);
      if visit.occupied then s'
      else s'.(reqs := s.reqs[r := q.(slots := q.slots + [Slot(a, |s.trail[i]|)])])
    case Unlock(r) => s.(lock := None, reqs := s.reqs[r := s.reqs[r].(phase := Allocated)])
    case EnterHost(r) =>
      s.(host := s.host[s.reqs[r].domain := r], expires := s.expires[r := s.clock + c.ttl],
         reqs := s.reqs[r := s.reqs[r].(phase := Inserting(0))])
    case EnterIp(r) =>
      var q := s.reqs[r];
      var k := q.phase.k;
      s.(ip := s.ip[q.slots[k].addr := r],
         reqs := s.reqs[r := q.(phase := if k + 1 == |q.slots| then Answered(r) else Inserting(k + 1))])
    case LookUp(a) => s.(expires := s.expires[s.ip[a] := s.clock + c.ttl])
    case SweepStart => s.(sweep := AtIps(s.clock, 0))
    case SweepIps =>
      var now, i := s.sweep.now, s.sweep.i;
      var dead := Dead(s, i, now);
      Remove(s, dead).(sweep := AtHosts(now, i, set a | a in dead :: DomainOf(s, s.ip[a])))
    case SweepHost =>
      var now, i, domains := s.sweep.now, s.sweep.i, s.sweep.domains;
      s.(host := map d | d in s.host && !(d in domains && HostShard(d) == i) :: s.host[d],
         sweep := if i + 1 < ShardCount then AtIps(now, i + 1) else NoSweep)
    case ClearHost(i) => s.(host := map d | d in s.host && HostShard(d) != i :: s.host[d])
    case ClearIps(i) => Remove(s, InShard(s, i))
    case Tick(dt) => s.(clock := s.clock + dt)
  }

  /** How many of a request's addresses have been entered. */
  function Entered(q: Req): nat {
    match q.phase
    case Inserting(k) => k
    case Answered(_) => |q.slots|
    case _ => 0
  }

  /** Address i of request r has been handed out and not yet entered. */
  predicate Pending(s: State, r: nat, i: nat) {
    r in s.reqs && Entered(s.reqs[r]) <= i < |s.reqs[r].slots|
  }

  /** Record r lists address a among the addresses of its domain. */
  ghost predicate Lists(s: State, r: nat, a: Addr) {
    || (r in s.saved && a in s.saved[r].ips)
    || (r in s.reqs && exists i: nat :: i < |s.reqs[r].slots| && s.reqs[r].slots[i].addr == a)
  }

  /** An address of record r waits to be entered. */
  ghost predicate Waiting(s: State, r: nat, a: Addr) {
    exists i: nat :: Pending(s, r, i) && s.reqs[r].slots[i].addr == a
  }

  /** Address a is looked up to record r. */
  predicate LooksUp(s: State, r: nat, a: Addr) {
    a in s.ip && s.ip[a] == r
  }

  /** Record r holds address a: it waits to be entered, or it is in the address map. */
  ghost predicate Holds(s: State, r: nat, a: Addr) {
    LooksUp(s, r, a) || Waiting(s, r, a)
  }

  /** The condition: since an address waiting to be entered was handed out, its subnet's cursor has moved fewer
      than Size positions. (Addresses below the configured one are visited once at most.) */
  ghost predicate Timely(c: Config, s: State)
    requires ValidConfig(c)
  {
    forall r: nat, i: nat {:trigger Pending(s, r, i)} :: Pending(s, r, i) ==>
      && i < |c.prefixes| && i < |s.trail|
      && (Coord(c.prefixes[i], c.starts[i]) + s.reqs[r].slots[i].at >= 0 ==>
            |s.trail[i]| <= s.reqs[r].slots[i].at + Size(c.prefixes[i]))
  }

  // ----- the invariant -----

  /** Visit k of subnet i, counted from 0, is the one the closed form gives. */
  ghost predicate VisitOk(c: Config, i: nat, k: nat, v: Visit)
    requires ValidConfig(c) && i < |c.prefixes|
  {
    var p := c.prefixes[i];
    var x := Coord(p, c.starts[i]) + 1 + k;
    OnLine(p, x) && v.addr == VisitAt(p, x)
  }

  /** The cursors follow the closed form. */
  ghost predicate TrailOk(c: Config, trail: seq<seq<Visit>>) {
    && ValidConfig(c) && |trail| == |c.prefixes|
    && (forall i: nat, k: nat {:trigger trail[i][k]} :: i < |trail| && k < |trail[i]| ==> VisitOk(c, i, k, trail[i][k]))
  }

  /** Each slot was a free visit of its subnet. */
  ghost predicate SlotsLogged(trail: seq<seq<Visit>>, slots: seq<Slot>) {
    && |slots| <= |trail|
    && forall i {:trigger slots[i]} :: 0 <= i < |slots| ==>
         slots[i].at < |trail[i]| && trail[i][slots[i].at] == Visit(slots[i].addr, false)
  }

  /** No visit was handed to two requests. */
  ghost predicate SlotsApart(a: seq<Slot>, b: seq<Slot>) {
    forall i {:trigger a[i], b[i]} :: 0 <= i < |a| && i < |b| ==> a[i].at != b[i].at
  }

  ghost predicate SlotsOk(s: State) {
    && (forall r {:trigger s.reqs[r]} :: r in s.reqs ==> SlotsLogged(s.trail, s.reqs[r].slots))
    && (forall r, r' {:trigger SlotsApart(s.reqs[r].slots, s.reqs[r'].slots)} ::
          r in s.reqs && r' in s.reqs && r != r' ==> SlotsApart(s.reqs[r].slots, s.reqs[r'].slots))
  }

  ghost predicate PhaseOk(n: nat, lock: Option<nat>, r: nat, q: Req) {
    match q.phase
    case Missed => lock != Some(r) && q.slots == []
    case Allocating => lock == Some(r) && |q.slots| <= n
    case Allocated => lock != Some(r) && |q.slots| == n
    case Inserting(k) => lock != Some(r) && |q.slots| == n && k < n
    case Answered(rec) => lock != Some(r) && if rec == r then |q.slots| == n else q.slots == []
  }

  /** A loaded record of domain d, or one that a request has begun to enter. */
  ghost predicate RecordOf(n: nat, s: State, rec: nat, d: string) {
    || (rec in s.saved && s.saved[rec].domain == d)
    || (&& rec in s.reqs && s.reqs[rec].domain == d && |s.reqs[rec].slots| == n
        && (s.reqs[rec].phase.Inserting? || s.reqs[rec].phase == Answered(rec)))
  }

  ghost predicate PhasesOk(n: nat, s: State) {
    && (forall r {:trigger s.reqs[r]} :: r in s.reqs ==> PhaseOk(n, s.lock, r, s.reqs[r]))
    && (s.lock.Some? ==> s.lock.value in s.reqs)
    && (forall d {:trigger s.host[d]} :: d in s.host ==> RecordOf(n, s, s.host[d], d))
    && (forall r {:trigger s.reqs[r]} :: r in s.reqs && s.reqs[r].phase.Answered? ==>
          RecordOf(n, s, s.reqs[r].phase.rec, s.reqs[r].domain))
  }

  /** Record r made an entry for address a, which may be gone again. */
  ghost predicate HasEntered(s: State, r: nat, a: Addr) {
    || (r in s.saved && a in s.saved[r].ips)
    || (r in s.reqs && exists i: nat :: i < Entered(s.reqs[r]) && i < |s.reqs[r].slots| && s.reqs[r].slots[i].addr == a)
  }

  ghost predicate MapsOk(s: State) {
    && (forall r: nat, i: nat {:trigger Pending(s, r, i)} :: Pending(s, r, i) ==> s.reqs[r].slots[i].addr !in s.ip)
    && (forall r: nat, a {:trigger HasEntered(s, r, a)} :: HasEntered(s, r, a) ==> (a in s.ip && s.ip[a] == r) || (r, a) in s.gone)
    && (forall a {:trigger s.ip[a]} :: a in s.ip ==> HasEntered(s, s.ip[a], a) && (s.ip[a], a) !in s.gone)
    && (forall r: nat, a {:trigger (r, a) in s.gone} :: (r, a) in s.gone ==> HasEntered(s, r, a))
  }

  /** No loaded record is numbered like a request. */
  ghost predicate Apart(s: State) {
    s.saved.Keys !! s.reqs.Keys
  }

  ghost predicate Inv(c: Config, s: State) {
    TrailOk(c, s.trail) && SlotsOk(s) && PhasesOk(|c.prefixes|, s) && MapsOk(s) && Apart(s)
  }

  // ----- the invariant is kept -----

  /** s' differs from s in requests' phases only, and no request entered an address; a request may be new. */
  ghost predicate SameSlots(s: State, s': State) {
    && s'.saved == s.saved && s'.trail == s.trail && s'.ip == s.ip && s'.gone == s.gone && s.reqs.Keys <= s'.reqs.Keys
    && (forall r {:trigger s'.reqs[r]} :: r in s.reqs ==>
          s'.reqs[r].slots == s.reqs[r].slots && Entered(s'.reqs[r]) == Entered(s.reqs[r]))
    && (forall r {:trigger s'.reqs[r]} :: r in s'.reqs && r !in s.reqs ==> s'.reqs[r].slots == [])
  }

  lemma SameSlotsKeep(s: State, s': State)
    requires SameSlots(s, s') && SlotsOk(s) && MapsOk(s)
    ensures SlotsOk(s') && MapsOk(s')
  {
    forall r, r' | r in s'.reqs && r' in s'.reqs && r != r'
      ensures SlotsApart(s'.reqs[r].slots, s'.reqs[r'].slots)
    {
      if r in s.reqs && r' in s.reqs {
        assert SlotsApart(s.reqs[r].slots, s.reqs[r'].slots);
      }
    }
    forall r: nat, a ensures HasEntered(s', r, a) <==> HasEntered(s, r, a) {
    }
    forall r: nat, i: nat ensures Pending(s', r, i) <==> Pending(s, r, i) {
    }
  }

  lemma InitInv(c: Config)
    requires ValidConfig(c)
    ensures Inv(c, Init(c))
  {
  }

  lemma AskKeeps(c: Config, s: State, r: nat, d: string)
    requires Inv(c, s) && Enabled(c, s, Ask(r, d))
    ensures Inv(c, Apply(c, s, Ask(r, d)))
  {
    var s' := Apply(c, s, Ask(r, d));
    assert SameSlots(s, s');
    SameSlotsKeep(s, s');
    AskPhases(c, s, r, d);
  }

  lemma AskPhases(c: Config, s: State, r: nat, d: string)
    requires PhasesOk(|c.prefixes|, s) && Enabled(c, s, Ask(r, d))
    ensures PhasesOk(|c.prefixes|, Apply(c, s, Ask(r, d)))
  {
    var n, s' := |c.prefixes|, Apply(c, s, Ask(r, d));
    forall e | e in s'.host ensures RecordOf(n, s', s'.host[e], e) {
      assert RecordOf(n, s, s.host[e], e);
    }
    forall q | q in s'.reqs && s'.reqs[q].phase.Answered?
      ensures RecordOf(n, s', s'.reqs[q].phase.rec, s'.reqs[q].domain)
    {
      if q != r {
        assert RecordOf(n, s, s.reqs[q].phase.rec, s.reqs[q].domain);
      }
    }
  }

  lemma LockKeeps(c: Config, s: State, r: nat)
    requires Inv(c, s) && Enabled(c, s, Lock(r))
    ensures Inv(c, Apply(c, s, Lock(r)))
  {
    PhaseMoves(c, s, Lock(r));
    SameSlotsKeep(s, Apply(c, s, Lock(r)));
  }

  lemma UnlockKeeps(c: Config, s: State, r: nat)
    requires Inv(c, s) && Enabled(c, s, Unlock(r))
    ensures Inv(c, Apply(c, s, Unlock(r)))
  {
    PhaseMoves(c, s, Unlock(r));
    SameSlotsKeep(s, Apply(c, s, Unlock(r)));
  }

  lemma EnterHostKeeps(c: Config, s: State, r: nat)
    requires Inv(c, s) && Enabled(c, s, EnterHost(r))
    ensures Inv(c, Apply(c, s, EnterHost(r)))
  {
    PhaseMoves(c, s, EnterHost(r));
    SameSlotsKeep(s, Apply(c, s, EnterHost(r)));
  }

  lemma PhaseMoves(c: Config, s: State, act: Action)
    requires c.prefixes != [] && PhasesOk(|c.prefixes|, s) && Enabled(c, s, act) && (act.Lock? || act.Unlock? || act.EnterHost?)
    ensures PhasesOk(|c.prefixes|, Apply(c, s, act))
  {
    var n, s' := |c.prefixes|, Apply(c, s, act);
    assert PhaseOk(n, s.lock, act.r, s.reqs[act.r]);
    forall rec, e | RecordOf(n, s, rec, e) ensures RecordOf(n, s', rec, e) {
    }
  }

  /** Removing address entries, and logging them, keeps the invariant. */
  lemma RemoveKeeps(c: Config, s: State, as_: set<Addr>)
    requires Inv(c, s) && as_ <= s.ip.Keys
    ensures Inv(c, Remove(s, as_))
  {
    var s' := Remove(s, as_);
    assert PhasesOk(|c.prefixes|, s') by {
      forall rec, e | RecordOf(|c.prefixes|, s, rec, e) ensures RecordOf(|c.prefixes|, s', rec, e) {
      }
    }
    RemoveMaps(s, as_);
  }

  lemma RemoveMaps(s: State, as_: set<Addr>)
    requires MapsOk(s) && as_ <= s.ip.Keys
    ensures MapsOk(Remove(s, as_))
  {
    var s' := Remove(s, as_);
    forall r: nat, a ensures HasEntered(s', r, a) <==> HasEntered(s, r, a) {
    }
    forall r: nat, i: nat ensures Pending(s', r, i) <==> Pending(s, r, i) {
    }
  }

  lemma TrailExtends(c: Config, s: State, i: nat, visit: Visit)
    requires TrailOk(c, s.trail) && i < |c.prefixes| && !CursorOf(c, s, i).Invalid?
    requires visit.addr == Step(c.prefixes[i], CursorOf(c, s, i))
    ensures TrailOk(c, s.trail[i := s.trail[i] + [visit]])
  {
    var n := |s.trail[i]|;
    if n == 0 {
      StepFromCursor(c.prefixes[i], c.starts[i]);
    } else {
      VisitFollows(c, i, n, s.trail[i][n - 1], visit);
    }
    AppendTrail(c, s.trail, i, visit);
  }

  lemma VisitFollows(c: Config, i: nat, n: nat, last: Visit, visit: Visit)
    requires ValidConfig(c) && i < |c.prefixes| && n > 0 && VisitOk(c, i, n - 1, last) && !last.addr.Invalid?
    requires visit.addr == Step(c.prefixes[i], last.addr)
    ensures VisitOk(c, i, n, visit)
  {
    StepFromVisit(c.prefixes[i], Coord(c.prefixes[i], c.starts[i]) + n);
  }

  lemma AppendTrail(c: Config, trail: seq<seq<Visit>>, i: nat, visit: Visit)
    requires TrailOk(c, trail) && i < |c.prefixes|
    requires VisitOk(c, i, |trail[i]|, visit)
    ensures TrailOk(c, trail[i := trail[i] + [visit]])
  {
    var trail' := trail[i := trail[i] + [visit]];
    forall j: nat, k: nat | j < |trail'| && k < |trail'[j]| ensures VisitOk(c, j, k, trail'[j][k]) {
      if j != i || k < |trail[i]| {
        assert trail'[j][k] == trail[j][k];
      }
    }
  }

  lemma AdvanceKeeps(c: Config, s: State, r: nat)
    requires Inv(c, s) && Enabled(c, s, Advance(r))
    ensures Inv(c, Apply(c, s, Advance(r)))
  {
    var i := |s.reqs[r].slots|;
    var a := Step(c.prefixes[i], CursorOf(c, s, i));
    TrailExtends(c, s, i, Visit(a, a in s.ip));
    AdvanceSlots(c, s, r);
    AdvancePhases(c, s, r);
    AdvanceMaps(c, s, r);
  }

  lemma AdvanceSlots(c: Config, s: State, r: nat)
    requires SlotsOk(s) && Enabled(c, s, Advance(r))
    ensures SlotsOk(Apply(c, s, Advance(r)))
  {
    var s' := Apply(c, s, Advance(r));
    forall q, q' | q in s'.reqs && q' in s'.reqs && q != q'
      ensures SlotsApart(s'.reqs[q].slots, s'.reqs[q'].slots)
    {
      assert SlotsApart(s.reqs[q].slots, s.reqs[q'].slots);
      assert SlotsLogged(s.trail, s.reqs[q].slots) && SlotsLogged(s.trail, s.reqs[q'].slots);
    }
  }

  lemma AdvancePhases(c: Config, s: State, r: nat)
    requires Inv(c, s) && Enabled(c, s, Advance(r))
    ensures PhasesOk(|c.prefixes|, Apply(c, s, Advance(r)))
  {
    var s' := Apply(c, s, Advance(r));
    forall rec, e | RecordOf(|c.prefixes|, s, rec, e) ensures RecordOf(|c.prefixes|, s', rec, e) {
    }
  }

  lemma AdvanceMaps(c: Config, s: State, r: nat)
    requires MapsOk(s) && PhasesOk(|c.prefixes|, s) && Enabled(c, s, Advance(r))
    ensures MapsOk(Apply(c, s, Advance(r)))
  {
    var s' := Apply(c, s, Advance(r));
    forall q: nat, a ensures HasEntered(s', q, a) <==> HasEntered(s, q, a) {
    }
    forall q: nat, i: nat
      ensures Pending(s', q, i) <==> Pending(s, q, i) || (q == r && s'.reqs[r] != s.reqs[r] && i == |s.reqs[r].slots|)
    {
    }
  }

  /** Two addresses waiting to be entered are never the same, provided the cursors are timely: within one
      subnet they are fewer than Size visits apart, and two subnets share no address. */
  lemma PendingDistinct(c: Config, s: State, r: nat, i: nat, r': nat, j: nat)
    requires Inv(c, s) && Timely(c, s) && Disjoint(c)
    requires Pending(s, r, i) && Pending(s, r', j) && (r != r' || i != j)
    ensures s.reqs[r].slots[i].addr != s.reqs[r'].slots[j].addr
  {
    var k, k' := s.reqs[r].slots[i].at, s.reqs[r'].slots[j].at;
    assert SlotsLogged(s.trail, s.reqs[r].slots) && SlotsLogged(s.trail, s.reqs[r'].slots);
    var x, y := Coord(c.prefixes[i], c.starts[i]) + 1 + k, Coord(c.prefixes[j], c.starts[j]) + 1 + k';
    assert VisitOk(c, i, k, s.trail[i][k]) && VisitOk(c, j, k', s.trail[j][k']);
    if i != j {
      SlotInside(c, s, r, i);
      SlotInside(c, s, r', j);
    } else {
      assert SlotsApart(s.reqs[r].slots, s.reqs[r'].slots);
      if k < k' {
        CloseVisitsDiffer(c.prefixes[i], x, y);
      } else {
        CloseVisitsDiffer(c.prefixes[i], y, x);
      }
    }
  }

  lemma CloseVisitsDiffer(p: Prefix, x: int, y: int)
    requires Usable(p) && OnLine(p, x) && x < y && (x >= 1 ==> y < x + Size(p))
    ensures VisitAt(p, x) != VisitAt(p, y)
  {
    VisitsCoincideIff(p, x, y);
  }

  /** Entering an address never overwrites an entry: the slot is empty. */
  lemma EnterIpKeeps(c: Config, s: State, r: nat)
    requires Inv(c, s) && Enabled(c, s, EnterIp(r)) && Timely(c, s) && Disjoint(c)
    ensures s.reqs[r].slots[s.reqs[r].phase.k].addr !in s.ip
    ensures Inv(c, Apply(c, s, EnterIp(r)))
  {
    var s' := Apply(c, s, EnterIp(r));
    assert Pending(s, r, s.reqs[r].phase.k);
    EnterIpPhases(c, s, r);
    EnterIpMaps(c, s, r);
    forall q, q' | q in s'.reqs && q' in s'.reqs && q != q'
      ensures SlotsApart(s'.reqs[q].slots, s'.reqs[q'].slots)
    {
      assert SlotsApart(s.reqs[q].slots, s.reqs[q'].slots);
    }
  }

  lemma EnterIpPhases(c: Config, s: State, r: nat)
    requires Inv(c, s) && Enabled(c, s, EnterIp(r))
    ensures PhasesOk(|c.prefixes|, Apply(c, s, EnterIp(r)))
  {
    var s' := Apply(c, s, EnterIp(r));
    forall rec, e | RecordOf(|c.prefixes|, s, rec, e) ensures RecordOf(|c.prefixes|, s', rec, e) {
    }
  }

  lemma EnterIpMaps(c: Config, s: State, r: nat)
    requires Inv(c, s) && Enabled(c, s, EnterIp(r)) && Timely(c, s) && Disjoint(c)
    ensures MapsOk(Apply(c, s, EnterIp(r)))
  {
    var k := s.reqs[r].phase.k;
    var b := s.reqs[r].slots[k].addr;
    assert Pending(s, r, k);
    forall i: nat | i < k ensures s.reqs[r].slots[i].addr != b {
      OwnDistinct(c, s, r, i, k);
    }
    forall q: nat, i: nat | Pending(s, q, i) && (q != r || i != k) ensures s.reqs[q].slots[i].addr != b {
      PendingDistinct(c, s, q, i, r, k);
    }
    EnterIpSlots(c, s, r, k, b);
  }

  lemma EnterIpSlots(c: Config, s: State, r: nat, k: nat, b: Addr)
    requires MapsOk(s) && Apart(s) && Enabled(c, s, EnterIp(r)) && k == s.reqs[r].phase.k && b == s.reqs[r].slots[k].addr
    requires forall i: nat :: i < k ==> s.reqs[r].slots[i].addr != b
    requires forall q: nat, i: nat :: Pending(s, q, i) && (q != r || i != k) ==> s.reqs[q].slots[i].addr != b
    ensures MapsOk(Apply(c, s, EnterIp(r)))
  {
    var s' := Apply(c, s, EnterIp(r));
    assert Pending(s, r, k);
    forall q: nat, a ensures HasEntered(s', q, a) <==> HasEntered(s, q, a) || (q == r && a == b) {
    }
    forall q: nat, i: nat | Pending(s', q, i) ensures Pending(s, q, i) && (q != r || i != k) {
    }
    assert !HasEntered(s, r, b);
  }

  /** The addresses of one request lie in different subnets. */
  lemma OwnDistinct(c: Config, s: State, r: nat, i: nat, j: nat)
    requires Inv(c, s) && Disjoint(c) && r in s.reqs && i < j < |s.reqs[r].slots|
    ensures s.reqs[r].slots[i].addr != s.reqs[r].slots[j].addr
  {
    SlotInside(c, s, r, i);
    SlotInside(c, s, r, j);
  }

  lemma SlotInside(c: Config, s: State, r: nat, i: nat)
    requires Inv(c, s) && r in s.reqs && i < |s.reqs[r].slots|
    ensures i < |c.prefixes| && c.prefixes[i].Contains(s.reqs[r].slots[i].addr)
  {
    var k := s.reqs[r].slots[i].at;
    assert SlotsLogged(s.trail, s.reqs[r].slots);
    assert VisitOk(c, i, k, s.trail[i][k]);
    VisitInside(c.prefixes[i], Coord(c.prefixes[i], c.starts[i]) + 1 + k);
  }

  /** Every step keeps the invariant. */
  lemma StepKeeps(c: Config, s: State, act: Action)
    requires Inv(c, s) && Enabled(c, s, act) && Timely(c, s) && Disjoint(c)
    ensures Inv(c, Apply(c, s, act))
  {
    match act
    case Ask(r, d) => AskKeeps(c, s, r, d);
    case Lock(r) => LockKeeps(c, s, r);
    case Advance(r) => AdvanceKeeps(c, s, r);
    case Unlock(r) => UnlockKeeps(c, s, r);
    case EnterHost(r) => EnterHostKeeps(c, s, r);
    case EnterIp(r) => EnterIpKeeps(c, s, r);
    case SweepIps =>
      var dead := Dead(s, s.sweep.i, s.sweep.now);
      RemoveKeeps(c, s, dead);
      OthersKeep(c, Remove(s, dead), Apply(c, s, act));
    case ClearIps(i) => RemoveKeeps(c, s, InShard(s, i));
    case _ => OthersKeep(c, s, Apply(c, s, act));
  }

  /** Lookups, deletions of host entries and the passing of time touch nothing the invariant speaks of but
      the host map, which may only shrink. */
  lemma OthersKeep(c: Config, s: State, s': State)
    requires Inv(c, s)
    requires s'.saved == s.saved && s'.trail == s.trail && s'.lock == s.lock && s'.reqs == s.reqs && s'.ip == s.ip && s'.gone == s.gone
    requires forall d :: d in s'.host ==> d in s.host && s'.host[d] == s.host[d]
    ensures Inv(c, s')
  {
    SameSlotsKeep(s, s');
    forall d | d in s'.host ensures RecordOf(|c.prefixes|, s', s'.host[d], d) {
      assert RecordOf(|c.prefixes|, s, s.host[d], d);
    }
    forall r | r in s'.reqs && s'.reqs[r].phase.Answered?
      ensures RecordOf(|c.prefixes|, s', s'.reqs[r].phase.rec, s'.reqs[r].domain)
    {
      assert RecordOf(|c.prefixes|, s, s.reqs[r].phase.rec, s.reqs[r].domain);
    }
  }

  // ----- runs -----

  ghost predicate WellConfigured(c: Config) {
    ValidConfig(c) && Disjoint(c)
  }

  /** The actions lead from s to t. */
  ghost predicate Steps(c: Config, s: State, acts: seq<Action>, t: State)
    decreases |acts|
  {
    if acts == [] then s == t else Enabled(c, s, acts[0]) && Steps(c, Apply(c, s, acts[0]), acts[1..], t)
  }

  /** And the cursors are timely at every state on the way, the first and the last included. */
  ghost predicate Run(c: Config, s: State, acts: seq<Action>, t: State)
    requires ValidConfig(c)
    decreases |acts|
  {
    && Timely(c, s)
    && if acts == [] then s == t else Enabled(c, s, acts[0]) && Run(c, Apply(c, s, acts[0]), acts[1..], t)
  }

  lemma {:induction false} RunKeeps(c: Config, s: State, acts: seq<Action>, t: State)
    requires WellConfigured(c) && Inv(c, s) && Run(c, s, acts, t)
    ensures Inv(c, t) && Timely(c, t)
    decreases |acts|
  {
    if acts != [] {
      StepKeeps(c, s, acts[0]);
      RunKeeps(c, Apply(c, s, acts[0]), acts[1..], t);
    }
  }

  /** No address is held by two records. */
  ghost predicate Unique(s: State) {
    forall r: nat, r': nat, a :: Holds(s, r, a) && Holds(s, r', a) ==> r == r'
  }

  /** Each address a record lists is looked up to that record exactly when it neither waits to be entered nor
      has been lost. */
  ghost predicate LookupsExact(s: State) {
    forall r: nat, a {:trigger Lists(s, r, a)} :: Lists(s, r, a) ==>
      (LooksUp(s, r, a) <==> !Waiting(s, r, a) && (r, a) !in s.gone)
  }

  /** Two domains' records list one address only if one of them has lost it. */
  ghost predicate HostsShareLost(s: State) {
    forall d, e, a :: d in s.host && e in s.host && d != e && Lists(s, s.host[d], a) && Lists(s, s.host[e], a) ==>
      (s.host[d], a) in s.gone || (s.host[e], a) in s.gone
  }

  /** An answered request was told the addresses of a record of its own domain. */
  ghost predicate AnswersOwn(s: State) {
    forall r {:trigger s.reqs[r]} :: r in s.reqs && s.reqs[r].phase.Answered? ==>
      DomainOf(s, s.reqs[r].phase.rec) == s.reqs[r].domain
  }

  /** In every timely run: no address is held by two records; every address a domain's record lists, and so
      every answered one, is looked up to that record exactly when it is entered and not lost; two domains
      never share an address that neither has lost; and a request that made its own record is answered
      only when all its addresses are entered. */
  lemma Safety(c: Config, acts: seq<Action>, s: State)
    requires WellConfigured(c) && Run(c, Init(c), acts, s)
    ensures Unique(s) && LookupsExact(s) && HostsShareLost(s) && AnswersOwn(s)
    ensures forall r :: r in s.reqs && s.reqs[r].phase == Answered(r) ==> forall i: nat :: !Pending(s, r, i)
  {
    InitInv(c);
    RunKeeps(c, Init(c), acts, s);
    UniqueNow(c, s);
    ExactNow(c, s);
    SharersNow(c, s);
    OwnNow(c, s);
  }

  lemma UniqueNow(c: Config, s: State)
    requires Inv(c, s) && Timely(c, s) && Disjoint(c)
    ensures Unique(s)
  {
    forall r: nat, r': nat, a | Holds(s, r, a) && Holds(s, r', a) ensures r == r' {
      OneHolder(c, s, r, r', a);
    }
  }

  lemma OneHolder(c: Config, s: State, r: nat, r': nat, a: Addr)
    requires Inv(c, s) && Timely(c, s) && Disjoint(c) && Holds(s, r, a) && Holds(s, r', a)
    ensures r == r'
  {
    if r != r' && !(a in s.ip) {
      var i: nat :| Pending(s, r, i) && s.reqs[r].slots[i].addr == a;
      var j: nat :| Pending(s, r', j) && s.reqs[r'].slots[j].addr == a;
      PendingDistinct(c, s, r, i, r', j);
    }
  }

  lemma ExactNow(c: Config, s: State)
    requires Inv(c, s)
    ensures LookupsExact(s)
  {
    forall r: nat, a | Lists(s, r, a) ensures LooksUp(s, r, a) <==> !Waiting(s, r, a) && (r, a) !in s.gone {
      ListedIsEntered(c, s, r, a);
      if Waiting(s, r, a) {
        var i: nat :| Pending(s, r, i) && s.reqs[r].slots[i].addr == a;
        assert s.reqs[r].slots[i].addr !in s.ip;
      }
    }
  }

  lemma ListedIsEntered(c: Config, s: State, r: nat, a: Addr)
    requires Inv(c, s) && Lists(s, r, a)
    ensures Waiting(s, r, a) || HasEntered(s, r, a)
  {
    if r !in s.saved {
      var i: nat :| i < |s.reqs[r].slots| && s.reqs[r].slots[i].addr == a;
      assert i < Entered(s.reqs[r]) || Pending(s, r, i);
    }
  }

  lemma SharersNow(c: Config, s: State)
    requires Inv(c, s) && Unique(s) && LookupsExact(s)
    ensures HostsShareLost(s)
  {
    forall d, e, a | d in s.host && e in s.host && d != e && Lists(s, s.host[d], a) && Lists(s, s.host[e], a)
      ensures (s.host[d], a) in s.gone || (s.host[e], a) in s.gone
    {
      assert RecordOf(|c.prefixes|, s, s.host[d], d) && RecordOf(|c.prefixes|, s, s.host[e], e);
      assert (s.host[d], a) in s.gone || Holds(s, s.host[d], a);
      assert (s.host[e], a) in s.gone || Holds(s, s.host[e], a);
    }
  }

  lemma OwnNow(c: Config, s: State)
    requires Inv(c, s)
    ensures AnswersOwn(s)
    ensures forall r :: r in s.reqs && s.reqs[r].phase == Answered(r) ==> forall i: nat :: !Pending(s, r, i)
  {
    forall r | r in s.reqs && s.reqs[r].phase.Answered? ensures DomainOf(s, s.reqs[r].phase.rec) == s.reqs[r].domain {
      assert RecordOf(|c.prefixes|, s, s.reqs[r].phase.rec, s.reqs[r].domain);
    }
  }

  // ----- from one state to the next -----

  /** Once an address is looked up to a record it stays so until a clear, or a sweep that finds the record
      expired, removes it. */
  lemma LostOnlyByRemoval(c: Config, s: State, act: Action, r: nat, a: Addr)
    requires Inv(c, s) && Enabled(c, s, act) && Timely(c, s) && Disjoint(c) && LooksUp(s, r, a)
    ensures !LooksUp(Apply(c, s, act), r, a) <==>
      || (act.ClearIps? && IpShard(a) == act.i)
      || (act.SweepIps? && IpShard(a) == s.sweep.i && Expired(s, r, s.sweep.now))
  {
    if act.EnterIp? {
      EnterIpKeeps(c, s, act.r);
    }
  }

  /** The guard for a hit: what the request is answered with can all be looked up to its record exactly when it
      could before, which is when nothing of the record waits to be entered or has been lost. */
  lemma HitGuard(c: Config, s: State, r: nat, d: string)
    requires Inv(c, s) && Enabled(c, s, Ask(r, d)) && d in s.host
    ensures var t := Apply(c, s, Ask(r, d));
      && InPhase(t, r, Answered(s.host[d])) && DomainOf(t, s.host[d]) == d
      && ((forall a :: Lists(t, s.host[d], a) ==> LooksUp(t, s.host[d], a))
          <==> forall a :: Lists(s, s.host[d], a) ==> LooksUp(s, s.host[d], a))
      && ((forall a :: Lists(t, s.host[d], a) ==> LooksUp(t, s.host[d], a))
          <==> forall a :: Lists(s, s.host[d], a) ==> !Waiting(s, s.host[d], a) && (s.host[d], a) !in s.gone)
  {
    var rec, t := s.host[d], Apply(c, s, Ask(r, d));
    assert RecordOf(|c.prefixes|, s, rec, d);
    ExactNow(c, s);
    forall a ensures Lists(t, rec, a) <==> Lists(s, rec, a) {
    }
  }
}
