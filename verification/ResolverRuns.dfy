/** Concurrent lookups, background refreshes, flights, the cleaner and cache clearing as a step system: what a
    cache answer can be, and when the cleaner can be noticed. */
module ResolverRuns {
  import opened Net
  import opened Resolver

  /** What a successful flight brought: both replies, the lifetime they allow, and the time it read then. */
  datatype Fetch = Fetch(v4: Reply, v6: Reply, life: nat, at: int) {
    function Ips(): seq<Addr> {
      IpsOf(v6, true) + IpsOf(v4, false)
    }

    function AsEntry(): Entry {
      Entry(Ips(), at + life, at + life + StaleFor)
    }

    ghost predicate Valid() {
      Succeeds(v4, v6) && IsLifetime(life, v4, v6)
    }
  }

  datatype Phase = Querying | Stamped(f: Fetch) | Broken | Stored(f: Fetch) | Returned(f: Fetch) | ReturnedError

  datatype Flight = Flight(domain: string, phase: Phase) {
    predicate Running() {
      !phase.Returned? && !phase.ReturnedError?
    }

    predicate Fetched() {
      phase.Stamped? || phase.Stored? || phase.Returned?
    }
  }

  /** A lookup, with the time it read at its start. */
  datatype Lookup =
    | Started(domain: string, now: int)
    | Missing(domain: string, now: int)
    | Waiting(domain: string, now: int, flight: nat)
    | FromCache(domain: string, now: int, ips: seq<Addr>, flight: nat)
    | FromFlight(domain: string, now: int, ips: seq<Addr>, flight: nat)
    | Failed(domain: string, now: int, flight: nat)

  /** A cache entry, with the flight that stored it. */
  datatype Kept = Kept(entry: Entry, flight: nat)

  datatype Cleaner = Resting | Cleaning(now: int) | Deleting(now: int, key: string)

  datatype State = State(
    time: int,
    cache: map<string, Kept>,
    current: map<string, nat>,
    flights: map<nat, Flight>,
    lookups: map<nat, Lookup>,
    refreshes: set<nat>,
    counts: map<nat, nat>,
    cleaner: Cleaner,
    cleaned: int)

  const Start := State(0, map[], map[], map[], map[], {}, map[], Resting, 0)

  datatype Action =
    | Advance(seconds: nat)
    | Begin(l: nat, domain: string)
    | Load(l: nat)
    | Ask(l: nat, id: nat)
    | Refresh(l: nat, id: nat)
    | Stamp(id: nat, v4: Reply, v6: Reply, life: nat)
    | Break(id: nat, v4: Reply, v6: Reply)
    | Keep(id: nat)
    | Return(id: nat)
    | Collect(l: nat)
    | Drop(key: string)
    | Count(c: nat)
    | CleanStart
    | CleanCheck(key: string)
    | CleanDelete
    | CleanEnd

  predicate IsCleaner(a: Action) {
    a.CleanStart? || a.CleanCheck? || a.CleanDelete? || a.CleanEnd?
  }

  /** A caller joins the flight of its domain if there is one, and otherwise starts one under a new number. */
  predicate CanJoin(s: State, domain: string, id: nat) {
    if domain in s.current then id == s.current[domain] else id !in s.flights
  }

  function Join(s: State, domain: string, id: nat): State {
    if domain in s.current then s
    else s.(current := s.current[domain := id], flights := s.flights[id := Flight(domain, Querying)])
  }

  ghost predicate Enabled(s: State, a: Action) {
    match a
    case Advance(_) => true
    case Begin(l, _) => l !in s.lookups
    case Load(l) => l in s.lookups && s.lookups[l].Started?
    case Ask(l, id) => l in s.lookups && s.lookups[l].Missing? && CanJoin(s, s.lookups[l].domain, id)
    case Refresh(l, id) => l in s.refreshes && l in s.lookups && CanJoin(s, s.lookups[l].domain, id)
    case Stamp(id, v4, v6, life) =>
      id in s.flights && s.flights[id].phase.Querying? && Succeeds(v4, v6) && IsLifetime(life, v4, v6)
    case Break(id, v4, v6) => id in s.flights && s.flights[id].phase.Querying? && !Succeeds(v4, v6)
    case Keep(id) => id in s.flights && s.flights[id].phase.Stamped?
    case Return(id) => id in s.flights && (s.flights[id].phase.Stored? || s.flights[id].phase.Broken?)
    case Collect(l) =>
      l in s.lookups && s.lookups[l].Waiting? && s.lookups[l].flight in s.flights
      && !s.flights[s.lookups[l].flight].Running()
    case Drop(_) => true
    case Count(c) => c !in s.counts
    case CleanStart => s.cleaner.Resting?
    case CleanCheck(key) => s.cleaner.Cleaning? && key in s.cache
    case CleanDelete => s.cleaner.Deleting?
    case CleanEnd => s.cleaner.Cleaning?
  }

  function Entries(cache: map<string, Kept>): map<string, Entry> {
    map d | d in cache :: cache[d].entry
  }

  /** What a lookup makes of the cache, and whether it leaves a refresh behind. */
  function Answered(s: State, q: Lookup): Lookup {
    if q.domain in s.cache && (q.now < s.cache[q.domain].entry.expiresAt || q.now < s.cache[q.domain].entry.staleAt)
    then FromCache(q.domain, q.now, s.cache[q.domain].entry.ips, s.cache[q.domain].flight)
    else Missing(q.domain, q.now)
  }

  predicate NeedsRefresh(s: State, q: Lookup) {
    Answered(s, q).FromCache? && q.domain in s.cache && s.cache[q.domain].entry.expiresAt <= q.now
  }

  function SetPhase(s: State, id: nat, p: Phase): State
    requires id in s.flights
  {
    s.(flights := s.flights[id := s.flights[id].(phase := p)])
  }

  ghost function Apply(s: State, a: Action): State
    requires Enabled(s, a)
  {
    match a
    case Advance(seconds) => s.(time := s.time + seconds)
    case Begin(l, domain) => s.(lookups := s.lookups[l := Started(domain, s.time)])
    case Load(l) =>
      var q := s.lookups[l];
      s.(lookups := s.lookups[l := Answered(s, q)],
         refreshes := if NeedsRefresh(s, q) then s.refreshes + {l} else s.refreshes)
    case Ask(l, id) =>
      var q := s.lookups[l];
      Join(s, q.domain, id).(lookups := s.lookups[l := Waiting(q.domain, q.now, id)])
    case Refresh(l, id) => Join(s, s.lookups[l].domain, id).(refreshes := s.refreshes - {l})
    case Stamp(id, v4, v6, life) => SetPhase(s, id, Stamped(Fetch(v4, v6, life, s.time)))
    case Break(id, _, _) => SetPhase(s, id, Broken)
    case Keep(id) =>
      var f := s.flights[id].phase.f;
      SetPhase(s, id, Stored(f)).(cache := s.cache[s.flights[id].domain := Kept(f.AsEntry(), id)])
    case Return(id) =>
      var p := s.flights[id].phase;
      SetPhase(s, id, if p.Stored? then Returned(p.f) else ReturnedError)
        .(current := s.current - {s.flights[id].domain})
    case Collect(l) =>
      var q := s.lookups[l];
      var p := s.flights[q.flight].phase;
      s.(lookups := s.lookups[l := if p.Returned? then FromFlight(q.domain, q.now, p.f.Ips(), q.flight)
                                   else Failed(q.domain, q.now, q.flight)])
    case Drop(key) => s.(cache := s.cache - {key})
    case Count(c) => s.(counts := s.counts[c := |Usable(Entries(s.cache), s.time)|])
    case CleanStart => s.(cleaner := Cleaning(s.time), cleaned := s.time)
    case CleanCheck(key) =>
      if s.cleaner.now > s.cache[key].entry.staleAt then s.(cleaner := Deleting(s.cleaner.now, key)) else s
    case CleanDelete => s.(cache := s.cache - {s.cleaner.key}, cleaner := Cleaning(s.cleaner.now))
    case CleanEnd => s.(cleaner := Resting)
  }

  // ----- what cache answers are -----

  predicate CurrentOk(s: State, d: string) {
    d in s.current ==> s.current[d] in s.flights && s.flights[s.current[d]].domain == d && s.flights[s.current[d]].Running()
  }

  ghost predicate FlightOk(s: State, id: nat)
    requires id in s.flights
  {
    var f := s.flights[id];
    && (f.Running() ==> f.domain in s.current && s.current[f.domain] == id)
    && (f.Fetched() ==> f.phase.f.Valid() && f.phase.f.at <= s.time)
  }

  /** Flight id was one for this domain and brought an entry that can be answered with. */
  predicate FetchedFor(s: State, id: nat, domain: string) {
    id in s.flights && s.flights[id].domain == domain && s.flights[id].Fetched()
  }

  predicate CacheOk(s: State, d: string) {
    d in s.cache ==>
      FetchedFor(s, s.cache[d].flight, d) && s.cache[d].entry == s.flights[s.cache[d].flight].phase.f.AsEntry()
  }

  predicate LookupOk(s: State, l: nat)
    requires l in s.lookups
  {
    var q := s.lookups[l];
    && q.now <= s.time
    && (q.Waiting? || q.Failed? ==> q.flight in s.flights && s.flights[q.flight].domain == q.domain)
    && (q.FromCache? || q.FromFlight? ==>
          FetchedFor(s, q.flight, q.domain) && q.ips == s.flights[q.flight].phase.f.Ips())
    && (q.FromCache? ==> q.now < s.flights[q.flight].phase.f.AsEntry().staleAt)
  }

  ghost predicate Inv(s: State) {
    && (forall d :: d in s.current ==> CurrentOk(s, d))
    && (forall id :: id in s.flights ==> FlightOk(s, id))
    && (forall d :: d in s.cache ==> CacheOk(s, d))
    && (forall l :: l in s.lookups ==> LookupOk(s, l))
  }

  lemma CurrentKeeps(s: State, a: Action)
    requires Inv(s) && Enabled(s, a)
    ensures var t := Apply(s, a); forall d :: d in t.current ==> CurrentOk(t, d)
  {
    var t := Apply(s, a);
    forall d | d in t.current ensures CurrentOk(t, d) {
      assert d in s.current ==> CurrentOk(s, d);
    }
  }

  lemma FlightKeeps(s: State, a: Action, id: nat)
    requires Enabled(s, a) && id in Apply(s, a).flights
    requires id in s.flights ==> FlightOk(s, id)
    requires a.Return? ==> FlightOk(s, a.id)
    ensures FlightOk(Apply(s, a), id)
  {
  }

  /** What a flight brought never changes. */
  lemma FetchedStays(s: State, a: Action, id: nat, domain: string)
    requires Enabled(s, a) && FetchedFor(s, id, domain)
    ensures var t := Apply(s, a); FetchedFor(t, id, domain) && t.flights[id].phase.f == s.flights[id].phase.f
  {
  }

  lemma CacheKeeps(s: State, a: Action)
    requires Inv(s) && Enabled(s, a)
    ensures var t := Apply(s, a); forall d :: d in t.cache ==> CacheOk(t, d)
  {
    var t := Apply(s, a);
    forall d | d in t.cache ensures CacheOk(t, d) {
      if d in s.cache {
        assert CacheOk(s, d);
        FetchedStays(s, a, s.cache[d].flight, d);
      }
    }
  }

  lemma LookupKeeps(s: State, a: Action, l: nat)
    requires Inv(s) && Enabled(s, a) && l in s.lookups && Apply(s, a).lookups[l] == s.lookups[l]
    ensures LookupOk(Apply(s, a), l)
  {
    assert LookupOk(s, l);
    var q := s.lookups[l];
    if q.FromCache? || q.FromFlight? {
      FetchedStays(s, a, q.flight, q.domain);
    }
  }

  lemma LookupsKeep(s: State, a: Action)
    requires Inv(s) && Enabled(s, a)
    ensures var t := Apply(s, a); forall l :: l in t.lookups ==> LookupOk(t, l)
  {
    var t := Apply(s, a);
    forall l | l in t.lookups ensures LookupOk(t, l) {
      if l in s.lookups && t.lookups[l] == s.lookups[l] {
        LookupKeeps(s, a, l);
      } else {
        LookupMoves(s, a, l);
      }
    }
  }

  lemma LookupMoves(s: State, a: Action, l: nat)
    requires Inv(s) && Enabled(s, a) && l in Apply(s, a).lookups
    requires (a.Begin? || a.Load? || a.Ask? || a.Collect?) && a.l == l
    ensures LookupOk(Apply(s, a), l)
  {
    assert l in s.lookups ==> LookupOk(s, l);
    if a.Load? {
      assert CacheOk(s, s.lookups[l].domain);
    }
  }

  lemma StepKeeps(s: State, a: Action)
    requires Inv(s) && Enabled(s, a)
    ensures Inv(Apply(s, a))
  {
    CurrentKeeps(s, a);
    CacheKeeps(s, a);
    forall id | id in Apply(s, a).flights ensures FlightOk(Apply(s, a), id) {
      FlightKeeps(s, a, id);
    }
    LookupsKeep(s, a);
  }

  ghost predicate Run(s: State, acts: seq<Action>, t: State)
    decreases |acts|
  {
    if acts == [] then s == t
    else var n := |acts| - 1; exists m :: Run(s, acts[..n], m) && Enabled(m, acts[n]) && t == Apply(m, acts[n])
  }

  lemma RunNext(s: State, acts: seq<Action>, t: State, a: Action)
    requires Run(s, acts, t) && Enabled(t, a)
    ensures Run(s, acts + [a], Apply(t, a))
  {
    assert (acts + [a])[..|acts|] == acts;
  }

  lemma {:induction false} RunKeeps(s: State, acts: seq<Action>, t: State)
    requires Inv(s) && Run(s, acts, t)
    ensures Inv(t)
    decreases |acts|
  {
    if acts != [] {
      var n := |acts| - 1;
      var m :| Run(s, acts[..n], m) && Enabled(m, acts[n]) && t == Apply(m, acts[n]);
      RunKeeps(s, acts[..n], m);
      StepKeeps(m, acts[n]);
    }
  }

  /** Stale-while-revalidate: an answer from the cache to a lookup that read the time `now` is what a flight
      for the same domain brought, read at a time t with now - t < life + 600, where the lifetime is
      max(60, min(300, every positive TTL of both replies)). */
  lemma CacheAnswers(acts: seq<Action>, s: State, l: nat)
    requires Run(Start, acts, s) && l in s.lookups && s.lookups[l].FromCache?
    ensures var q := s.lookups[l];
      && FetchedFor(s, q.flight, q.domain)
      && var f := s.flights[q.flight].phase.f;
      && q.ips == f.Ips() != []
      && IsLifetime(f.life, f.v4, f.v6)
      && f.at <= s.time
      && q.now - f.at < f.life + StaleFor
  {
    RunKeeps(Start, acts, s);
    assert LookupOk(s, l);
    assert FlightOk(s, s.lookups[l].flight);
  }

  /** Any other answer is what a flight for the domain brought, and an error means such a flight failed. */
  lemma FlightAnswers(acts: seq<Action>, s: State, l: nat)
    requires Run(Start, acts, s) && l in s.lookups && s.lookups[l].FromFlight?
    ensures var q := s.lookups[l];
      && FetchedFor(s, q.flight, q.domain)
      && q.ips == s.flights[q.flight].phase.f.Ips() != []
  {
    RunKeeps(Start, acts, s);
    assert LookupOk(s, l);
    assert FlightOk(s, s.lookups[l].flight);
  }

  /** At most one flight per domain is under way. */
  lemma SingleFlight(acts: seq<Action>, s: State, i: nat, j: nat)
    requires Run(Start, acts, s) && i in s.flights && j in s.flights
    requires s.flights[i].Running() && s.flights[j].Running() && s.flights[i].domain == s.flights[j].domain
    ensures i == j
  {
    RunKeeps(Start, acts, s);
    assert FlightOk(s, i) && FlightOk(s, j);
  }

  // ----- the cleaner -----

  /** s ran with the cleaner and u without: they agree on all but cache entries that were past their stale
      time when the cleaner last read the clock. */
  ghost predicate Alike(s: State, u: State) {
    && u == s.(cache := u.cache, cleaner := u.cleaner, cleaned := u.cleaned)
    && (forall d :: d in s.cache ==> d in u.cache && u.cache[d] == s.cache[d])
    && (forall d :: d in u.cache && d !in s.cache ==> u.cache[d].entry.staleAt < s.cleaned)
    && (forall d :: d in u.cache ==> u.cache[d].entry.expiresAt <= u.cache[d].entry.staleAt)
    && s.cleaned <= s.time
    && (s.cleaner.Resting? || s.cleaner.now == s.cleaned)
  }

  /** The step leaves the cleaner unnoticed: a lookup loads with a time it read after the cleaner's last
      round began, and an entry is deleted while it is still past its stale time. */
  predicate Gentle(s: State, a: Action) {
    && (a.Load? && a.l in s.lookups ==> s.cleaned <= s.lookups[a.l].now)
    && (a.CleanDelete? && s.cleaner.Deleting? && s.cleaner.key in s.cache ==>
          s.cache[s.cleaner.key].entry.staleAt < s.cleaner.now)
  }

  lemma LoadsAlike(s: State, u: State, l: nat)
    requires Alike(s, u) && l in s.lookups && s.cleaned <= s.lookups[l].now
    ensures Answered(s, s.lookups[l]) == Answered(u, s.lookups[l])
    ensures NeedsRefresh(s, s.lookups[l]) <==> NeedsRefresh(u, s.lookups[l])
  {
  }

  lemma CountsAlike(s: State, u: State)
    requires Alike(s, u)
    ensures Usable(Entries(s.cache), s.time) == Usable(Entries(u.cache), u.time)
  {
  }

  lemma CleanerAlike(s: State, u: State, a: Action)
    requires Alike(s, u) && Enabled(s, a) && Gentle(s, a) && IsCleaner(a)
    ensures Alike(Apply(s, a), u)
  {
  }

  lemma LookupAlike(s: State, u: State, a: Action)
    requires Alike(s, u) && Enabled(s, a) && Gentle(s, a) && (a.Load? || a.Count?)
    ensures Enabled(u, a) && Alike(Apply(s, a), Apply(u, a))
  {
    if a.Load? {
      LoadsAlike(s, u, a.l);
    } else {
      CountsAlike(s, u);
    }
  }

  lemma CacheAlike(s: State, u: State, a: Action)
    requires Alike(s, u) && Enabled(s, a) && (a.Keep? || a.Drop?)
    ensures Enabled(u, a) && Alike(Apply(s, a), Apply(u, a))
  {
  }

  lemma OtherAlike(s: State, u: State, a: Action)
    requires Alike(s, u) && Enabled(s, a)
    requires !IsCleaner(a) && !a.Load? && !a.Count? && !a.Keep? && !a.Drop?
    ensures Enabled(u, a) && Alike(Apply(s, a), Apply(u, a))
  {
  }

  lemma StepAlike(s: State, u: State, a: Action)
    requires Alike(s, u) && Enabled(s, a) && Gentle(s, a)
    ensures if IsCleaner(a) then Alike(Apply(s, a), u) else Enabled(u, a) && Alike(Apply(s, a), Apply(u, a))
  {
    if IsCleaner(a) {
      CleanerAlike(s, u, a);
    } else if a.Load? || a.Count? {
      LookupAlike(s, u, a);
    } else if a.Keep? || a.Drop? {
      CacheAlike(s, u, a);
    } else {
      OtherAlike(s, u, a);
    }
  }

  /** The same actions without the cleaner's. */
  function Erase(acts: seq<Action>): seq<Action> {
    if acts == [] then []
    else
      var front, last := Erase(acts[..|acts| - 1]), acts[|acts| - 1];
      if IsCleaner(last) then front else front + [last]
  }

  ghost predicate GentleRun(s: State, acts: seq<Action>, t: State)
    decreases |acts|
  {
    if acts == [] then s == t
    else
      var n := |acts| - 1;
      exists m :: GentleRun(s, acts[..n], m) && Enabled(m, acts[n]) && Gentle(m, acts[n]) && t == Apply(m, acts[n])
  }

  /** With gentle steps, a run with the cleaner and the same run without it have the same lookups and answers,
      the same flights and the same cache counts. */
  lemma {:induction false} CleanerUnobservable(acts: seq<Action>, s: State) returns (u: State)
    requires GentleRun(Start, acts, s)
    ensures Run(Start, Erase(acts), u) && Alike(s, u)
    ensures u.lookups == s.lookups && u.flights == s.flights && u.counts == s.counts && u.refreshes == s.refreshes
    decreases |acts|
  {
    if acts == [] {
      u := s;
    } else {
      var n := |acts| - 1;
      var m :| GentleRun(Start, acts[..n], m) && Enabled(m, acts[n]) && Gentle(m, acts[n]) && s == Apply(m, acts[n]);
      var v := CleanerUnobservable(acts[..n], m);
      StepAlike(m, v, acts[n]);
      if IsCleaner(acts[n]) {
        u := v;
      } else {
        u := Apply(v, acts[n]);
        RunNext(Start, Erase(acts[..n]), v, acts[n]);
      }
    }
  }

  /** Lookups that load the cache at the instant they read the clock are gentle, and so is a deletion with no
      step between it and its check. */
  lemma AtomicIsGentle(s: State, u: State, a: Action)
    requires Alike(s, u) && Enabled(s, a)
    ensures a.Load? && s.lookups[a.l].now == s.time ==> Gentle(s, a)
    ensures a.CleanCheck? && Apply(s, a).cleaner.Deleting? ==> Gentle(Apply(s, a), CleanDelete)
    ensures !a.Load? && !a.CleanDelete? ==> Gentle(s, a)
  {
  }

  // ----- exactly when the cleaner is noticed -----

  /** s ran with the cleaner and u without: u has every cache entry s has, and maybe more; all else agrees. */
  ghost predicate Extends(s: State, u: State) {
    && u == s.(cache := u.cache, cleaner := u.cleaner, cleaned := u.cleaned)
    && (forall d :: d in s.cache ==> d in u.cache && u.cache[d] == s.cache[d])
    && (forall d :: d in u.cache ==> u.cache[d].entry.expiresAt <= u.cache[d].entry.staleAt)
  }

  /** Only u still has the entry, and it can be answered from at time `now`. */
  predicate Missed(s: State, u: State, d: string, now: int) {
    d in u.cache && d !in s.cache && now < u.cache[d].entry.staleAt
  }

  /** A load tells the two apart exactly when it is for a domain whose entry only u still has, and the
      lookup's clock reading still allows it. */
  lemma LoadTellsApartIff(s: State, u: State, l: nat)
    requires Extends(s, u) && l in s.lookups
    ensures Answered(s, s.lookups[l]) != Answered(u, s.lookups[l])
       <==> Missed(s, u, s.lookups[l].domain, s.lookups[l].now)
    ensures Answered(s, s.lookups[l]) == Answered(u, s.lookups[l]) ==>
      (NeedsRefresh(s, s.lookups[l]) <==> NeedsRefresh(u, s.lookups[l]))
  {
  }

  /** A count tells them apart exactly when some entry that only u still has is not yet past its stale time. */
  lemma CountTellsApartIff(s: State, u: State)
    requires Extends(s, u)
    ensures |Usable(Entries(s.cache), s.time)| != |Usable(Entries(u.cache), u.time)|
       <==> exists d :: Missed(s, u, d, s.time)
  {
    var a, b := Usable(Entries(s.cache), s.time), Usable(Entries(u.cache), u.time);
    assert a <= b;
    if d :| Missed(s, u, d, s.time) {
      assert d in b && d !in a;
      ProperSubset(a, b, d);
    } else {
      forall d | d in b ensures d in a {
        assert d in a || Missed(s, u, d, s.time);
      }
      assert a == b;
    }
  }

  lemma ProperSubset(a: set<string>, b: set<string>, x: string)
    requires a <= b && x in b && x !in a
    ensures |a| < |b|
  {
    assert b == a + (b - a);
    assert |b| == |a| + |b - a|;
    assert x in b - a;
  }

  /** So a deletion changes a later load or count exactly when it drops the entry the load is for, or any
      entry, before its stale time. */
  lemma DeletionTellsApartIff(s: State, l: nat)
    requires Enabled(s, CleanDelete) && Extends(s, s) && l in s.lookups
    ensures var t, key, q := Apply(s, CleanDelete), s.cleaner.key, s.lookups[l];
      && (Answered(t, q) != Answered(s, q) <==> key in s.cache && q.domain == key && q.now < s.cache[key].entry.staleAt)
      && (|Usable(Entries(t.cache), t.time)| != |Usable(Entries(s.cache), s.time)|
          <==> key in s.cache && s.time < s.cache[key].entry.staleAt)
  {
    var t, key := Apply(s, CleanDelete), s.cleaner.key;
    LoadTellsApartIff(t, s, l);
    CountTellsApartIff(t, s);
    assert key in s.cache && s.time < s.cache[key].entry.staleAt ==> Missed(t, s, key, t.time);
  }

  /** The step is a load or a count that tells the two apart. */
  ghost predicate Noticed(s: State, u: State, a: Action) {
    || (a.Load? && a.l in s.lookups && Missed(s, u, s.lookups[a.l].domain, s.lookups[a.l].now))
    || (a.Count? && exists d :: Missed(s, u, d, s.time))
  }

  ghost predicate CanRun(s: State, acts: seq<Action>)
    decreases |acts|
  {
    acts == [] || (Enabled(s, acts[0]) && CanRun(Apply(s, acts[0]), acts[1..]))
  }

  /** The run without the cleaner can follow. */
  ghost predicate Follows(u: State, a: Action) {
    IsCleaner(a) || Enabled(u, a)
  }

  ghost function Beside(u: State, a: Action): State
    requires Follows(u, a)
  {
    if IsCleaner(a) then u else Apply(u, a)
  }

  /** No step of the run notices the cleaner. */
  ghost predicate Unnoticed(s: State, u: State, acts: seq<Action>)
    requires CanRun(s, acts)
    decreases |acts|
  {
    acts == [] ||
    (!Noticed(s, u, acts[0]) && Follows(u, acts[0])
     && Unnoticed(Apply(s, acts[0]), Beside(u, acts[0]), acts[1..]))
  }

  /** After every step, both runs have the same lookups, answers and counts. */
  ghost predicate SameAnswers(s: State, u: State, acts: seq<Action>)
    requires CanRun(s, acts)
    decreases |acts|
  {
    && s.lookups == u.lookups && s.counts == u.counts
    && (acts == [] || (Follows(u, acts[0]) && SameAnswers(Apply(s, acts[0]), Beside(u, acts[0]), acts[1..])))
  }

  lemma CleanerExtends(s: State, u: State, a: Action)
    requires Extends(s, u) && Enabled(s, a) && IsCleaner(a)
    ensures Extends(Apply(s, a), u)
  {
  }

  lemma LoadExtends(s: State, u: State, l: nat)
    requires Extends(s, u) && Enabled(s, Load(l))
    ensures Enabled(u, Load(l))
    ensures var t, v := Apply(s, Load(l)), Apply(u, Load(l));
      if Noticed(s, u, Load(l)) then t.lookups != v.lookups else Extends(t, v)
  {
    LoadTellsApartIff(s, u, l);
    var t, v := Apply(s, Load(l)), Apply(u, Load(l));
    assert t.lookups[l] == Answered(s, s.lookups[l]) && v.lookups[l] == Answered(u, s.lookups[l]);
  }

  lemma CountExtends(s: State, u: State, c: nat)
    requires Extends(s, u) && Enabled(s, Count(c))
    ensures Enabled(u, Count(c))
    ensures var t, v := Apply(s, Count(c)), Apply(u, Count(c));
      if Noticed(s, u, Count(c)) then t.counts != v.counts else Extends(t, v)
  {
    CountTellsApartIff(s, u);
    var t, v := Apply(s, Count(c)), Apply(u, Count(c));
    assert t.counts[c] == |Usable(Entries(s.cache), s.time)| && v.counts[c] == |Usable(Entries(u.cache), u.time)|;
  }

  lemma CacheExtends(s: State, u: State, a: Action)
    requires Extends(s, u) && Enabled(s, a) && (a.Keep? || a.Drop?)
    ensures Enabled(u, a) && Extends(Apply(s, a), Apply(u, a))
  {
  }

  lemma OtherExtends(s: State, u: State, a: Action)
    requires Extends(s, u) && Enabled(s, a)
    requires !IsCleaner(a) && !a.Load? && !a.Count? && !a.Keep? && !a.Drop?
    ensures Enabled(u, a) && Extends(Apply(s, a), Apply(u, a))
  {
  }

  lemma StepExtends(s: State, u: State, a: Action)
    requires Extends(s, u) && Enabled(s, a)
    ensures Follows(u, a)
    ensures var t, v := Apply(s, a), Beside(u, a);
      if Noticed(s, u, a) then t.lookups != v.lookups || t.counts != v.counts else Extends(t, v)
  {
    if IsCleaner(a) {
      CleanerExtends(s, u, a);
    } else if a.Load? {
      LoadExtends(s, u, a.l);
    } else if a.Count? {
      CountExtends(s, u, a.c);
    } else if a.Keep? || a.Drop? {
      CacheExtends(s, u, a);
    } else {
      OtherExtends(s, u, a);
    }
  }

  /** The cleaner goes unobserved over a whole run exactly when no load and no count of it is for an entry
      that the cleaner deleted and the clock reading still allows. */
  lemma {:induction false} CleanerUnobservedIff(s: State, u: State, acts: seq<Action>)
    requires Extends(s, u) && CanRun(s, acts)
    ensures SameAnswers(s, u, acts) <==> Unnoticed(s, u, acts)
    decreases |acts|
  {
    if acts != [] {
      var a := acts[0];
      StepExtends(s, u, a);
      if !Noticed(s, u, a) {
        CleanerUnobservedIff(Apply(s, a), Beside(u, a), acts[1..]);
      }
    }
  }

  // ----- how the cleaner can be noticed -----

  /** The same actions with the cleaner and without it. */
  ghost predicate Both(acts: seq<Action>, s: State, u: State) {
    Run(Start, acts, s) && Run(Start, Erase(acts), u)
  }

  lemma BothNext(acts: seq<Action>, s: State, u: State, a: Action) returns (acts': seq<Action>, s': State, u': State)
    requires Both(acts, s, u) && Enabled(s, a) && (!IsCleaner(a) ==> Enabled(u, a))
    ensures Both(acts', s', u') && s' == Apply(s, a) && u' == if IsCleaner(a) then u else Apply(u, a)
  {
    acts', s' := acts + [a], Apply(s, a);
    RunNext(Start, acts, s, a);
    assert acts'[..|acts|] == acts;
    if IsCleaner(a) {
      u' := u;
    } else {
      u' := Apply(u, a);
      RunNext(Start, Erase(acts), u, a);
    }
  }

  const Found: Reply := Answers([A(V4(1), 300)])

  lemma FoundLives()
    ensures Succeeds(Found, NoReply) && IsLifetime(300, Found, NoReply)
  {
    var a := A(V4(1), 300);
    InAddresses(Found.records, false, a);
    assert SomeTtl(Found, NoReply, 300);
  }

  /** The state after a whole flight for "d" that the lookup l asked for. */
  function Flown(s: State, l: nat, id: nat, now: int): State {
    var f := Fetch(Found, NoReply, 300, s.time);
    s.(cache := s.cache["d" := Kept(f.AsEntry(), id)],
       flights := s.flights[id := Flight("d", Returned(f))],
       lookups := s.lookups[l := Waiting("d", now, id)])
  }

  /** A lookup of "d" that may start a flight, nobody else having one. */
  predicate CanFly(s: State, l: nat, id: nat, now: int) {
    s.current == map[] && id !in s.flights && l in s.lookups && s.lookups[l] == Missing("d", now)
  }

  lemma Fly(acts: seq<Action>, s: State, u: State, l: nat, id: nat, now: int)
    returns (acts': seq<Action>, s': State, u': State)
    requires Both(acts, s, u) && CanFly(s, l, id, now) && CanFly(u, l, id, now)
    ensures Both(acts', s', u') && s' == Flown(s, l, id, now) && u' == Flown(u, l, id, now)
  {
    var s1, s2 := Asked(s, l, id, now);
    var u1, u2 := Asked(u, l, id, now);
    acts', s', u' := BothNext(acts, s, u, Ask(l, id));
    acts', s', u' := BothNext(acts', s', u', Stamp(id, Found, NoReply, 300));
    FlightLands(s, s2, l, id, now);
    FlightLands(u, u2, l, id, now);
    acts', s', u' := BothNext(acts', s', u', Keep(id));
    acts', s', u' := BothNext(acts', s', u', Return(id));
  }

  lemma Asked(s: State, l: nat, id: nat, now: int) returns (s1: State, s2: State)
    requires CanFly(s, l, id, now)
    ensures Enabled(s, Ask(l, id)) && s1 == Apply(s, Ask(l, id))
    ensures var a := Stamp(id, Found, NoReply, 300); Enabled(s1, a) && s2 == Apply(s1, a)
    ensures s2 == InFlight(s, l, id, now)
  {
    FoundLives();
    s1 := Apply(s, Ask(l, id));
    s2 := Apply(s1, Stamp(id, Found, NoReply, 300));
  }

  /** The state while that flight has its replies and has not stored them. */
  function InFlight(s: State, l: nat, id: nat, now: int): State {
    s.(current := s.current["d" := id],
       flights := s.flights[id := Flight("d", Stamped(Fetch(Found, NoReply, 300, s.time)))],
       lookups := s.lookups[l := Waiting("d", now, id)])
  }

  lemma FlightLands(s: State, s2: State, l: nat, id: nat, now: int)
    requires CanFly(s, l, id, now) && s2 == InFlight(s, l, id, now)
    ensures Enabled(s2, Keep(id)) && Enabled(Apply(s2, Keep(id)), Return(id))
    ensures Apply(Apply(s2, Keep(id)), Return(id)) == Flown(s, l, id, now)
  {
    assert map["d" := id] - {"d"} == map[];
  }

  /** An entry of "d" that becomes stale at time 900, and a time one second before. */
  lemma Filled() returns (acts: seq<Action>, s: State)
    ensures Both(acts, s, s) && s.time == 899 && s.cleaner == Resting && s.current == map[]
    ensures s.cache == map["d" := Kept(Fetch(Found, NoReply, 300, 0).AsEntry(), 7)]
    ensures s.flights.Keys == {7} && s.lookups.Keys == {1}
  {
    acts, s := [], Start;
    var u := s;
    acts, s, u := BothNext(acts, s, u, Begin(1, "d"));
    acts, s, u := BothNext(acts, s, u, Load(1));
    acts, s, u := Fly(acts, s, u, 1, 7, 0);
    acts, s, u := BothNext(acts, s, u, Advance(899));
  }

  /** The cleaner finds the entry past its stale time two seconds later, and is about to delete it. */
  lemma Condemned(acts: seq<Action>, s: State)
    returns (acts': seq<Action>, s': State, u': State)
    requires Both(acts, s, s) && s.time == 899 && s.cleaner == Resting
    requires "d" in s.cache && s.cache["d"].entry.staleAt == 900
    ensures Both(acts', s', u') && u' == s.(time := 901)
    ensures s' == s.(time := 901, cleaner := Deleting(901, "d"), cleaned := 901)
  {
    acts', s', u' := BothNext(acts, s, s, Advance(2));
    acts', s', u' := BothNext(acts', s', u', CleanStart);
    acts', s', u' := BothNext(acts', s', u', CleanCheck("d"));
  }

  /** A lookup that read the clock at 899 and loads the cache at 901 is answered without the cleaner, and
      not with it. */
  lemma EarlyReadingNoticesCleaner() returns (acts: seq<Action>, s: State, u: State)
    ensures Both(acts, s, u) && 2 in s.lookups && 2 in u.lookups
    ensures s.lookups[2].Missing? && u.lookups[2].FromCache?
  {
    acts, s := Filled();
    acts, s, u := BothNext(acts, s, s, Begin(2, "d"));
    acts, s, u := Condemned(acts, s);
    acts, s, u := BothNext(acts, s, u, CleanDelete);
    acts, s, u := BothNext(acts, s, u, Load(2));
  }

  /** An entry stored between the cleaner's check and its deletion is lost, fresh as it is. */
  lemma CleanerDropsFreshEntry() returns (acts: seq<Action>, s: State, u: State)
    ensures Both(acts, s, u) && "d" !in s.cache
    ensures "d" in u.cache && u.time < u.cache["d"].entry.expiresAt
  {
    acts, s := Filled();
    acts, s, u := Condemned(acts, s);
    acts, s, u := BothNext(acts, s, u, Begin(2, "d"));
    acts, s, u := BothNext(acts, s, u, Load(2));
    acts, s, u := Fly(acts, s, u, 2, 8, 901);
    acts, s, u := BothNext(acts, s, u, CleanDelete);
  }
}
