/** Runs of the FakeIP protocol with no assumption on how far the cursors move: what they still guarantee,
    and what goes wrong. */
module FakeIPRuns {
  import opened Basics
  import opened Net
  import opened Cursor
  import opened Shards
  import opened FakeIPProtocol
  import FakeIPRestart

  /** Visit k of subnet i was handed to request r. */
  predicate HandedTo(s: State, r: nat, i: nat, k: nat) {
    r in s.reqs && i < |s.reqs[r].slots| && s.reqs[r].slots[i].at == k
  }

  /** Every free address a cursor stopped at went to a request. */
  ghost predicate HandedOk(s: State) {
    forall i: nat, k: nat {:trigger s.trail[i][k]} ::
      i < |s.trail| && k < |s.trail[i]| && !s.trail[i][k].occupied ==> exists r :: HandedTo(s, r, i, k)
  }

  /** Whatever the step, requests keep the slots they have. */
  ghost predicate SlotsKept(s: State, s': State) {
    forall r {:trigger s'.reqs[r]} :: r in s.reqs ==> r in s'.reqs && s.reqs[r].slots <= s'.reqs[r].slots
  }

  lemma HandedStays(s: State, s': State)
    requires HandedOk(s) && SlotsKept(s, s') && s'.trail == s.trail
    ensures HandedOk(s')
  {
    forall i: nat, k: nat | i < |s'.trail| && k < |s'.trail[i]| && !s'.trail[i][k].occupied
      ensures exists r :: HandedTo(s', r, i, k)
    {
      var r :| HandedTo(s, r, i, k);
      assert r in s'.reqs && s.reqs[r].slots <= s'.reqs[r].slots;
      assert HandedTo(s', r, i, k);
    }
  }

  lemma HandedAdvance(c: Config, s: State, r: nat)
    requires HandedOk(s) && Enabled(c, s, Advance(r))
    ensures HandedOk(Apply(c, s, Advance(r)))
  {
    var s' := Apply(c, s, Advance(r));
    var j := |s.reqs[r].slots|;
    forall i: nat, k: nat | i < |s'.trail| && k < |s'.trail[i]| && !s'.trail[i][k].occupied
      ensures exists q :: HandedTo(s', q, i, k)
    {
      if i == j && k == |s.trail[i]| {
        assert HandedTo(s', r, i, k);
      } else {
        assert s.trail[i][k] == s'.trail[i][k];
        var q :| HandedTo(s, q, i, k);
        assert HandedTo(s', q, i, k);
      }
    }
  }

  lemma AnyStepKeeps(c: Config, s: State, act: Action)
    requires TrailOk(c, s.trail) && HandedOk(s) && Enabled(c, s, act)
    ensures TrailOk(c, Apply(c, s, act).trail) && HandedOk(Apply(c, s, act))
  {
    if act.Advance? {
      var i := |s.reqs[act.r].slots|;
      var a := Step(c.prefixes[i], CursorOf(c, s, i));
      TrailExtends(c, s, i, Visit(a, a in s.ip));
      HandedAdvance(c, s, act.r);
    } else {
      HandedStays(s, Apply(c, s, act));
    }
  }

  lemma {:induction false} StepsKeep(c: Config, s: State, acts: seq<Action>, t: State)
    requires TrailOk(c, s.trail) && HandedOk(s) && Steps(c, s, acts, t)
    ensures TrailOk(c, t.trail) && HandedOk(t)
    decreases |acts|
  {
    if acts != [] {
      AnyStepKeeps(c, s, acts[0]);
      StepsKeep(c, Apply(c, s, acts[0]), acts[1..], t);
    }
  }

  /** In any run, timely or not: two visits of a subnet's cursor are to the same address exactly when they are
      a multiple of Size apart (once past the addresses below the configured one). So without timeliness
      two requests are handed one address in just these cases. */
  lemma SameVisitIff(c: Config, acts: seq<Action>, s: State, i: nat, k1: nat, k2: nat)
    requires ValidConfig(c) && Steps(c, Init(c), acts, s)
    requires i < |s.trail| && k1 < k2 < |s.trail[i]|
    ensures i < |c.prefixes|
    ensures s.trail[i][k1].addr == s.trail[i][k2].addr
       <==> (Coord(c.prefixes[i], c.starts[i]) + k1 >= 0 && Down(k2 - k1, Size(c.prefixes[i])) == k2 - k1)
  {
    StepsKeep(c, Init(c), acts, s);
    var c0 := Coord(c.prefixes[i], c.starts[i]) + 1;
    assert VisitOk(c, i, k1, s.trail[i][k1]) && VisitOk(c, i, k2, s.trail[i][k2]);
    VisitsCoincideIff(c.prefixes[i], c0 + k1, c0 + k2);
  }

  /** Full sweep: in any run, clears and sweeps included, when a subnet's cursor comes to the same address
      twice it has in between come to every other usable address of the subnet, and each of those was
      found occupied or was handed to a request. */
  lemma FullSweepBetween(c: Config, acts: seq<Action>, s: State, i: nat, k1: nat, k2: nat, a: Addr)
    requires ValidConfig(c) && Steps(c, Init(c), acts, s)
    requires i < |s.trail| && k1 < k2 < |s.trail[i]| && s.trail[i][k1].addr == s.trail[i][k2].addr
    requires i < |c.prefixes| && CanHold(c.prefixes[i], a)
    ensures exists k: nat :: k1 < k <= k2 && s.trail[i][k].addr == a
              && (s.trail[i][k].occupied || exists r :: HandedTo(s, r, i, k))
  {
    StepsKeep(c, Init(c), acts, s);
    var c0 := Coord(c.prefixes[i], c.starts[i]) + 1;
    assert VisitOk(c, i, k1, s.trail[i][k1]) && VisitOk(c, i, k2, s.trail[i][k2]);
    var e := FullSweep(c.prefixes[i], c0 + k1, c0 + k2, a);
    var k: nat := e - c0;
    assert VisitOk(c, i, k, s.trail[i][k]);
  }

  // ----- exactly when two records come to hold one address -----

  /** At no state on the way do two records hold one address. */
  ghost predicate AlwaysUnique(c: Config, s: State, acts: seq<Action>, t: State)
    requires Steps(c, s, acts, t)
    decreases |acts|
  {
    Unique(s) && (acts == [] || AlwaysUnique(c, Apply(c, s, acts[0]), acts[1..], t))
  }

  /** A run is timely throughout if and only if at no state of it two records hold one address: the cursor
      that goes all the way round while an address waits to be entered hands out just that address. */
  lemma TimelyIffUnique(c: Config, acts: seq<Action>, t: State)
    requires WellConfigured(c) && Steps(c, Init(c), acts, t)
    ensures Run(c, Init(c), acts, t) <==> AlwaysUnique(c, Init(c), acts, t)
  {
    InitInv(c);
    TimelyIffUniqueFrom(c, Init(c), acts, t);
  }

  lemma {:induction false} TimelyIffUniqueFrom(c: Config, s: State, acts: seq<Action>, t: State)
    requires WellConfigured(c) && Inv(c, s) && Timely(c, s) && Steps(c, s, acts, t)
    ensures Run(c, s, acts, t) <==> AlwaysUnique(c, s, acts, t)
    decreases |acts|
  {
    UniqueNow(c, s);
    if acts != [] {
      var s' := Apply(c, s, acts[0]);
      StepKeeps(c, s, acts[0]);
      if Timely(c, s') {
        TimelyIffUniqueFrom(c, s', acts[1..], t);
      } else {
        UntimelyShares(c, s, acts[0]);
      }
    }
  }

  /** The step that makes a cursor untimely hands out the very address that has waited too long. */
  lemma UntimelyShares(c: Config, s: State, act: Action)
    requires WellConfigured(c) && Inv(c, s) && Timely(c, s) && Enabled(c, s, act) && !Timely(c, Apply(c, s, act))
    ensures act.Advance? && !Unique(Apply(c, s, act))
  {
    var r, i := Overdue(c, s, act);
    HandedAgain(c, s, act.r, r);
  }

  /** The address that has waited too long: it was handed out exactly Size visits before. */
  lemma Overdue(c: Config, s: State, act: Action) returns (r: nat, i: nat)
    requires WellConfigured(c) && Inv(c, s) && Timely(c, s) && Enabled(c, s, act) && !Timely(c, Apply(c, s, act))
    ensures act.Advance? && r != act.r && i == |s.reqs[act.r].slots| && i < |c.prefixes| && Pending(s, r, i)
    ensures Coord(c.prefixes[i], c.starts[i]) + s.reqs[r].slots[i].at >= 0
    ensures |s.trail[i]| == s.reqs[r].slots[i].at + Size(c.prefixes[i])
  {
    var t := Apply(c, s, act);
    if !act.Advance? {
      PendingStays(c, s, act);
      assert false;
    }
    StepKeeps(c, s, act);
    r, i :| Pending(t, r, i) && !(i < |c.prefixes| && i < |t.trail|
      && (Coord(c.prefixes[i], c.starts[i]) + t.reqs[r].slots[i].at >= 0 ==>
            |t.trail[i]| <= t.reqs[r].slots[i].at + Size(c.prefixes[i])));
    assert SlotsLogged(t.trail, t.reqs[r].slots);
    OverdueIsOthers(c, s, act.r, r, i);
  }

  /** No other step lets an address wait that did not, or moves a cursor. */
  lemma PendingStays(c: Config, s: State, act: Action)
    requires Inv(c, s) && Timely(c, s) && Enabled(c, s, act) && !act.Advance?
    ensures Timely(c, Apply(c, s, act))
  {
    var t := Apply(c, s, act);
    forall r: nat, i: nat | Pending(t, r, i) ensures Pending(s, r, i) && t.reqs[r].slots[i] == s.reqs[r].slots[i] {
      PendingBefore(c, s, act, r, i);
    }
  }

  lemma PendingBefore(c: Config, s: State, act: Action, r: nat, i: nat)
    requires Enabled(c, s, act) && !act.Advance? && Pending(Apply(c, s, act), r, i)
    ensures Pending(s, r, i) && Apply(c, s, act).reqs[r].slots[i] == s.reqs[r].slots[i]
  {
  }

  /** An address that an advance makes overdue is another request's, of the subnet advanced in. */
  lemma OverdueIsOthers(c: Config, s: State, q: nat, r: nat, i: nat)
    requires ValidConfig(c) && Timely(c, s) && Enabled(c, s, Advance(q))
    requires var t := Apply(c, s, Advance(q));
      && Pending(t, r, i) && i < |c.prefixes| && i < |t.trail|
      && Coord(c.prefixes[i], c.starts[i]) + t.reqs[r].slots[i].at >= 0
      && |t.trail[i]| > t.reqs[r].slots[i].at + Size(c.prefixes[i])
    ensures r != q && i == |s.reqs[q].slots| && Pending(s, r, i)
    ensures Coord(c.prefixes[i], c.starts[i]) + s.reqs[r].slots[i].at >= 0
    ensures |s.trail[i]| == s.reqs[r].slots[i].at + Size(c.prefixes[i])
  {
    var t, j := Apply(c, s, Advance(q)), |s.reqs[q].slots|;
    if r == q && i == j {
      assert false;
    }
    assert Pending(s, r, i) && t.reqs[r].slots[i] == s.reqs[r].slots[i];
  }

  /** The cursor of the subnet, Size visits on from a waiting address, stops at it and hands it out again. */
  lemma HandedAgain(c: Config, s: State, q: nat, r: nat)
    requires Inv(c, s) && Enabled(c, s, Advance(q)) && r != q
    requires var i := |s.reqs[q].slots|;
      && Pending(s, r, i) && Coord(c.prefixes[i], c.starts[i]) + s.reqs[r].slots[i].at >= 0
      && |s.trail[i]| == s.reqs[r].slots[i].at + Size(c.prefixes[i])
    ensures !Unique(Apply(c, s, Advance(q)))
  {
    var t, i := Apply(c, s, Advance(q)), |s.reqs[q].slots|;
    var a := s.reqs[r].slots[i].addr;
    assert SlotsLogged(s.trail, s.reqs[r].slots);
    ComesBack(c, s, i, s.reqs[r].slots[i].at);
    assert a !in s.ip;
    assert PhaseOk(|c.prefixes|, s.lock, q, s.reqs[q]);
    assert Pending(t, q, i) && t.reqs[q].slots[i].addr == a;
    assert Pending(t, r, i) && t.reqs[r].slots[i].addr == a;
    assert Holds(t, q, a) && Holds(t, r, a);
  }

  /** Size visits on, the cursor comes to the same address next. */
  lemma ComesBack(c: Config, s: State, i: nat, k: nat)
    requires TrailOk(c, s.trail) && i < |c.prefixes| && !CursorOf(c, s, i).Invalid?
    requires Coord(c.prefixes[i], c.starts[i]) + k >= 0 && |s.trail[i]| == k + Size(c.prefixes[i])
    ensures Step(c.prefixes[i], CursorOf(c, s, i)) == s.trail[i][k].addr
  {
    var p, n := c.prefixes[i], |s.trail[i]|;
    var x := Coord(p, c.starts[i]) + 1 + k;
    assert VisitOk(c, i, k, s.trail[i][k]);
    assert VisitOk(c, i, n - 1, s.trail[i][n - 1]);
    StepFromVisit(p, x + Size(p) - 1);
    VisitsCoincideIff(p, x, x + Size(p));
  }

  // ----- capacity: with an address to spare in each subnet, a run without removals is timely -----

  /** Some record holds the address. */
  ghost predicate Held(s: State, a: Addr) {
    exists r: nat :: Holds(s, r, a)
  }

  /** The usable addresses of a subnet that are held. */
  ghost function HeldIn(p: Prefix, s: State): set<Addr>
    requires Usable(p)
  {
    set a | a in UsableSet(p) && Held(s, a)
  }

  /** Each subnet has a usable address that nobody holds. */
  ghost predicate Spare(c: Config, s: State)
    requires ValidConfig(c)
  {
    forall i :: 0 <= i < |c.prefixes| ==> |HeldIn(c.prefixes[i], s)| < Size(c.prefixes[i])
  }

  ghost predicate AlwaysSpare(c: Config, s: State, acts: seq<Action>, t: State)
    requires ValidConfig(c) && Steps(c, s, acts, t)
    decreases |acts|
  {
    Spare(c, s) && (acts == [] || AlwaysSpare(c, Apply(c, s, acts[0]), acts[1..], t))
  }

  /** Nothing has been removed since the start: no record has lost an address but to the loading. */
  ghost predicate NothingRemoved(c: Config, s: State) {
    s.gone == Lost(c.restored) && s.saved == c.restored.records
  }

  /** Every address that a cursor found occupied still has an entry. */
  ghost predicate OccupiedOk(s: State) {
    forall i: nat, k: nat {:trigger s.trail[i][k]} ::
      i < |s.trail| && k < |s.trail[i]| && s.trail[i][k].occupied ==> s.trail[i][k].addr in s.ip
  }

  ghost predicate NoRemovals(c: Config, s: State) {
    NothingRemoved(c, s) && HandedOk(s) && OccupiedOk(s)
  }

  /** Losses are never undone, and a step that removes an entry is a loss. */
  lemma GoneGrows(c: Config, s: State, act: Action)
    requires Inv(c, s) && Enabled(c, s, act)
    ensures s.gone <= Apply(c, s, act).gone && Apply(c, s, act).saved == s.saved
    ensures Apply(c, s, act).gone == s.gone ==> s.ip.Keys <= Apply(c, s, act).ip.Keys
  {
    if act.SweepIps? {
      RemovedIsGone(c, s, Dead(s, s.sweep.i, s.sweep.now));
    } else if act.ClearIps? {
      RemovedIsGone(c, s, InShard(s, act.i));
    }
  }

  lemma RemovedIsGone(c: Config, s: State, as_: set<Addr>)
    requires Inv(c, s) && as_ <= s.ip.Keys
    ensures s.gone <= Remove(s, as_).gone && (Remove(s, as_).gone == s.gone ==> as_ == {})
  {
    if a :| a in as_ {
      assert (s.ip[a], a) in Remove(s, as_).gone && (s.ip[a], a) !in s.gone;
    }
  }

  lemma OccupiedStays(c: Config, s: State, act: Action)
    requires Inv(c, s) && NoRemovals(c, s) && Enabled(c, s, act) && Apply(c, s, act).gone == s.gone
    ensures NoRemovals(c, Apply(c, s, act))
  {
    var t := Apply(c, s, act);
    GoneGrows(c, s, act);
    AnyStepKeeps(c, s, act);
    forall i: nat, k: nat | i < |t.trail| && k < |t.trail[i]| && t.trail[i][k].occupied ensures t.trail[i][k].addr in t.ip {
      OccupiedBefore(c, s, act, i, k);
    }
  }

  /** An occupied visit was there before, or is of an address that had an entry. */
  lemma OccupiedBefore(c: Config, s: State, act: Action, i: nat, k: nat)
    requires Enabled(c, s, act)
    requires var t := Apply(c, s, act); i < |t.trail| && k < |t.trail[i]| && t.trail[i][k].occupied
    ensures var v := Apply(c, s, act).trail[i][k];
      (i < |s.trail| && k < |s.trail[i]| && s.trail[i][k] == v) || v.addr in s.ip
  {
  }

  /** Without removals every address a cursor has come to is held. */
  lemma VisitedIsHeld(c: Config, s: State, i: nat, k: nat)
    requires Inv(c, s) && NoRemovals(c, s) && i < |s.trail| && k < |s.trail[i]|
    ensures Held(s, s.trail[i][k].addr)
  {
    var a := s.trail[i][k].addr;
    if s.trail[i][k].occupied {
      assert Holds(s, s.ip[a], a);
    } else {
      var r :| HandedTo(s, r, i, k);
      assert SlotsLogged(s.trail, s.reqs[r].slots);
      assert s.reqs[r].slots[i].addr == a;
      ExactNow(c, s);
      assert Lists(s, r, a);
      assert Holds(s, r, a);
    }
  }

  /** When Size visits have been made since position k, from the usable part on, every usable address is held. */
  lemma RoundIsHeld(c: Config, s: State, i: nat, k: nat)
    requires Inv(c, s) && NoRemovals(c, s) && i < |c.prefixes|
    requires Coord(c.prefixes[i], c.starts[i]) + k >= 0 && |s.trail[i]| == k + Size(c.prefixes[i])
    ensures HeldIn(c.prefixes[i], s) == UsableSet(c.prefixes[i])
  {
    var p, c0 := c.prefixes[i], Coord(c.prefixes[i], c.starts[i]) + 1;
    forall a | a in UsableSet(p) ensures Held(s, a) {
      assert CanHold(p, a);
      var d := WindowCovers(p, c0 + k - 1, a);
      var m: nat := d - c0;
      assert VisitOk(c, i, m, s.trail[i][m]);
      VisitedIsHeld(c, s, i, m);
    }
  }

  /** An overrun needs a full subnet: when a cursor becomes untimely and nothing has been removed, every usable
      address of its subnet is held. */
  lemma OverrunIsFull(c: Config, s: State, act: Action)
    requires WellConfigured(c) && Inv(c, s) && NoRemovals(c, s) && Timely(c, s)
    requires Enabled(c, s, act) && !Timely(c, Apply(c, s, act))
    ensures !Spare(c, s)
  {
    var r, i := Overdue(c, s, act);
    var p := c.prefixes[i];
    RoundIsHeld(c, s, i, s.reqs[r].slots[i].at);
    RangeCard(p.addr, p.addr.n, Size(p), UsableSet(p));
  }

  /** Capacity: a run in which nothing is removed, and in which at every state each subnet has a usable address
      that nobody holds, is timely throughout; so no two records ever hold one address. */
  lemma CapacityKeepsTimely(c: Config, acts: seq<Action>, t: State)
    requires WellConfigured(c) && Steps(c, Init(c), acts, t) && t.gone == Init(c).gone
    requires AlwaysSpare(c, Init(c), acts, t)
    ensures Run(c, Init(c), acts, t) && AlwaysUnique(c, Init(c), acts, t)
  {
    InitInv(c);
    CapacityFrom(c, Init(c), acts, t);
    TimelyIffUnique(c, acts, t);
  }

  lemma {:induction false} CapacityFrom(c: Config, s: State, acts: seq<Action>, t: State)
    requires WellConfigured(c) && Inv(c, s) && Timely(c, s) && NoRemovals(c, s)
    requires Steps(c, s, acts, t) && AlwaysSpare(c, s, acts, t) && t.gone == s.gone
    ensures Run(c, s, acts, t)
    decreases |acts|
  {
    if acts != [] {
      var act := acts[0];
      var s' := Apply(c, s, act);
      StepKeeps(c, s, act);
      if !Timely(c, s') {
        OverrunIsFull(c, s, act);
        assert false;
      }
      GoneGrows(c, s, act);
      GoneByEnd(c, s', acts[1..], t);
      OccupiedStays(c, s, act);
      CapacityFrom(c, s', acts[1..], t);
    }
  }

  /** Whatever the run, timely or not, losses only grow. */
  lemma {:induction false} GoneByEnd(c: Config, s: State, acts: seq<Action>, t: State)
    requires Steps(c, s, acts, t)
    ensures s.gone <= t.gone
    decreases |acts|
  {
    if acts != [] {
      assert s.gone <= Apply(c, s, acts[0]).gone;
      GoneByEnd(c, Apply(c, s, acts[0]), acts[1..], t);
    }
  }

  // ----- runs that show what goes wrong -----

  /** The actions lead from the start to s; if `timely`, the cursors are timely all the way. */
  ghost predicate Path(c: Config, acts: seq<Action>, s: State, timely: bool)
    requires ValidConfig(c)
  {
    Steps(c, Init(c), acts, s) && (timely ==> Run(c, Init(c), acts, s))
  }

  lemma {:induction false} StepsNext(c: Config, s: State, acts: seq<Action>, t: State, act: Action)
    requires Steps(c, s, acts, t) && Enabled(c, t, act)
    ensures Steps(c, s, acts + [act], Apply(c, t, act))
    decreases |acts|
  {
    if acts == [] {
      assert [act][1..] == [];
    } else {
      assert (acts + [act])[1..] == acts[1..] + [act];
      StepsNext(c, Apply(c, s, acts[0]), acts[1..], t, act);
    }
  }

  lemma {:induction false} RunNext(c: Config, s: State, acts: seq<Action>, t: State, act: Action)
    requires ValidConfig(c) && Run(c, s, acts, t) && Enabled(c, t, act) && Timely(c, Apply(c, t, act))
    ensures Run(c, s, acts + [act], Apply(c, t, act))
    decreases |acts|
  {
    if acts == [] {
      assert [act][1..] == [];
    } else {
      assert (acts + [act])[1..] == acts[1..] + [act];
      RunNext(c, Apply(c, s, acts[0]), acts[1..], t, act);
    }
  }

  /** One subnet, no loaded record. */
  predicate Tiny(c: Config) {
    ValidConfig(c) && |c.prefixes| == 1 && c.starts == [c.prefixes[0].addr] && c.restored == Nothing
  }

  /** Only the address handed out last may wait to be entered. */
  ghost predicate Fine(s: State) {
    |s.trail| == 1 && forall r: nat, i: nat :: Pending(s, r, i) ==> i == 0 && |s.trail[0]| == s.reqs[r].slots[0].at + 1
  }

  lemma FineIsTimely(c: Config, s: State)
    requires Tiny(c) && Fine(s)
    ensures Timely(c, s)
  {
  }

  lemma Begin(c: Config) returns (s: State)
    requires Tiny(c)
    ensures Path(c, [], s, true) && Fine(s)
    ensures s == State(map[], [[]], None, map[], map[], map[], map[], 0, NoSweep, {})
  {
    s := Init(c);
    assert s.gone == {};
    FineIsTimely(c, s);
  }

  lemma Next(c: Config, acts: seq<Action>, s: State, act: Action, timely: bool) returns (acts': seq<Action>, t: State)
    requires Tiny(c) && Path(c, acts, s, timely) && Enabled(c, s, act)
    requires timely ==> Fine(Apply(c, s, act))
    ensures Path(c, acts', t, timely) && t == Apply(c, s, act)
  {
    acts', t := acts + [act], Apply(c, s, act);
    StepsNext(c, Init(c), acts, s, act);
    if timely {
      FineIsTimely(c, t);
      RunNext(c, Init(c), acts, s, act);
    }
  }

  /** The request can be served at once: it has missed, and the next address is free. */
  predicate Ready(c: Config, s: State, r: nat) {
    && |c.prefixes| == |c.starts| == |s.trail| == 1 && c.prefixes[0].Valid() && !CursorOf(c, s, 0).Invalid?
    && r in s.reqs && s.reqs[r].phase.Missed? && s.reqs[r].slots == [] && s.lock == None
    && Step(c.prefixes[0], CursorOf(c, s, 0)) !in s.ip
  }

  /** The state after the request has taken the lock, been handed the next address, and released. */
  function Handed(c: Config, s: State, r: nat): State
    requires Ready(c, s, r)
  {
    var a := Step(c.prefixes[0], CursorOf(c, s, 0));
    s.(trail := [s.trail[0] + [Visit(a, false)]],
       reqs := s.reqs[r := Req(s.reqs[r].domain, Allocated, [Slot(a, |s.trail[0]|)])])
  }

  ghost predicate NoneWaits(s: State) {
    |s.trail| == 1 && forall r: nat, i: nat :: !Pending(s, r, i)
  }

  /** Only request r differs from a state in which none waits, and has no more than the last address. */
  lemma FineFrom(s: State, t: State, r: nat)
    requires NoneWaits(s) && r in t.reqs && t.reqs == s.reqs[r := t.reqs[r]] && |t.trail| == 1
    requires t.reqs[r].slots == [] || (|t.reqs[r].slots| == 1 && t.reqs[r].slots[0].at + 1 == |t.trail[0]|)
    ensures Fine(t)
    ensures Entered(t.reqs[r]) == |t.reqs[r].slots| ==> NoneWaits(t)
  {
    forall q: nat, i: nat | Pending(t, q, i) ensures q == r && i == 0 {
      assert !Pending(s, q, i);
    }
  }

  lemma Hand(c: Config, acts: seq<Action>, s: State, r: nat, timely: bool) returns (acts': seq<Action>, t: State)
    requires Tiny(c) && Path(c, acts, s, timely) && Ready(c, s, r)
    requires timely ==> NoneWaits(s)
    ensures Path(c, acts', t, timely) && t == Handed(c, s, r)
  {
    var q := s.reqs[r];
    var t1 := s.(lock := Some(r), reqs := s.reqs[r := q.(phase := Allocating)]);
    var h := Handed(c, s, r);
    var t2 := h.(lock := Some(r), reqs := s.reqs[r := h.reqs[r].(phase := Allocating)]);
    if timely {
      FineFrom(s, t1, r);
      FineFrom(s, t2, r);
      FineFrom(s, h, r);
    }
    HandSteps(c, s, r, t1, t2);
    acts', t := Next(c, acts, s, Lock(r), timely);
    acts', t := Next(c, acts', t, Advance(r), timely);
    acts', t := Next(c, acts', t, Unlock(r), timely);
  }

  lemma HandSteps(c: Config, s: State, r: nat, t1: State, t2: State)
    requires Tiny(c) && Ready(c, s, r)
    requires t1 == s.(lock := Some(r), reqs := s.reqs[r := s.reqs[r].(phase := Allocating)])
    requires var h := Handed(c, s, r);
      t2 == h.(lock := Some(r), reqs := s.reqs[r := h.reqs[r].(phase := Allocating)])
    ensures Enabled(c, s, Lock(r)) && Apply(c, s, Lock(r)) == t1
    ensures Enabled(c, t1, Advance(r)) && Apply(c, t1, Advance(r)) == t2
    ensures Enabled(c, t2, Unlock(r)) && Apply(c, t2, Unlock(r)) == Handed(c, s, r)
  {
    var t := Apply(c, t1, Advance(r));
    assert t.trail == t2.trail;
    assert t.reqs[r].slots == t2.reqs[r].slots;
    assert t.reqs == t2.reqs;
  }

  /** The state after the request has been served altogether. */
  function Served(c: Config, s: State, r: nat): State
    requires Ready(c, s, r)
  {
    var t, d := Handed(c, s, r), s.reqs[r].domain;
    var slots := t.reqs[r].slots;
    t.(host := t.host[d := r], expires := t.expires[r := t.clock + c.ttl], ip := t.ip[slots[0].addr := r],
       reqs := t.reqs[r := Req(d, Answered(r), slots)])
  }

  lemma Serve(c: Config, acts: seq<Action>, s: State, r: nat) returns (acts': seq<Action>, t: State)
    requires Tiny(c) && Path(c, acts, s, true) && Ready(c, s, r) && NoneWaits(s)
    ensures Path(c, acts', t, true) && t == Served(c, s, r) && NoneWaits(t)
  {
    acts', t := Hand(c, acts, s, r, true);
    FineFrom(s, Apply(c, t, EnterHost(r)), r);
    acts', t := Next(c, acts', t, EnterHost(r), true);
    FineFrom(s, Apply(c, t, EnterIp(r)), r);
    acts', t := Next(c, acts', t, EnterIp(r), true);
  }

  lemma Ask(c: Config, acts: seq<Action>, s: State, r: nat, d: string) returns (acts': seq<Action>, t: State)
    requires Tiny(c) && Path(c, acts, s, true) && NoneWaits(s) && r !in s.reqs && r !in s.saved
    ensures Path(c, acts', t, true) && t == Apply(c, s, FakeIPProtocol.Ask(r, d)) && NoneWaits(t)
  {
    FineFrom(s, Apply(c, s, FakeIPProtocol.Ask(r, d)), r);
    acts', t := Next(c, acts, s, FakeIPProtocol.Ask(r, d), true);
  }

  /** Positions 1 and 2 of a subnet with its cursor at the configured address; they coincide when it has one
      usable address. */
  lemma FirstVisits(c: Config)
    requires Tiny(c)
    ensures var p := c.prefixes[0];
      && OnLine(p, 1) && OnLine(p, 2) && Step(p, p.addr) == VisitAt(p, 1) && Step(p, VisitAt(p, 1)) == VisitAt(p, 2)
      && (Size(p) == 1 ==> VisitAt(p, 2) == VisitAt(p, 1))
      && !p.addr.Invalid? && !VisitAt(p, 1).Invalid?
  {
    var p := c.prefixes[0];
    ContainsIsInterval(p, p.addr);
    StepFromCursor(p, p.addr);
    StepFromVisit(p, 1);
    VisitInside(p, 1);
  }

  /** Requests for two domains miss; then each is handed an address, and neither enters it. With one usable
      address, the cursor goes all the way round in between, and both hold the same one. */
  lemma LateEntryShares(c: Config) returns (acts: seq<Action>, t: State)
    requires Tiny(c) && Size(c.prefixes[0]) == 1
    ensures Steps(c, Init(c), acts, t) && 0 in t.reqs && 1 in t.reqs && t.reqs[0].domain != t.reqs[1].domain
    ensures Holds(t, 0, VisitAt(c.prefixes[0], 1)) && Holds(t, 1, VisitAt(c.prefixes[0], 1))
  {
    FirstVisits(c);
    var a := VisitAt(c.prefixes[0], 1);
    t := Begin(c);
    acts, t := Ask(c, [], t, 0, "a");
    acts, t := Ask(c, acts, t, 1, "b");
    acts, t := Hand(c, acts, t, 0, false);
    acts, t := Hand(c, acts, t, 1, false);
    assert Pending(t, 0, 0) && t.reqs[0].slots[0].addr == a;
    assert Pending(t, 1, 0) && t.reqs[1].slots[0].addr == a;
  }

  /** A hit can be answered before its addresses can be looked up: the host entry comes first. */
  lemma HitBeforeEntries(c: Config) returns (acts: seq<Action>, t: State)
    requires Tiny(c)
    ensures Run(c, Init(c), acts, t) && InPhase(t, 1, Answered(0))
    ensures 0 in t.reqs && t.reqs[0].slots != [] && t.ip == map[]
  {
    FirstVisits(c);
    var s := Begin(c);
    acts, s := Ask(c, [], s, 0, "a");
    acts, t := Hand(c, acts, s, 0, true);
    FineFrom(s, Apply(c, t, EnterHost(0)), 0);
    acts, t := Next(c, acts, t, EnterHost(0), true);
    FineStays(t, Apply(c, t, FakeIPProtocol.Ask(1, "a")), 1);
    acts, t := Next(c, acts, t, FakeIPProtocol.Ask(1, "a"), true);
  }

  lemma FineStays(s: State, t: State, r: nat)
    requires Fine(s) && r !in s.reqs && r in t.reqs && t.reqs == s.reqs[r := t.reqs[r]] && t.reqs[r].slots == []
    requires t.trail == s.trail
    ensures Fine(t)
  {
    forall q: nat, i: nat | Pending(t, q, i) ensures Pending(s, q, i) {
    }
  }

  /** The sweep passes over address shards i to k - 1, in which there is no entry. */
  lemma {:induction false} SweepOver(c: Config, acts: seq<Action>, s: State, k: nat) returns (acts': seq<Action>, t: State)
    requires Tiny(c) && Path(c, acts, s, true) && NoneWaits(s) && s.sweep.AtIps? && s.sweep.i <= k < ShardCount
    requires forall a :: a in s.ip ==> IpShard(a) >= k
    ensures Path(c, acts', t, true) && t == s.(sweep := AtIps(s.sweep.now, k))
    decreases k - s.sweep.i
  {
    if s.sweep.i == k {
      acts', t := acts, s;
    } else {
      var now, i := s.sweep.now, s.sweep.i;
      var t1, t2 := Apply(c, s, SweepIps), s.(sweep := AtIps(now, i + 1));
      RemoveNothing(s, Dead(s, i, now));
      assert t1.sweep.domains == {};
      assert t1 == s.(sweep := AtHosts(now, i, {}));
      FineIf(s, t1);
      acts', t := Next(c, acts, s, SweepIps, true);
      assert Apply(c, t1, SweepHost).host == s.host;
      FineIf(s, t2);
      acts', t := Next(c, acts', t, SweepHost, true);
      acts', t := SweepOver(c, acts', t, k);
    }
  }

  lemma RemoveNothing(s: State, none: set<Addr>)
    requires none == {}
    ensures Remove(s, none) == s
  {
    assert Remove(s, none).ip == s.ip;
    assert Remove(s, none).gone == s.gone;
  }

  lemma FineIf(s: State, t: State)
    requires NoneWaits(s) && t.reqs == s.reqs && t.trail == s.trail
    ensures NoneWaits(t) && Fine(t)
  {
    forall q: nat, i: nat ensures !Pending(t, q, i) {
      assert !Pending(s, q, i);
    }
  }

  /** A stale hit, in a run that is timely throughout. The record of "a" expires; the sweep removes its address
      and not its host entry, which is in a shard of another number; "b" is served with the same address,
      and then "a" is answered with it again, and renewed, although it is looked up to "b". */
  lemma StaleHit(c: Config) returns (acts: seq<Action>, t: State)
    requires Tiny(c) && Size(c.prefixes[0]) == 1 && HostShard("a") != IpShard(VisitAt(c.prefixes[0], 1))
    ensures Run(c, Init(c), acts, t) && InPhase(t, 2, Answered(0)) && DomainOf(t, 0) == "a"
    ensures var x := VisitAt(c.prefixes[0], 1); Lists(t, 0, x) && x in t.ip && DomainOf(t, t.ip[x]) == "b"
    ensures 0 in t.expires && t.expires[0] == t.clock + c.ttl
  {
    var x := VisitAt(c.prefixes[0], 1);
    acts, t := ExpiredLeaves(c);
    FirstVisits(c);
    acts, t := Ask(c, acts, t, 1, "b");
    assert CursorOf(c, t, 0) == x;
    acts, t := Serve(c, acts, t, 1);
    assert t.ip == map[x := 1];
    acts, t := Ask(c, acts, t, 2, "a");
    assert t.reqs[0].slots[0].addr == x;
  }

  /** The first half: "a" has been served, has expired and been swept, and its host entry is still there. */
  lemma ExpiredLeaves(c: Config) returns (acts: seq<Action>, t: State)
    requires Tiny(c) && Size(c.prefixes[0]) == 1 && HostShard("a") != IpShard(VisitAt(c.prefixes[0], 1))
    ensures var x := VisitAt(c.prefixes[0], 1);
      && Path(c, acts, t, true) && NoneWaits(t)
      && t.saved == map[] && t.lock == None && t.host == map["a" := 0] && t.ip == map[]
      && t.reqs == map[0 := Req("a", Answered(0), [Slot(x, 0)])] && t.trail == [[Visit(x, false)]]
  {
    var x := VisitAt(c.prefixes[0], 1);
    var s;
    acts, s := Expires(c);
    acts, t := SweepOver(c, acts, s, IpShard(x));
    SweptAway(c, t, x);
    FineIf(t, Apply(c, t, SweepIps));
    acts, t := Next(c, acts, t, SweepIps, true);
    FineIf(s, Apply(c, t, SweepHost));
    acts, t := Next(c, acts, t, SweepHost, true);
  }

  /** "a" has been served and has expired, and a sweep begins. */
  lemma Expires(c: Config) returns (acts: seq<Action>, t: State)
    requires Tiny(c) && Size(c.prefixes[0]) == 1
    ensures var x := VisitAt(c.prefixes[0], 1);
      && Path(c, acts, t, true) && NoneWaits(t)
      && t.saved == map[] && t.lock == None && t.host == map["a" := 0] && t.ip == map[x := 0]
      && t.reqs == map[0 := Req("a", Answered(0), [Slot(x, 0)])] && t.trail == [[Visit(x, false)]]
      && t.sweep.AtIps? && t.sweep.i == 0 && Expired(t, 0, t.sweep.now)
  {
    FirstVisits(c);
    t := Begin(c);
    acts, t := Ask(c, [], t, 0, "a");
    assert CursorOf(c, t, 0) == c.prefixes[0].addr;
    acts, t := Serve(c, acts, t, 0);
    var s := t;
    assert s.reqs == map[0 := Req("a", Answered(0), [Slot(VisitAt(c.prefixes[0], 1), 0)])];
    assert s.trail[0] == [Visit(VisitAt(c.prefixes[0], 1), false)];
    var dt: nat := if c.ttl >= 0 then c.ttl + 1 else 0;
    FineIf(s, s.(clock := dt));
    acts, t := Next(c, acts, s, Tick(dt), true);
    FineIf(s, Apply(c, t, SweepStart));
    acts, t := Next(c, acts, t, SweepStart, true);
  }

  /** The sweep of the one entry's shard, and of the host shard of the same number. */
  lemma SweptAway(c: Config, s: State, x: Addr)
    requires Enabled(c, s, SweepIps) && s.sweep.i == IpShard(x) != HostShard("a") && Expired(s, 0, s.sweep.now)
    requires s.saved == map[] && s.host == map["a" := 0] && s.ip == map[x := 0] && 0 in s.reqs && s.reqs[0].domain == "a"
    ensures var t := Apply(c, s, SweepIps);
      && t.ip == map[] && t.host == s.host && t.reqs == s.reqs && t.trail == s.trail && t.lock == s.lock && t.saved == s.saved
      && Enabled(c, t, SweepHost) && Apply(c, t, SweepHost).host == map["a" := 0] && Apply(c, t, SweepHost).ip == map[]
  {
    var dead := Dead(s, IpShard(x), s.sweep.now);
    assert dead == {x};
    assert s.ip - dead == map[];
  }

  /** Such a subnet is 198.18.1.2/31. */
  lemma StaleHitExample(ttl: int) returns (c: Config)
    ensures c == Config([Prefix(V4(0xc612_0102), 31)], [V4(0xc612_0102)], ttl, Nothing)
    ensures Tiny(c) && Size(c.prefixes[0]) == 1 && HostShard("a") != IpShard(VisitAt(c.prefixes[0], 1))
  {
    var p := Prefix(V4(0xc612_0102), 31);
    ExampleSubnet(p);
    c := Config([p], [p.addr], ttl, Nothing);
    FirstVisits(c);
    ExampleShards();
  }

  lemma ExampleSubnet(p: Prefix)
    requires p == Prefix(V4(0xc612_0102), 31)
    ensures Usable(p) && p.Contains(p.addr) && Size(p) == 1 && OnLine(p, 1) && VisitAt(p, 1) == V4(0xc612_0103)
  {
    assert Pow2(1) == 2;
    DownIsMod(0xc612_0102, 2);
    ContainsIsInterval(p, p.addr);
  }

  lemma ExampleShards()
    ensures HostShard("a") != IpShard(V4(0xc612_0103))
  {
    FakeIPRestart.ExampleParity(1, 3);
    FakeIPRestart.OddAndEvenMisaligned("a", V4(0xc612_0103));
  }
}
