/** The hourly telemetry: a bucket of counters for each of the latest hours, and a count for each domain.
    Hours are ordered keys; the clock may move back. */
module Analytics {
  import opened Basics
  import opened Names

  const MaxHourlyBuckets: nat := 720

  datatype Kind = Dns | Tcp | Udp

  datatype Event = Event(kind: Kind, hour: int, domain: string)

  // ----- what has been recorded -----

  function Hours(log: seq<Event>): set<int> {
    set e | e in log :: e.hour
  }

  /** How many events of the kind the hour has had. */
  function Tally(log: seq<Event>, hour: int, kind: Kind): nat {
    if log == [] then 0
    else
      var last := log[|log| - 1];
      Tally(log[..|log| - 1], hour, kind) + if last.hour == hour && last.kind == kind then 1 else 0
  }

  /** How many queries the cleaned-up name has had. */
  function Queries(log: seq<Event>, name: string): nat {
    if log == [] then 0
    else
      var last := log[|log| - 1];
      Queries(log[..|log| - 1], name) + if last.kind.Dns? && CleanName(last.domain) == name then 1 else 0
  }

  function CleanName(domain: string): string {
    ToLower(TrimDot(domain))
  }

  lemma {:induction false} NoTally(log: seq<Event>, hour: int, kind: Kind)
    requires hour !in Hours(log)
    ensures Tally(log, hour, kind) == 0
  {
    if log != [] {
      assert log[|log| - 1] in log;
      assert Hours(log[..|log| - 1]) <= Hours(log);
      NoTally(log[..|log| - 1], hour, kind);
    }
  }

  lemma HoursAdd(log: seq<Event>, e: Event)
    ensures Hours(log + [e]) == Hours(log) + {e.hour}
  {
    forall h | h in Hours(log) + {e.hour} ensures h in Hours(log + [e]) {
      if h == e.hour {
        assert (log + [e])[|log|] == e;
      } else {
        var f :| f in log && f.hour == h;
        assert f in log + [e];
      }
    }
  }

  lemma TallyAdd(log: seq<Event>, e: Event, hour: int, kind: Kind)
    ensures Tally(log + [e], hour, kind) == Tally(log, hour, kind) + if e.hour == hour && e.kind == kind then 1 else 0
  {
    assert (log + [e])[..|log|] == log;
  }

  lemma QueriesAdd(log: seq<Event>, e: Event, name: string)
    ensures Queries(log + [e], name)
      == Queries(log, name) + if e.kind.Dns? && CleanName(e.domain) == name then 1 else 0
  {
    assert (log + [e])[..|log|] == log;
  }

  // ----- the greatest keys of a set -----

  /** kept holds the k greatest of `all`, or all of them if there are no more than k. */
  ghost predicate IsTop(kept: set<int>, all: set<int>, k: nat) {
    && kept <= all
    && |kept| == (if |all| <= k then |all| else k)
    && forall x, y :: x in kept && y in all && y !in kept ==> y < x
  }

  lemma TopUnique(a: set<int>, b: set<int>, all: set<int>, k: nat)
    requires IsTop(a, all, k) && IsTop(b, all, k)
    ensures a == b
  {
    forall x | x in a ensures x in b {
      if x !in b {
        var y := Missing(b, a, x);
        assert false;
      }
    }
    Subset(a, b);
  }

  /** Of two sets of the same size, the one with an element of its own lacks one of the other. */
  lemma Missing(b: set<int>, a: set<int>, x: int) returns (y: int)
    requires |a| == |b| && x in a && x !in b
    ensures y in b && y !in a
  {
    if b <= a {
      Subset(b, a);
    }
    HasExtra(b, a);
    y :| y in b && y !in a;
  }

  lemma HasMember(s: set<int>)
    ensures s == {} || exists x :: x in s
  {
    if forall x :: x !in s {
      assert s == {};
    }
  }

  lemma HasExtra(a: set<int>, b: set<int>)
    ensures a <= b || exists x :: x in a && x !in b
  {
    if forall x :: x in a ==> x in b {
      assert a <= b;
    }
  }

  lemma Subset(a: set<int>, b: set<int>)
    requires a <= b
    ensures |a| <= |b| && (|a| == |b| ==> a == b)
  {
    assert b == a + (b - a);
    assert |b| == |a| + |b - a|;
    assert b - a == {} ==> a == b;
  }

  /** One more key: dropping all but the greatest of the kept keys and the new one loses nothing. */
  lemma TopAdd(kept: set<int>, all: set<int>, k: nat, h: int, now: set<int>)
    requires IsTop(kept, all, k) && IsTop(now, kept + {h}, k)
    ensures IsTop(now, all + {h}, k)
  {
    Subset(kept, all);
    if h in kept {
      assert kept + {h} == kept && all + {h} == all;
      TopUnique(now, kept, kept, k) by {
        assert |kept| <= k;
      }
    } else if |all| <= k {
      assert kept == all;
    } else {
      assert |kept + {h}| == k + 1;
      Subset(kept + {h}, all + {h});
      Subset(now, kept + {h});
      forall x, y | x in now && y in all + {h} && y !in now ensures y < x {
        if y !in kept + {h} {
          Below(kept, all, k, h, now, x, y);
        }
      }
    }
  }

  /** A key dropped long ago is below every key kept now. */
  lemma Below(kept: set<int>, all: set<int>, k: nat, h: int, now: set<int>, x: int, y: int)
    requires IsTop(kept, all, k) && IsTop(now, kept + {h}, k) && |kept| == k && h !in kept
    requires x in now && y in all && y !in kept + {h}
    ensures y < x
  {
    if x !in kept {
      if kept <= now {
        Subset(kept + {h}, now);
      }
      HasExtra(kept, now);
      var z :| z in kept && z !in now;
      assert y < z < x;
    }
  }

  // ----- the store -----

  class HourlyStat {
    const hour: int
    var dns: nat
    var tcp: nat
    var udp: nat

    constructor (hour: int)
      ensures this.hour == hour && dns == tcp == udp == 0
    {
      this.hour := hour;
      dns, tcp, udp := 0, 0, 0;
    }

    function Of(kind: Kind): nat
      reads this
    {
      match kind
      case Dns => dns
      case Tcp => tcp
      case Udp => udp
    }

    method Add(kind: Kind)
      modifies this
      ensures forall k: Kind :: Of(k) == old(Of(k)) + if k == kind then 1 else 0
    {
      match kind
      case Dns => dns := dns + 1;
      case Tcp => tcp := tcp + 1;
      case Udp => udp := udp + 1;
    }
  }

  /** A bucket counts exactly what was recorded for its hour. */
  ghost predicate Exact(stat: HourlyStat, log: seq<Event>)
    reads stat
  {
    forall kind: Kind :: stat.Of(kind) == Tally(log, stat.hour, kind)
  }

  class AnalyticsStore {
    var topDomains: map<string, nat>
    var hourly: map<int, HourlyStat>

    /** The state after the events since the store was empty. */
    ghost predicate Shows(log: seq<Event>)
      reads this, hourly.Values
    {
      ShowsHours(log) && ShowsDomains(topDomains, log)
    }

    /** The buckets are those of the greatest hours, each with the exact counts. */
    ghost predicate ShowsHours(log: seq<Event>)
      reads this, hourly.Values
    {
      && IsTop(hourly.Keys, Hours(log), MaxHourlyBuckets)
      && (forall h :: h in hourly ==> hourly[h].hour == h && Exact(hourly[h], log))
    }

    constructor ()
      ensures Shows([]) && hourly == map[]
    {
      topDomains, hourly := map[], map[];
    }

    method Clear()
      modifies this
      ensures Shows([])
    {
      topDomains, hourly := map[], map[];
    }

    /** Keeps the greatest hours; the buckets themselves stay as they are. */
    method PruneOldBuckets()
      modifies `hourly
      ensures IsTop(hourly.Keys, old(hourly).Keys, MaxHourlyBuckets)
      ensures forall h :: h in hourly ==> hourly[h] == old(hourly)[h]
    {
      if |hourly.Keys| <= MaxHourlyBuckets {
        return;
      }
      var keys := SortedKeys(hourly.Keys);
      var excess := |keys| - MaxHourlyBuckets;
      for i := 0 to excess
        invariant forall h :: h in hourly <==> h in old(hourly) && h !in keys[..i]
        invariant forall h :: h in hourly ==> hourly[h] == old(hourly)[h]
      {
        hourly := hourly - {keys[i]};
      }
      KeepsTop(keys, excess, old(hourly).Keys, hourly.Keys);
    }

    /** The bucket of the hour, made if need be; one that is pruned at once is still handed out. */
    method Bucket(hour: int, ghost log: seq<Event>) returns (stat: HourlyStat)
      requires ShowsHours(log)
      modifies `hourly
      ensures IsTop(hourly.Keys, Hours(log) + {hour}, MaxHourlyBuckets)
      ensures forall h :: h in hourly ==> hourly[h].hour == h && Exact(hourly[h], log)
      ensures stat.hour == hour && (hour in hourly ==> hourly[hour] == stat)
      ensures forall h :: h in hourly ==> hourly[h] in old(hourly).Values || fresh(hourly[h])
      ensures stat in old(hourly).Values || fresh(stat)
    {
      if hour in hourly {
        stat := hourly[hour];
        assert Hours(log) + {hour} == Hours(log);
        return;
      }
      stat := NewBucket(hour, log);
    }

    method NewBucket(hour: int, ghost log: seq<Event>) returns (stat: HourlyStat)
      requires ShowsHours(log) && hour !in hourly
      modifies `hourly
      ensures IsTop(hourly.Keys, Hours(log) + {hour}, MaxHourlyBuckets)
      ensures forall h :: h in hourly ==> hourly[h].hour == h && Exact(hourly[h], log)
      ensures fresh(stat) && stat.hour == hour && (hour in hourly ==> hourly[hour] == stat)
      ensures forall h :: h in hourly ==> hourly[h] in old(hourly).Values || hourly[h] == stat
    {
      stat := new HourlyStat(hour);
      ghost var before := hourly.Keys;
      hourly := hourly[hour := stat];
      assert hourly.Keys == before + {hour};
      PruneOldBuckets();
      TopAdd(before, Hours(log), MaxHourlyBuckets, hour, hourly.Keys);
      NewIsEmpty(before, hourly.Keys, log, hour);
    }

    method CountHour(e: Event, ghost log: seq<Event>)
      requires ShowsHours(log)
      modifies `hourly, hourly.Values
      ensures ShowsHours(log + [e])
      ensures forall h :: h in hourly ==> hourly[h] in old(hourly).Values || fresh(hourly[h])
    {
      var stat := Bucket(e.hour, log);
      stat.Add(e.kind);
      HoursAdd(log, e);
      forall h, kind: Kind | h in hourly ensures hourly[h].Of(kind) == Tally(log + [e], h, kind) {
        TallyAdd(log, e, h, kind);
      }
    }

    /** A query is counted for its hour and its name, unless the name is empty. */
    method RecordDnsQuery(domain: string, hour: int, ghost log: seq<Event>)
      requires Shows(log)
      modifies this, hourly.Values
      ensures Shows(if domain == "" then log else log + [Event(Dns, hour, domain)])
      ensures forall h :: h in hourly ==> hourly[h] in old(hourly).Values || fresh(hourly[h])
    {
      if domain == "" {
        return;
      }
      var clean := CleanName(domain);
      var count := if clean in topDomains then topDomains[clean] else 0;
      topDomains := topDomains[clean := count + 1];
      QueryCounted(old(topDomains), log, Event(Dns, hour, domain));
      CountHour(Event(Dns, hour, domain), log);
    }

    method RecordTcpConn(domain: string, hour: int, ghost log: seq<Event>)
      requires Shows(log)
      modifies `hourly, hourly.Values
      ensures Shows(log + [Event(Tcp, hour, domain)])
      ensures forall h :: h in hourly ==> hourly[h] in old(hourly).Values || fresh(hourly[h])
    {
      NoQuery(topDomains, log, Event(Tcp, hour, domain));
      CountHour(Event(Tcp, hour, domain), log);
    }

    method RecordUdpConn(domain: string, hour: int, ghost log: seq<Event>)
      requires Shows(log)
      modifies `hourly, hourly.Values
      ensures Shows(log + [Event(Udp, hour, domain)])
      ensures forall h :: h in hourly ==> hourly[h] in old(hourly).Values || fresh(hourly[h])
    {
      NoQuery(topDomains, log, Event(Udp, hour, domain));
      CountHour(Event(Udp, hour, domain), log);
    }

    method Record(e: Event, ghost log: seq<Event>)
      requires Shows(log)
      modifies this, hourly.Values
      ensures Shows(if e.kind.Dns? && e.domain == "" then log else log + [e])
      ensures forall h :: h in hourly ==> hourly[h] in old(hourly).Values || fresh(hourly[h])
    {
      match e.kind
      case Dns => RecordDnsQuery(e.domain, e.hour, log);
      case Tcp => RecordTcpConn(e.domain, e.hour, log);
      case Udp => RecordUdpConn(e.domain, e.hour, log);
    }
  }

  /** Each name with its exact number of queries, and no other name. */
  ghost predicate ShowsDomains(top: map<string, nat>, log: seq<Event>) {
    && (forall d :: d in top ==> top[d] == Queries(log, d) > 0)
    && (forall d :: Queries(log, d) > 0 ==> d in top)
  }

  lemma QueryCounted(top: map<string, nat>, log: seq<Event>, e: Event)
    requires ShowsDomains(top, log) && e.kind.Dns?
    ensures var clean := CleanName(e.domain);
      ShowsDomains(top[clean := (if clean in top then top[clean] else 0) + 1], log + [e])
  {
    var clean := CleanName(e.domain);
    forall name ensures Queries(log + [e], name) == Queries(log, name) + if clean == name then 1 else 0 {
      QueriesAdd(log, e, name);
    }
  }

  lemma NoQuery(top: map<string, nat>, log: seq<Event>, e: Event)
    requires ShowsDomains(top, log) && !e.kind.Dns?
    ensures ShowsDomains(top, log + [e])
  {
    forall name ensures Queries(log + [e], name) == Queries(log, name) {
      QueriesAdd(log, e, name);
    }
  }

  /** The events that count: all but the queries without a name. */
  function Counted(log: seq<Event>): seq<Event> {
    if log == [] then []
    else
      var front, last := Counted(log[..|log| - 1]), log[|log| - 1];
      if last.kind.Dns? && last.domain == "" then front else front + [last]
  }

  /** Any events, in any order of hours, leave a fresh store with the greatest hours and exact counts. */
  method RecordAll(log: seq<Event>) returns (store: AnalyticsStore)
    ensures fresh(store) && store.Shows(Counted(log))
  {
    store := new AnalyticsStore();
    for k := 0 to |log|
      invariant fresh(store) && fresh(store.hourly.Values)
      invariant store.Shows(Counted(log[..k]))
    {
      var e := log[k];
      assert log[..k + 1][..k] == log[..k];
      store.Record(e, Counted(log[..k]));
    }
    assert log[..|log|] == log;
  }

  /** The sorted keys. */
  method SortedKeys(s: set<int>) returns (keys: seq<int>)
    ensures |keys| == |s| && forall x :: x in keys <==> x in s
    ensures forall i, j :: 0 <= i < j < |keys| ==> keys[i] < keys[j]
  {
    keys := [];
    var left := s;
    while left != {}
      invariant left <= s && |keys| + |left| == |s|
      invariant forall x :: x in keys <==> x in s && x !in left
      invariant forall i, x :: 0 <= i < |keys| && x in left ==> keys[i] < x
      invariant forall i, j :: 0 <= i < j < |keys| ==> keys[i] < keys[j]
      decreases left
    {
      var least := Least(left);
      keys := keys + [least];
      left := left - {least};
    }
  }

  method Least(s: set<int>) returns (m: int)
    requires s != {}
    ensures m in s && forall x :: x in s ==> m <= x
  {
    HasMember(s);
    m :| m in s;
    var left := s - {m};
    while left != {}
      invariant m in s && left <= s && forall x :: x in s && x !in left ==> m <= x
      decreases left
    {
      HasMember(left);
      var x :| x in left;
      if x < m {
        m := x;
      }
      left := left - {x};
    }
  }

  /** Without the first keys in order, the rest are the greatest. */
  lemma KeepsTop(keys: seq<int>, excess: nat, all: set<int>, kept: set<int>)
    requires |all| == |keys| && excess <= |keys| && forall x :: x in keys <==> x in all
    requires forall i, j :: 0 <= i < j < |keys| ==> keys[i] < keys[j]
    requires forall x :: x in kept <==> x in all && x !in keys[..excess]
    requires excess > 0
    ensures IsTop(kept, all, |keys| - excess)
  {
    SizeOf(keys[excess..], kept);
  }

  lemma {:induction false} SizeOf(s: seq<int>, t: set<int>)
    requires forall i, j :: 0 <= i < j < |s| ==> s[i] < s[j]
    requires forall x :: x in s <==> x in t
    ensures |t| == |s|
  {
    if s == [] {
      HasMember(t);
    } else {
      SizeOf(s[1..], t - {s[0]});
    }
  }

  lemma NewIsEmpty(before: set<int>, kept: set<int>, log: seq<Event>, hour: int)
    requires IsTop(before, Hours(log), MaxHourlyBuckets) && hour !in before
    requires IsTop(kept, before + {hour}, MaxHourlyBuckets)
    ensures hour in kept ==> forall kind: Kind :: Tally(log, hour, kind) == 0
  {
    if hour in kept {
      NewHour(before, kept, Hours(log), hour);
      forall kind: Kind ensures Tally(log, hour, kind) == 0 {
        NoTally(log, hour, kind);
      }
    }
  }

  /** An hour that gets a new bucket and keeps it has had no event before. */
  lemma NewHour(before: set<int>, kept: set<int>, all: set<int>, hour: int)
    requires IsTop(before, all, MaxHourlyBuckets) && hour !in before
    requires IsTop(kept, before + {hour}, MaxHourlyBuckets) && hour in kept
    ensures hour !in all
  {
    if hour in all {
      Subset(before, all);
      if before <= kept {
        Subset(before + {hour}, kept);
      }
      HasExtra(before, kept);
      assert false;
    }
  }
}
