/** The UDP session table: packets on the fast path, handlers that look up or create sessions, one listener
    per session and the sweeper, all interleaved.

    A critical section is one step, except that a reader keeps the read lock while it writes a packet, and
    the sweeper keeps the write lock while it goes through the table. */
module UdpSessions {
  datatype Key = Key(clientIp: nat, fakeIp: nat, clientPort: nat, fakePort: nat)

  /** A session by number. */
  type Session = nat

  /** What a session was made for, and the handler that made it. */
  datatype Origin = Origin(key: Key, owner: nat)

  /** Where a packet handler stands; the session it works on, once it has one. */
  datatype Handler =
    | Missed(key: Key)
    | Created(key: Key, s: Session)
    | Stored(key: Key, s: Session)
    | Holding(key: Key, s: Session)
    | Writing(key: Key, s: Session)
    | Failed(key: Key, s: Session)
    | Unlisted(key: Key, s: Session)
    | HalfClosed(key: Key, s: Session)
    | Done

  datatype Listener = Reading | Ending | Removed | UpClosed | Finished

  /** The sweeper holds the write lock unless it is off; `todo` are the entries it has still to visit. */
  datatype Sweeper =
    | Off
    | Scanning(now: int, todo: set<Key>)
    | ClosingUp(now: int, todo: set<Key>, key: Key, idle: int)
    | ClosingBack(now: int, todo: set<Key>, key: Key)
    | Deleting(now: int, todo: set<Key>, key: Key)

  /** Who closed a session: the sweeper, and how long it found it idle; a handler whose write failed, and which. */
  datatype Closers = Closers(swept: map<Session, int>, broken: map<Session, nat>)

  datatype State = State(
    table: map<Key, Session>,
    gauge: int,
    origin: map<Session, Origin>,
    lastActive: map<Session, int>,
    upClosed: set<Session>,
    backClosed: set<Session>,
    handlers: map<nat, Handler>,
    listeners: map<Session, Listener>,
    readers: map<nat, Session>,
    sweeper: Sweeper,
    closers: Closers)

  const Empty := State(map[], 0, map[], map[], {}, {}, map[], map[], map[], Off, Closers(map[], map[]))

  /** Seconds a session may stay idle. */
  const IdleLimit: int := 180

  datatype Action =
    | FastLookup(f: nat, key: Key, now: int)
    | FastWrite(f: nat)
    | Arrive(h: nat, key: Key)
    | GiveUp(h: nat)
    | Create(h: nat, s: Session, now: int)
    | Store(h: nat)
    | Spawn(h: nat)
    | Touch(h: nat, now: int)
    | Write(h: nat, failed: bool)
    | Unlist(h: nat)
    | CloseUp(h: nat)
    | CloseBack(h: nat)
    | Receive(s: Session, now: int)
    | ReadFails(s: Session)
    | ListenerRemove(s: Session)
    | ListenerCloseUp(s: Session)
    | ListenerCloseBack(s: Session)
    | SweepStart(now: int)
    | SweepVisit(key: Key)
    | SweepCloseUp
    | SweepCloseBack
    | SweepDelete
    | SweepEnd

  predicate Locked(st: State) {
    !st.sweeper.Off?
  }

  /** The handler has made the session and has yet to spawn its listener. */
  predicate InHand(st: State, h: nat, s: Session) {
    h in st.handlers && (st.handlers[h].Created? || st.handlers[h].Stored?) && st.handlers[h].s == s
  }

  predicate Hears(st: State, s: Session, phase: Listener) {
    s in st.listeners && st.listeners[s] == phase
  }

  predicate OfHandler(a: Action) {
    a.Arrive? || a.GiveUp? || a.Create? || a.Store? || a.Spawn? || a.Touch? || a.Write? || a.Unlist? || a.CloseUp? || a.CloseBack?
  }

  predicate OfListener(a: Action) {
    a.Receive? || a.ReadFails? || a.ListenerRemove? || a.ListenerCloseUp? || a.ListenerCloseBack?
  }

  predicate OfFastPath(a: Action) {
    a.FastLookup? || a.FastWrite?
  }

  /** When an action can be taken. Reads and writes on a connection the gateway has closed fail. */
  predicate Enabled(st: State, a: Action) {
    if OfHandler(a) then HandlerCan(st, a)
    else if OfListener(a) then ListenerCan(st, a)
    else if OfFastPath(a) then FastPathCan(st, a)
    else SweeperCan(st, a)
  }

  predicate FastPathCan(st: State, a: Action)
    requires OfFastPath(a)
  {
    match a
    case FastLookup(f, key, _) => !Locked(st) && f !in st.readers && key in st.table
    case FastWrite(f) => f in st.readers
  }

  predicate HandlerCan(st: State, a: Action)
    requires OfHandler(a)
  {
    if a.Arrive? then !Locked(st) && a.h !in st.handlers
    else
      && a.h in st.handlers
      && var p := st.handlers[a.h];
      match a
      case GiveUp(_) => p.Missed?
      case Create(_, s, _) => p.Missed? && s !in st.origin
      case Store(_) => p.Created? && CanWrite(st)
      case Spawn(_) => p.Stored?
      case Touch(_, _) => p.Holding?
      case Write(_, failed) => p.Writing? && (failed || p.s !in st.upClosed)
      case Unlist(_) => p.Failed? && CanWrite(st)
      case CloseUp(_) => p.Unlisted?
      case CloseBack(_) => p.HalfClosed?
  }

  predicate ListenerCan(st: State, a: Action)
    requires OfListener(a)
  {
    match a
    case Receive(s, _) => Hears(st, s, Reading) && s !in st.upClosed
    case ReadFails(s) => Hears(st, s, Reading)
    case ListenerRemove(s) => Hears(st, s, Ending) && s in st.origin && CanWrite(st)
    case ListenerCloseUp(s) => Hears(st, s, Removed)
    case ListenerCloseBack(s) => Hears(st, s, UpClosed)
  }

  predicate SweeperCan(st: State, a: Action)
    requires !OfHandler(a) && !OfListener(a) && !OfFastPath(a)
  {
    match a
    case SweepStart(_) => CanWrite(st)
    case SweepVisit(key) =>
      st.sweeper.Scanning? && key in st.sweeper.todo && key in st.table && st.table[key] in st.lastActive
    case SweepCloseUp => st.sweeper.ClosingUp? && st.sweeper.key in st.table
    case SweepCloseBack => st.sweeper.ClosingBack? && st.sweeper.key in st.table
    case SweepDelete => st.sweeper.Deleting?
    case SweepEnd => st.sweeper.Scanning? && st.sweeper.todo == {}
  }

  /** Nobody holds the lock in either mode. */
  predicate CanWrite(st: State) {
    !Locked(st) && st.readers == map[]
  }

  /** The table without a key, and the gauge set to its size. */
  function Without(st: State, key: Key): State {
    st.(table := st.table - {key}, gauge := |st.table - {key}|)
  }

  function Move(st: State, h: nat, p: Handler): State {
    st.(handlers := st.handlers[h := p])
  }

  function Hear(st: State, s: Session, phase: Listener): State {
    st.(listeners := st.listeners[s := phase])
  }

  function Failing(st: State, s: Session, h: nat): Closers {
    st.closers.(broken := st.closers.broken[s := h])
  }

  function Sweeping(st: State, s: Session, idle: int): Closers {
    st.closers.(swept := st.closers.swept[s := idle])
  }

  function Apply(st: State, a: Action): State
    requires Enabled(st, a)
  {
    if OfHandler(a) then HandlerStep(st, a)
    else if OfListener(a) then ListenerStep(st, a)
    else if OfFastPath(a) then FastPathStep(st, a)
    else SweeperStep(st, a)
  }

  function FastPathStep(st: State, a: Action): State
    requires OfFastPath(a) && FastPathCan(st, a)
  {
    match a
    case FastLookup(f, key, now) =>
      st.(readers := st.readers[f := st.table[key]], lastActive := st.lastActive[st.table[key] := now])
    case FastWrite(f) => st.(readers := st.readers - {f})
  }

  function HandlerStep(st: State, a: Action): State
    requires OfHandler(a) && HandlerCan(st, a)
  {
    match a
    case Arrive(h, key) => Move(st, h, if key in st.table then Holding(key, st.table[key]) else Missed(key))
    case GiveUp(h) => Move(st, h, Done)
    case Create(h, s, now) =>
      var key := st.handlers[h].key;
      Move(st, h, Created(key, s)).(origin := st.origin[s := Origin(key, h)], lastActive := st.lastActive[s := now])
    case Store(h) =>
      var p := st.handlers[h];
      var table := st.table[p.key := p.s];
      Move(st, h, Stored(p.key, p.s)).(table := table, gauge := |table|)
    case Spawn(h) =>
      var p := st.handlers[h];
      Hear(Move(st, h, Holding(p.key, p.s)), p.s, Reading)
    case Touch(h, now) =>
      var p := st.handlers[h];
      Move(st, h, Writing(p.key, p.s)).(lastActive := st.lastActive[p.s := now])
    case Write(h, failed) =>
      var p := st.handlers[h];
      Move(st, h, if failed then Failed(p.key, p.s) else Done)
    case Unlist(h) =>
      var p := st.handlers[h];
      Without(Move(st, h, Unlisted(p.key, p.s)), p.key)
    case CloseUp(h) =>
      var p := st.handlers[h];
      Move(st, h, HalfClosed(p.key, p.s)).(upClosed := st.upClosed + {p.s}, closers := Failing(st, p.s, h))
    case CloseBack(h) => Move(st, h, Done).(backClosed := st.backClosed + {st.handlers[h].s})
  }

  function ListenerStep(st: State, a: Action): State
    requires OfListener(a) && ListenerCan(st, a)
  {
    match a
    case Receive(s, now) => st.(lastActive := st.lastActive[s := now])
    case ReadFails(s) => Hear(st, s, Ending)
    case ListenerRemove(s) => Without(Hear(st, s, Removed), st.origin[s].key)
    case ListenerCloseUp(s) => Hear(st, s, UpClosed).(upClosed := st.upClosed + {s})
    case ListenerCloseBack(s) => Hear(st, s, Finished).(backClosed := st.backClosed + {s})
  }

  function SweeperStep(st: State, a: Action): State
    requires !OfHandler(a) && !OfListener(a) && !OfFastPath(a) && SweeperCan(st, a)
  {
    match a
    case SweepStart(now) => st.(sweeper := Scanning(now, st.table.Keys))
    case SweepVisit(key) =>
      var todo, now := st.sweeper.todo - {key}, st.sweeper.now;
      var idle := now - st.lastActive[st.table[key]];
      st.(sweeper := if idle > IdleLimit then ClosingUp(now, todo, key, idle) else Scanning(now, todo))
    case SweepCloseUp =>
      st.(upClosed := st.upClosed + {st.table[st.sweeper.key]},
          closers := Sweeping(st, st.table[st.sweeper.key], st.sweeper.idle),
          sweeper := ClosingBack(st.sweeper.now, st.sweeper.todo, st.sweeper.key))
    case SweepCloseBack =>
      st.(backClosed := st.backClosed + {st.table[st.sweeper.key]},
          sweeper := Deleting(st.sweeper.now, st.sweeper.todo, st.sweeper.key))
    case SweepDelete =>
      st.(table := st.table - {st.sweeper.key}, sweeper := Scanning(st.sweeper.now, st.sweeper.todo))
    case SweepEnd => st.(gauge := |st.table|, sweeper := Off)
  }

  // ----- the invariant -----

  /** The session is the current one of its key. */
  predicate Listed(st: State, s: Session) {
    s in st.origin && st.origin[s].key in st.table && st.table[st.origin[s].key] == s
  }

  /** The sweeper has begun to close the session of this key and has not yet deleted the entry. */
  predicate BeingSwept(st: State, key: Key) {
    (st.sweeper.ClosingBack? || st.sweeper.Deleting?) && st.sweeper.key == key
  }

  /** Its creator has stored the session in the table, maybe long ago. */
  predicate Published(st: State, s: Session) {
    && s in st.origin
    && st.origin[s].owner in st.handlers
    && !st.handlers[st.origin[s].owner].Created?
  }

  /** An entry leads to a published session made for its key. */
  predicate EntryOk(st: State, key: Key) {
    key in st.table ==> Published(st, st.table[key]) && st.origin[st.table[key]].key == key
  }

  /** What a session's creator, its listener and its connections have to do with each other. */
  predicate SessionOk(st: State, s: Session)
    requires s in st.origin
  {
    && OwnerOk(st, s)
    && ListenerOk(st, s)
    && (s in st.backClosed ==> s in st.upClosed)
    && (Listed(st, s) && (s in st.upClosed || s in st.backClosed) ==> BeingSwept(st, st.origin[s].key))
    && s in st.lastActive
  }

  /** A session waits in its creator's hands, closed by nobody, until it is stored; it has a listener from
      the moment its creator has spawned one. */
  predicate OwnerOk(st: State, s: Session)
    requires s in st.origin
  {
    && st.origin[s].owner in st.handlers
    && var p := st.handlers[st.origin[s].owner];
    && !p.Missed?
    && (!p.Done? ==> p.s == s && p.key == st.origin[s].key)
    && (p.Created? ==> !Listed(st, s) && s !in st.upClosed && s !in st.backClosed)
    && (s in st.listeners <==> !p.Created? && !p.Stored?)
  }

  predicate ListenerOk(st: State, s: Session) {
    s in st.listeners ==>
      && (st.listeners[s] in {Removed, UpClosed, Finished} ==> !Listed(st, s))
      && (st.listeners[s] in {UpClosed, Finished} ==> s in st.upClosed)
      && (st.listeners[s] == Finished ==> s in st.backClosed)
  }

  predicate HandlerOk(st: State, h: nat)
    requires h in st.handlers
  {
    var p := st.handlers[h];
    !p.Missed? && !p.Done? ==>
      && p.s in st.origin
      && st.origin[p.s].key == p.key
      && (if p.Created? || p.Stored? then st.origin[p.s].owner == h else Published(st, p.s))
      && (p.Unlisted? || p.HalfClosed? ==> !Listed(st, p.s))
      && (p.HalfClosed? ==> p.s in st.upClosed)
  }

  predicate SweeperOk(st: State) {
    match st.sweeper
    case Off => true
    case Scanning(_, todo) => todo <= st.table.Keys
    case ClosingUp(_, todo, key, _) => todo <= st.table.Keys && key in st.table && key !in todo
    case ClosingBack(_, todo, key) =>
      todo <= st.table.Keys && key in st.table && key !in todo && st.table[key] in st.upClosed
    case Deleting(_, todo, key) => todo <= st.table.Keys && key in st.table && key !in todo
  }

  predicate LockOk(st: State) {
    && (Locked(st) ==> st.readers == map[])
    && (forall f :: f in st.readers ==> Listed(st, st.readers[f]))
    && (!Locked(st) ==> st.gauge == |st.table|)
  }

  ghost predicate Inv(st: State) {
    && (forall key :: key in st.table ==> EntryOk(st, key))
    && (forall s :: s in st.origin ==> SessionOk(st, s))
    && (forall s :: s in st.listeners || s in st.upClosed || s in st.backClosed ==> s in st.origin)
    && (forall h :: h in st.handlers ==> HandlerOk(st, h))
    && SweeperOk(st)
    && LockOk(st)
  }

  // ----- what every step keeps -----

  /** A handler past its start, moved on within the same session or finished. */
  predicate MoveOk(st: State, h: nat, p: Handler) {
    && h in st.handlers
    && var was := st.handlers[h];
    && !was.Created? && !was.Stored?
    && !p.Missed? && !p.Created? && !p.Stored?
    && (p.Done? || (!was.Missed? && !was.Done? && was.s == p.s && was.key == p.key))
    && (p.Unlisted? || p.HalfClosed? ==> !Listed(st, p.s))
    && (p.HalfClosed? ==> p.s in st.upClosed)
  }

  lemma MoveKeeps(st: State, h: nat, p: Handler)
    requires Inv(st) && MoveOk(st, h, p)
    ensures Inv(Move(st, h, p))
  {
    var t := Move(st, h, p);
    forall s | s in t.origin ensures SessionOk(t, s) {
      assert SessionOk(st, s);
    }
    forall g | g in t.handlers ensures HandlerOk(t, g) {
      assert HandlerOk(st, if g == h then h else g);
    }
    forall key | key in t.table ensures EntryOk(t, key) {
      assert EntryOk(st, key);
    }
  }

  lemma HearKeeps(st: State, s: Session, phase: Listener)
    requires Inv(st) && s in st.listeners && ListenerOk(st.(listeners := st.listeners[s := phase]), s)
    ensures Inv(Hear(st, s, phase))
  {
    var t := Hear(st, s, phase);
    forall r | r in t.origin ensures SessionOk(t, r) {
      assert SessionOk(st, r);
    }
    forall g | g in t.handlers ensures HandlerOk(t, g) {
      assert HandlerOk(st, g);
    }
  }

  function ShutUp(st: State, s: Session): State {
    st.(upClosed := st.upClosed + {s})
  }

  function ShutBack(st: State, s: Session): State {
    st.(backClosed := st.backClosed + {s})
  }

  lemma ShutSession(st: State, s: Session, r: Session)
    requires Published(st, s) && !Listed(st, s) && r in st.origin && SessionOk(st, r)
    ensures SessionOk(ShutUp(st, s), r)
    ensures s in st.upClosed ==> SessionOk(ShutBack(st, s), r)
  {
  }

  /** Closing a session's connections is harmless once the session is no longer listed. */
  lemma ShutUpKeeps(st: State, s: Session)
    requires Inv(st) && Published(st, s) && !Listed(st, s)
    ensures Inv(ShutUp(st, s))
  {
    var t := ShutUp(st, s);
    forall r | r in t.origin ensures SessionOk(t, r) {
      ShutSession(st, s, r);
    }
    forall g | g in t.handlers ensures HandlerOk(t, g) {
      assert HandlerOk(st, g);
    }
  }

  lemma ShutBackKeeps(st: State, s: Session)
    requires Inv(st) && Published(st, s) && !Listed(st, s) && s in st.upClosed
    ensures Inv(ShutBack(st, s))
  {
    var t := ShutBack(st, s);
    forall r | r in t.origin ensures SessionOk(t, r) {
      ShutSession(st, s, r);
    }
    forall g | g in t.handlers ensures HandlerOk(t, g) {
      assert HandlerOk(st, g);
    }
  }

  /** A change of the table that lists no further session. */
  predicate FewerListed(st: State, t: State, s: Session) {
    t == st.(table := t.table, gauge := t.gauge) && !Locked(st) && (Listed(t, s) ==> Listed(st, s))
  }

  lemma FewerListedKeeps(st: State, t: State, s: Session)
    requires FewerListed(st, t, s) && s in st.origin && SessionOk(st, s)
    ensures SessionOk(t, s)
  {
    assert OwnerOk(t, s);
    assert ListenerOk(t, s);
  }

  /** The log of who closed what plays no part. */
  lemma LogKeeps(st: State, closers: Closers)
    requires Inv(st)
    ensures Inv(st.(closers := closers))
  {
    var t := st.(closers := closers);
    forall r | r in t.origin ensures SessionOk(t, r) {
      assert SessionOk(st, r);
    }
    forall g | g in t.handlers ensures HandlerOk(t, g) {
      assert HandlerOk(st, g);
    }
  }

  /** Dropping an entry unlists the session it led to and touches no other. */
  lemma WithoutListed(st: State, key: Key, s: Session)
    ensures Listed(Without(st, key), s) <==> Listed(st, s) && st.origin[s].key != key
  {
  }

  lemma FewerListedHandler(st: State, t: State, h: nat)
    requires h in st.handlers && HandlerOk(st, h)
    requires var p := st.handlers[h]; !p.Missed? && !p.Done? ==> FewerListed(st, t, p.s)
    ensures t.handlers == st.handlers ==> HandlerOk(t, h)
  {
  }

  lemma WithoutKeeps(st: State, key: Key)
    requires Inv(st) && CanWrite(st)
    ensures Inv(Without(st, key))
  {
    var t := Without(st, key);
    forall r | r in t.origin ensures SessionOk(t, r) {
      WithoutListed(st, key, r);
      FewerListedKeeps(st, t, r);
    }
    forall g | g in t.handlers ensures HandlerOk(t, g) {
      var p := st.handlers[g];
      if !p.Missed? && !p.Done? {
        WithoutListed(st, key, p.s);
      }
      FewerListedHandler(st, t, g);
    }
    forall k | k in t.table ensures EntryOk(t, k) {
      assert EntryOk(st, k);
    }
  }

  lemma TouchKeepsAll(st: State, s: Session, now: int)
    requires Inv(st)
    ensures Inv(st.(lastActive := st.lastActive[s := now]))
  {
    var t := st.(lastActive := st.lastActive[s := now]);
    forall r | r in t.origin ensures SessionOk(t, r) {
      assert SessionOk(st, r);
    }
    forall g | g in t.handlers ensures HandlerOk(t, g) {
      assert HandlerOk(st, g);
    }
  }

  lemma CreateKeeps(st: State, h: nat, s: Session, now: int)
    requires Inv(st) && Enabled(st, Create(h, s, now))
    ensures Inv(Apply(st, Create(h, s, now)))
  {
    var t := Apply(st, Create(h, s, now));
    forall r | r in t.origin ensures SessionOk(t, r) {
      CreateSession(st, h, s, now, r);
    }
    forall g | g in t.handlers ensures HandlerOk(t, g) {
      assert HandlerOk(st, g);
    }
    forall k | k in t.table ensures EntryOk(t, k) {
      assert EntryOk(st, k);
    }
  }

  lemma CreateSession(st: State, h: nat, s: Session, now: int, r: Session)
    requires Inv(st) && Enabled(st, Create(h, s, now)) && (r == s || r in st.origin)
    ensures SessionOk(Apply(st, Create(h, s, now)), r)
  {
    if r == s {
      var key := st.handlers[h].key;
      assert key in st.table ==> EntryOk(st, key);
    } else {
      assert SessionOk(st, r);
    }
  }

  predicate WorksOn(p: Handler, s: Session) {
    !p.Missed? && !p.Done? && p.s == s
  }

  /** No other handler has seen the session. */
  ghost predicate Alone(st: State, h: nat, s: Session) {
    forall g :: g in st.handlers && WorksOn(st.handlers[g], s) ==> g == h
  }

  /** The creator stops being the only one to know the session. */
  lemma PublishKeeps(st: State, h: nat)
    requires Inv(st) && h in st.handlers && st.handlers[h].Created?
    ensures Inv(Move(st, h, Stored(st.handlers[h].key, st.handlers[h].s)))
    ensures Alone(Move(st, h, Stored(st.handlers[h].key, st.handlers[h].s)), h, st.handlers[h].s)
  {
    var t := Move(st, h, Stored(st.handlers[h].key, st.handlers[h].s));
    assert HandlerOk(st, h);
    forall r | r in t.origin ensures SessionOk(t, r) {
      assert SessionOk(st, r);
    }
    forall g | g in t.handlers ensures HandlerOk(t, g) {
      assert HandlerOk(st, g);
    }
    forall k | k in t.table ensures EntryOk(t, k) {
      assert EntryOk(st, k);
    }
  }

  function List(st: State, key: Key, s: Session): State {
    st.(table := st.table[key := s], gauge := |st.table[key := s]|)
  }

  /** Listing an open session that nobody listens to yet; the one listed before becomes unlisted. */
  lemma ListKeeps(st: State, h: nat)
    requires Inv(st) && CanWrite(st) && h in st.handlers && st.handlers[h].Stored?
    requires var s := st.handlers[h].s; s !in st.upClosed && s !in st.backClosed && Alone(st, h, s)
    ensures Inv(List(st, st.handlers[h].key, st.handlers[h].s))
  {
    var key, s := st.handlers[h].key, st.handlers[h].s;
    var t := List(st, key, s);
    assert HandlerOk(st, h);
    forall r | r in t.origin ensures SessionOk(t, r) {
      assert SessionOk(st, r);
      if r != s {
        FewerListedKeeps(st, t, r);
      }
    }
    forall g | g in t.handlers ensures HandlerOk(t, g) {
      if g != h {
        ListHandler(st, key, s, g);
      }
    }
    forall k | k in t.table ensures EntryOk(t, k) {
      assert EntryOk(st, k);
    }
  }

  lemma ListHandler(st: State, key: Key, s: Session, g: nat)
    requires g in st.handlers && HandlerOk(st, g) && !WorksOn(st.handlers[g], s)
    ensures HandlerOk(List(st, key, s), g)
  {
  }

  lemma StoreKeeps(st: State, h: nat)
    requires Inv(st) && Enabled(st, Store(h))
    ensures Inv(Apply(st, Store(h)))
  {
    PublishKeeps(st, h);
    var p := st.handlers[h];
    assert HandlerOk(st, h) && SessionOk(st, p.s);
    ListKeeps(Move(st, h, Stored(p.key, p.s)), h);
  }

  lemma SpawnKeeps(st: State, h: nat)
    requires Inv(st) && Enabled(st, Spawn(h))
    ensures Inv(Apply(st, Spawn(h)))
  {
    var t := Apply(st, Spawn(h));
    assert HandlerOk(st, h);
    forall r | r in t.origin ensures SessionOk(t, r) {
      SpawnSession(st, h, r);
    }
    forall g | g in t.handlers ensures HandlerOk(t, g) {
      SpawnHandler(st, h, g);
    }
    forall k | k in t.table ensures EntryOk(t, k) {
      assert EntryOk(st, k);
    }
  }

  lemma SpawnHandler(st: State, h: nat, g: nat)
    requires Enabled(st, Spawn(h)) && HandlerOk(st, h) && g in st.handlers && HandlerOk(st, g)
    ensures HandlerOk(Apply(st, Spawn(h)), g)
  {
  }

  lemma SpawnSession(st: State, h: nat, r: Session)
    requires Enabled(st, Spawn(h)) && HandlerOk(st, h) && r in st.origin && SessionOk(st, r)
    ensures SessionOk(Apply(st, Spawn(h)), r)
  {
  }

  // ----- one lemma for each part of the gateway -----

  /** Only locks, times and the gauge differ, and no session is being closed by the sweeper. */
  predicate Quiet(st: State, t: State) {
    && t == st.(gauge := t.gauge, readers := t.readers, sweeper := t.sweeper, lastActive := t.lastActive)
    && st.lastActive.Keys <= t.lastActive.Keys
    && (st.sweeper.Off? || st.sweeper.Scanning?)
  }

  lemma QuietSession(st: State, t: State, r: Session)
    requires Quiet(st, t) && r in st.origin && SessionOk(st, r)
    ensures SessionOk(t, r)
  {
  }

  lemma QuietKeeps(st: State, t: State)
    requires Inv(st) && Quiet(st, t) && SweeperOk(t) && LockOk(t)
    ensures Inv(t)
  {
    forall r | r in t.origin ensures SessionOk(t, r) {
      QuietSession(st, t, r);
    }
    forall g | g in t.handlers ensures HandlerOk(t, g) {
      assert HandlerOk(st, g);
    }
    forall key | key in t.table ensures EntryOk(t, key) {
      assert EntryOk(st, key);
    }
  }

  lemma FastLookupKeeps(st: State, f: nat, key: Key, now: int)
    requires Inv(st) && Enabled(st, FastLookup(f, key, now))
    ensures Inv(Apply(st, FastLookup(f, key, now)))
  {
    assert EntryOk(st, key);
    QuietKeeps(st, Apply(st, FastLookup(f, key, now)));
  }

  lemma FastWriteKeeps(st: State, f: nat)
    requires Inv(st) && Enabled(st, FastWrite(f))
    ensures Inv(Apply(st, FastWrite(f)))
  {
    QuietKeeps(st, Apply(st, FastWrite(f)));
  }

  lemma ArriveKeeps(st: State, h: nat, key: Key)
    requires Inv(st) && Enabled(st, Arrive(h, key))
    ensures Inv(Apply(st, Arrive(h, key)))
  {
    var t := Apply(st, Arrive(h, key));
    assert key in st.table ==> EntryOk(st, key);
    forall r | r in t.origin ensures SessionOk(t, r) {
      assert SessionOk(st, r);
    }
    forall g | g in t.handlers ensures HandlerOk(t, g) {
      assert g != h ==> HandlerOk(st, g);
    }
  }

  lemma HandlerKeeps(st: State, a: Action)
    requires Inv(st) && Enabled(st, a)
    requires a.GiveUp? || a.Touch? || a.Write? || a.Unlist? || a.CloseUp? || a.CloseBack?
    ensures Inv(Apply(st, a))
  {
    var h := a.h;
    var p := st.handlers[h];
    assert HandlerOk(st, h);
    if a.GiveUp? {
      MoveKeeps(st, h, Done);
    } else if a.Touch? {
      MoveKeeps(st, h, Writing(p.key, p.s));
      TouchKeepsAll(Move(st, h, Writing(p.key, p.s)), p.s, a.now);
    } else if a.Write? {
      MoveKeeps(st, h, if a.failed then Failed(p.key, p.s) else Done);
    } else if a.Unlist? {
      WithoutKeeps(st, p.key);
      WithoutListed(st, p.key, p.s);
      MoveKeeps(Without(st, p.key), h, Unlisted(p.key, p.s));
    } else if a.CloseUp? {
      ShutUpKeeps(st, p.s);
      LogKeeps(ShutUp(st, p.s), Failing(st, p.s, h));
      MoveKeeps(ShutUp(st, p.s).(closers := Failing(st, p.s, h)), h, HalfClosed(p.key, p.s));
    } else {
      ShutBackKeeps(st, p.s);
      MoveKeeps(ShutBack(st, p.s), h, Done);
    }
  }

  lemma ListenerKeeps(st: State, a: Action)
    requires Inv(st) && Enabled(st, a)
    requires a.Receive? || a.ReadFails? || a.ListenerRemove? || a.ListenerCloseUp? || a.ListenerCloseBack?
    ensures Inv(Apply(st, a))
  {
    var s := a.s;
    assert SessionOk(st, s);
    if a.Receive? {
      TouchKeepsAll(st, s, a.now);
    } else if a.ReadFails? {
      HearKeeps(st, s, Ending);
    } else if a.ListenerRemove? {
      WithoutKeeps(st, st.origin[s].key);
      WithoutListed(st, st.origin[s].key, s);
      HearKeeps(Without(st, st.origin[s].key), s, Removed);
    } else if a.ListenerCloseUp? {
      ShutUpKeeps(st, s);
      HearKeeps(ShutUp(st, s), s, UpClosed);
    } else {
      ShutBackKeeps(st, s);
      HearKeeps(ShutBack(st, s), s, Finished);
    }
  }

  lemma SweepScans(st: State, a: Action)
    requires Inv(st) && Enabled(st, a) && (a.SweepStart? || a.SweepVisit? || a.SweepEnd?)
    ensures Inv(Apply(st, a))
  {
    QuietKeeps(st, Apply(st, a));
  }

  lemma SweptSession(st: State, a: Action, r: Session)
    requires Enabled(st, a) && r in st.origin && SessionOk(st, r) && SweeperOk(st)
    requires a.SweepCloseUp? || a.SweepCloseBack? || a.SweepDelete?
    requires EntryOk(st, st.sweeper.key)
    ensures SessionOk(Apply(st, a), r)
  {
  }

  lemma SweptHandler(st: State, a: Action, g: nat)
    requires Enabled(st, a) && g in st.handlers && HandlerOk(st, g)
    requires a.SweepCloseUp? || a.SweepCloseBack? || a.SweepDelete?
    ensures HandlerOk(Apply(st, a), g)
  {
  }

  lemma SweepClosesUp(st: State)
    requires Inv(st) && Enabled(st, SweepCloseUp)
    ensures Inv(Apply(st, SweepCloseUp))
  {
    var t := Apply(st, SweepCloseUp);
    forall r | r in t.origin ensures SessionOk(t, r) {
      SweptSession(st, SweepCloseUp, r);
    }
    forall g | g in t.handlers ensures HandlerOk(t, g) {
      SweptHandler(st, SweepCloseUp, g);
    }
    forall key | key in t.table ensures EntryOk(t, key) {
      assert EntryOk(st, key);
    }
  }

  lemma SweepClosesBack(st: State)
    requires Inv(st) && Enabled(st, SweepCloseBack)
    ensures Inv(Apply(st, SweepCloseBack))
  {
    var t := Apply(st, SweepCloseBack);
    forall r | r in t.origin ensures SessionOk(t, r) {
      SweptSession(st, SweepCloseBack, r);
    }
    forall g | g in t.handlers ensures HandlerOk(t, g) {
      SweptHandler(st, SweepCloseBack, g);
    }
    forall key | key in t.table ensures EntryOk(t, key) {
      assert EntryOk(st, key);
    }
  }

  lemma SweepDeletes(st: State)
    requires Inv(st) && Enabled(st, SweepDelete)
    ensures Inv(Apply(st, SweepDelete))
  {
    var t := Apply(st, SweepDelete);
    forall r | r in t.origin ensures SessionOk(t, r) {
      SweptSession(st, SweepDelete, r);
    }
    forall g | g in t.handlers ensures HandlerOk(t, g) {
      SweptHandler(st, SweepDelete, g);
    }
  }

  /** Every step of every part keeps the invariant. */
  lemma StepKeeps(st: State, a: Action)
    requires Inv(st) && Enabled(st, a)
    ensures Inv(Apply(st, a))
  {
    match a
    case FastLookup(f, key, now) => FastLookupKeeps(st, f, key, now);
    case FastWrite(f) => FastWriteKeeps(st, f);
    case Arrive(h, key) => ArriveKeeps(st, h, key);
    case Create(h, s, now) => CreateKeeps(st, h, s, now);
    case Store(h) => StoreKeeps(st, h);
    case Spawn(h) => SpawnKeeps(st, h);
    case GiveUp(_) => HandlerKeeps(st, a);
    case Touch(_, _) => HandlerKeeps(st, a);
    case Write(_, _) => HandlerKeeps(st, a);
    case Unlist(_) => HandlerKeeps(st, a);
    case CloseUp(_) => HandlerKeeps(st, a);
    case CloseBack(_) => HandlerKeeps(st, a);
    case Receive(_, _) => ListenerKeeps(st, a);
    case ReadFails(_) => ListenerKeeps(st, a);
    case ListenerRemove(_) => ListenerKeeps(st, a);
    case ListenerCloseUp(_) => ListenerKeeps(st, a);
    case ListenerCloseBack(_) => ListenerKeeps(st, a);
    case SweepStart(_) => SweepScans(st, a);
    case SweepVisit(_) => SweepScans(st, a);
    case SweepEnd => SweepScans(st, a);
    case SweepDelete => SweepDeletes(st);
    case SweepCloseUp => SweepClosesUp(st);
    case SweepCloseBack => SweepClosesBack(st);
  }

  // ----- whole runs -----

  ghost predicate Run(s: State, acts: seq<Action>, t: State)
    decreases |acts|
  {
    if acts == [] then s == t else Enabled(s, acts[0]) && Run(Apply(s, acts[0]), acts[1..], t)
  }

  ghost predicate Reachable(st: State) {
    exists acts :: Run(Empty, acts, st)
  }

  lemma {:induction false} RunKeeps(s: State, acts: seq<Action>, t: State)
    requires Inv(s) && Run(s, acts, t)
    ensures Inv(t)
    decreases |acts|
  {
    if acts != [] {
      StepKeeps(s, acts[0]);
      RunKeeps(Apply(s, acts[0]), acts[1..], t);
    }
  }

  lemma ReachableInv(st: State)
    requires Reachable(st)
    ensures Inv(st)
  {
    var acts :| Run(Empty, acts, st);
    RunKeeps(Empty, acts, st);
  }

  lemma {:induction false} RunNext(s: State, acts: seq<Action>, t: State, a: Action)
    requires Run(s, acts, t) && Enabled(t, a)
    ensures Run(s, acts + [a], Apply(t, a))
    decreases |acts|
  {
    if acts == [] {
      assert [a][1..] == [];
    } else {
      assert (acts + [a])[1..] == acts[1..] + [a];
      RunNext(Apply(s, acts[0]), acts[1..], t, a);
    }
  }

  lemma Reach(st: State, a: Action) returns (t: State)
    requires Reachable(st) && Enabled(st, a)
    ensures Reachable(t) && t == Apply(st, a)
  {
    var acts :| Run(Empty, acts, st);
    RunNext(Empty, acts, st, a);
    t := Apply(st, a);
  }

  lemma ReachByHandler(st: State, a: Action) returns (t: State)
    requires Reachable(st) && OfHandler(a) && HandlerCan(st, a)
    ensures Reachable(t) && t == HandlerStep(st, a)
  {
    t := Reach(st, a);
  }

  lemma ReachByListener(st: State, a: Action) returns (t: State)
    requires Reachable(st) && OfListener(a) && ListenerCan(st, a)
    ensures Reachable(t) && t == ListenerStep(st, a)
  {
    t := Reach(st, a);
  }

  predicate Open(st: State, s: Session) {
    s !in st.upClosed && s !in st.backClosed
  }

  /** Whenever the lock is not held for writing: no session in the table has been closed by the gateway or
      has a listener past its cleanup, and the gauge is the size of the table. */
  lemma TableIsOpen(st: State)
    requires Reachable(st) && !Locked(st)
    ensures st.gauge == |st.table|
    ensures forall key :: key in st.table ==>
      && st.table[key] in st.origin
      && Open(st, st.table[key])
      && (st.table[key] in st.listeners ==> st.listeners[st.table[key]] in {Reading, Ending})
  {
    ReachableInv(st);
    forall key | key in st.table
      ensures st.table[key] in st.origin && Open(st, st.table[key])
      ensures st.table[key] in st.listeners ==> st.listeners[st.table[key]] in {Reading, Ending}
    {
      assert EntryOk(st, key);
      assert SessionOk(st, st.table[key]);
    }
  }

  /** The fast path only ever writes to a session that is in the table and that the gateway has not closed,
      from the lookup until the write is over. */
  lemma FastWriteIsSafe(st: State, f: nat)
    requires Reachable(st) && Enabled(st, FastWrite(f))
    ensures Listed(st, st.readers[f]) && Open(st, st.readers[f])
  {
    ReachableInv(st);
    assert SessionOk(st, st.readers[f]);
  }

  /** A handler's own write needs a condition for that: the session must still be listed. */
  lemma SlowWriteIsSafeWhileListed(st: State, h: nat)
    requires Reachable(st) && !Locked(st) && h in st.handlers && st.handlers[h].Writing?
    ensures Listed(st, st.handlers[h].s) ==> Open(st, st.handlers[h].s)
  {
    ReachableInv(st);
    assert HandlerOk(st, h);
    assert SessionOk(st, st.handlers[h].s);
  }

  /** A handler that missed makes a session, stores it and spawns its listener. */
  lemma Establish(st: State, h: nat, s: Session) returns (t: State)
    requires Reachable(st) && CanWrite(st) && h in st.handlers && st.handlers[h].Missed? && s !in st.origin
    ensures Reachable(t) && CanWrite(t)
    ensures t.table == st.table[st.handlers[h].key := s] && t.origin == st.origin[s := Origin(st.handlers[h].key, h)]
    ensures t.handlers == st.handlers[h := Holding(st.handlers[h].key, s)]
    ensures t.listeners == st.listeners[s := Reading]
    ensures t.upClosed == st.upClosed && t.backClosed == st.backClosed
  {
    var key := st.handlers[h].key;
    var t1 := ReachByHandler(st, Create(h, s, 0));
    assert t1.handlers == st.handlers[h := Created(key, s)];
    var t2 := ReachByHandler(t1, Store(h));
    assert t2.handlers == st.handlers[h := Stored(key, s)];
    t := ReachByHandler(t2, Spawn(h));
  }

  /** A listener's read fails, and it takes its key out of the table. */
  lemma Depart(st: State, s: Session) returns (t: State)
    requires Reachable(st) && CanWrite(st) && Hears(st, s, Reading) && s in st.origin
    ensures Reachable(t) && CanWrite(t)
    ensures t.table == st.table - {st.origin[s].key} && t.origin == st.origin && t.handlers == st.handlers
    ensures t.listeners == st.listeners[s := Removed]
    ensures t.upClosed == st.upClosed && t.backClosed == st.backClosed
  {
    var t1 := ReachByListener(st, ReadFails(s));
    assert t1 == Hear(st, s, Ending);
    t := ReachByListener(t1, ListenerRemove(s));
    assert t == Without(Hear(t1, s, Removed), st.origin[s].key);
  }

  /** Packets of the same key arrive at handlers that find the same table. */
  lemma ArriveTwo(key: Key) returns (st: State)
    ensures Reachable(st) && CanWrite(st) && st == Empty.(handlers := map[1 := Missed(key), 2 := Missed(key)])
  {
    assert Run(Empty, [], Empty);
    st := ReachByHandler(Empty, Arrive(1, key));
    st := ReachByHandler(st, Arrive(2, key));
  }

  /** The listener of the session has got past closing the upstream connection. */
  predicate EndedByListener(st: State, s: Session) {
    Hears(st, s, UpClosed) || Hears(st, s, Finished)
  }

  /** Who has closed a session: its listener, the sweeper, having found it idle for too long, or a handler
      whose own write failed. */
  predicate CausesOk(st: State, s: Session) {
    && (s in st.upClosed <==> EndedByListener(st, s) || s in st.closers.swept || s in st.closers.broken)
    && (s in st.closers.swept ==> st.closers.swept[s] > IdleLimit)
    && (s in st.closers.broken ==> BrokenBy(st, s, st.closers.broken[s]))
  }

  predicate BrokenBy(st: State, s: Session, h: nat) {
    h in st.handlers && (st.handlers[h].Done? || (st.handlers[h].HalfClosed? && st.handlers[h].s == s))
  }

  predicate IdleOk(st: State) {
    st.sweeper.ClosingUp? ==> st.sweeper.idle > IdleLimit
  }

  lemma ListenerMoves(st: State, a: Action)
    requires OfListener(a) && ListenerCan(st, a)
    ensures var t := ListenerStep(st, a);
      && t.handlers == st.handlers && t.closers == st.closers
      && (!a.ListenerCloseUp? ==> t.upClosed == st.upClosed)
  {
  }

  lemma SweeperMoves(st: State, a: Action)
    requires !OfHandler(a) && !OfListener(a) && !OfFastPath(a) && SweeperCan(st, a)
    ensures var t := SweeperStep(st, a);
      && t.handlers == st.handlers && t.listeners == st.listeners
      && (!a.SweepCloseUp? ==> t.upClosed == st.upClosed && t.closers == st.closers)
  {
  }

  lemma FastPathMoves(st: State, a: Action)
    requires Enabled(st, a) && OfFastPath(a)
    ensures Apply(st, a) == st.(readers := Apply(st, a).readers, lastActive := Apply(st, a).lastActive)
  {
  }

  /** A handler's step moves that handler alone. */
  lemma HandlerMoves(st: State, a: Action)
    requires OfHandler(a) && HandlerCan(st, a)
    ensures var t := HandlerStep(st, a);
      && a.h in t.handlers && t.handlers == st.handlers[a.h := t.handlers[a.h]]
      && (a.h in st.handlers ==> !st.handlers[a.h].Done? && (st.handlers[a.h].HalfClosed? ==> t.handlers[a.h].Done?))
      && (!a.Spawn? ==> t.listeners == st.listeners)
      && (!a.CloseUp? ==> t.upClosed == st.upClosed && t.closers == st.closers)
  {
  }

  lemma CausesFrame(st: State, t: State, s: Session)
    requires CausesOk(st, s) && t.upClosed == st.upClosed && t.closers == st.closers
    requires EndedByListener(t, s) <==> EndedByListener(st, s)
    requires s in st.closers.broken ==> BrokenBy(t, s, st.closers.broken[s])
    ensures CausesOk(t, s)
  {
  }

  lemma HandlerCauses(st: State, a: Action, s: Session)
    requires CausesOk(st, s) && OfHandler(a) && HandlerCan(st, a)
    requires a.Spawn? ==> st.handlers[a.h].s !in st.listeners
    ensures CausesOk(HandlerStep(st, a), s)
  {
    HandlerMoves(st, a);
    if a.CloseUp? {
      CloseUpCauses(st, a.h, s);
    } else if a.Spawn? {
      SpawnCauses(st, a.h, s);
    } else {
      CausesFrame(st, HandlerStep(st, a), s);
    }
  }

  lemma CloseUpCauses(st: State, h: nat, s: Session)
    requires CausesOk(st, s) && HandlerCan(st, CloseUp(h))
    ensures CausesOk(HandlerStep(st, CloseUp(h)), s)
  {
  }

  lemma SpawnCauses(st: State, h: nat, s: Session)
    requires CausesOk(st, s) && HandlerCan(st, Spawn(h)) && st.handlers[h].s !in st.listeners
    ensures CausesOk(HandlerStep(st, Spawn(h)), s)
  {
  }

  lemma ListenerCauses(st: State, a: Action, s: Session)
    requires CausesOk(st, s) && OfListener(a) && ListenerCan(st, a)
    ensures CausesOk(ListenerStep(st, a), s)
  {
    ListenerMoves(st, a);
    if a.ListenerCloseUp? {
      ListenerCloseUpCauses(st, a.s, s);
    } else {
      ListenersEndNothing(st, a, s);
      CausesFrame(st, ListenerStep(st, a), s);
    }
  }

  lemma ListenerCloseUpCauses(st: State, r: Session, s: Session)
    requires CausesOk(st, s) && ListenerCan(st, ListenerCloseUp(r))
    ensures CausesOk(ListenerStep(st, ListenerCloseUp(r)), s)
  {
  }

  lemma ListenersEndNothing(st: State, a: Action, s: Session)
    requires OfListener(a) && ListenerCan(st, a) && !a.ListenerCloseUp?
    ensures EndedByListener(ListenerStep(st, a), s) <==> EndedByListener(st, s)
  {
  }

  lemma SweeperCauses(st: State, a: Action, s: Session)
    requires CausesOk(st, s) && IdleOk(st) && !OfHandler(a) && !OfListener(a) && !OfFastPath(a) && SweeperCan(st, a)
    ensures CausesOk(SweeperStep(st, a), s)
  {
    SweeperMoves(st, a);
  }

  lemma CausesKeep(st: State, a: Action, s: Session)
    requires CausesOk(st, s) && IdleOk(st) && Enabled(st, a)
    requires a.Spawn? ==> st.handlers[a.h].s !in st.listeners
    ensures CausesOk(Apply(st, a), s)
  {
    if OfHandler(a) {
      HandlerCauses(st, a, s);
    } else if OfListener(a) {
      ListenerCauses(st, a, s);
    } else if OfFastPath(a) {
      FastPathMoves(st, a);
    } else {
      SweeperCauses(st, a, s);
    }
  }

  lemma IdleKeeps(st: State, a: Action)
    requires IdleOk(st) && Enabled(st, a)
    ensures IdleOk(Apply(st, a))
  {
  }

  lemma {:induction false} RunCauses(st: State, acts: seq<Action>, t: State, s: Session)
    requires Inv(st) && CausesOk(st, s) && IdleOk(st) && Run(st, acts, t)
    ensures CausesOk(t, s)
    decreases |acts|
  {
    if acts != [] {
      var a := acts[0];
      StepKeeps(st, a);
      if a.Spawn? {
        assert HandlerOk(st, a.h) && SessionOk(st, st.handlers[a.h].s);
      }
      CausesKeep(st, a, s);
      IdleKeeps(st, a);
      RunCauses(Apply(st, a), acts[1..], t, s);
    }
  }

  /** Exactly when a handler's write finds its session closed: the listener has ended it, the sweeper found
      it idle for too long, or another handler's write on it failed. `closers` is kept in the very steps that
      close, so the equivalence is bookkeeping; what the log is worth is that a swept session had been idle
      beyond the limit, and that a failed writer is another handler, past its own close. */
  lemma SlowWriteFindsClosedIff(st: State, h: nat)
    requires Reachable(st) && h in st.handlers && st.handlers[h].Writing?
    ensures var s := st.handlers[h].s;
      && (s in st.upClosed <==> EndedByListener(st, s) || s in st.closers.swept || s in st.closers.broken)
      && (s in st.closers.swept ==> st.closers.swept[s] > IdleLimit)
      && (s in st.closers.broken ==> st.closers.broken[s] != h && BrokenBy(st, s, st.closers.broken[s]))
  {
    var acts :| Run(Empty, acts, st);
    RunCauses(Empty, acts, st, st.handlers[h].s);
  }

  /** Without it, the write may find the session closed: here the listener finishes between a handler's
      lookup and its write. */
  lemma SlowWriteMayFindClosed() returns (st: State)
    ensures Reachable(st) && !Locked(st) && 3 in st.handlers && st.handlers[3].Writing? && !Open(st, st.handlers[3].s)
  {
    st := ArriveTwo(Key(1, 2, 3, 4));
    st := Establish(st, 1, 10);
    st := ReachByHandler(st, Arrive(3, Key(1, 2, 3, 4)));
    st := Depart(st, 10);
    st := ReachByListener(st, ListenerCloseUp(10));
    st := ReachByHandler(st, Touch(3, 5));
  }

  /** Taking a key out of the table unlists a session other than s, made for that key, exactly when another
      one has taken over the key. */
  lemma DropUnlistsAnotherIff(st: State, key: Key, s: Session)
    requires EntryOk(st, key) && s in st.origin && st.origin[s].key == key
    ensures (exists r :: r != s && Listed(st, r) && !Listed(Without(st, key), r)) <==> key in st.table && !Listed(st, s)
  {
    forall r ensures Listed(Without(st, key), r) <==> Listed(st, r) && st.origin[r].key != key {
      WithoutListed(st, key, r);
    }
    if key in st.table && !Listed(st, s) {
      var r := st.table[key];
      assert Listed(st, r) && !Listed(Without(st, key), r);
    }
  }

  /** The cleanup of a listener unlists another session exactly when that one has taken over the key. */
  lemma CleanupUnlistsAnotherIff(st: State, s: Session)
    requires Reachable(st) && Enabled(st, ListenerRemove(s))
    ensures (exists r :: r != s && Listed(st, r) && !Listed(Apply(st, ListenerRemove(s)), r))
       <==> st.origin[s].key in st.table && !Listed(st, s)
  {
    var key := st.origin[s].key;
    var t := Apply(st, ListenerRemove(s));
    assert EntryOk(st, key) by { ReachableInv(st); }
    DropUnlistsAnotherIff(st, key, s);
    assert forall r: Session :: Listed(t, r) <==> Listed(Without(st, key), r);
  }

  /** A handler whose write failed does the same to whatever session has its key, in the same cases. */
  lemma FailedWriteUnlistsAnotherIff(st: State, h: nat)
    requires Reachable(st) && Enabled(st, Unlist(h))
    ensures (exists r :: r != st.handlers[h].s && Listed(st, r) && !Listed(Apply(st, Unlist(h)), r))
       <==> st.handlers[h].key in st.table && !Listed(st, st.handlers[h].s)
  {
    var key := st.handlers[h].key;
    var t := Apply(st, Unlist(h));
    assert EntryOk(st, key) && HandlerOk(st, h) by { ReachableInv(st); }
    DropUnlistsAnotherIff(st, key, st.handlers[h].s);
    assert forall r: Session :: Listed(t, r) <==> Listed(Without(st, key), r);
  }

  /** That happens: two handlers create a session for the same key, the second entry replaces the first, and
      the end of the first session takes the second, still open and listened to, out of the table. */
  lemma RacingCreators() returns (st: State)
    ensures Reachable(st) && CanWrite(st)
    ensures Open(st, 11) && Hears(st, 11, Reading) && !Listed(st, 11) && st.table == map[]
  {
    st := ArriveTwo(Key(1, 2, 3, 4));
    st := Establish(st, 1, 10);
    st := Establish(st, 2, 11);
    st := Depart(st, 10);
  }

  /** A connection the gateway opened and has not closed has somebody left to close it: the handler that is
      still to store the session and spawn its listener, or that listener. */
  lemma NobodyLeaks(st: State, s: Session)
    requires Reachable(st) && s in st.origin && !(s in st.upClosed && s in st.backClosed)
    ensures
      || InHand(st, st.origin[s].owner, s)
      || (s in st.listeners && st.listeners[s] != Finished)
  {
    ReachableInv(st);
    assert SessionOk(st, s);
  }

  /** So once every handler and every listener is done, every session ever created has both its connections
      closed, and the table is empty. */
  lemma QuiescentIsClean(st: State)
    requires Reachable(st)
    requires forall h :: h in st.handlers ==> st.handlers[h].Done?
    requires forall s :: s in st.listeners ==> st.listeners[s] == Finished
    ensures forall s :: s in st.origin ==> s in st.upClosed && s in st.backClosed
    ensures !Locked(st) ==> st.table == map[] && st.gauge == 0
  {
    forall s | s in st.origin ensures s in st.upClosed && s in st.backClosed {
      if !(s in st.upClosed && s in st.backClosed) {
        NobodyLeaks(st, s);
      }
    }
    ReachableInv(st);
    if !Locked(st) {
      TableIsOpen(st);
      if key :| key in st.table {
        assert false;
      }
    }
  }
}