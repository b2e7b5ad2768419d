/** The UDP session table as the gateway holds it: session objects in a map, updated in place. Each method is
    one uninterrupted run of the code; UdpSessions interleaves their critical sections. */
module UdpGateway {
  import opened Basics
  import opened UdpSessions

  type Packet = seq<int>

  /** The packets of a list of replies, each with the time it came. */
  function Payloads(replies: seq<(int, Packet)>): seq<Packet> {
    if replies == [] then [] else Payloads(replies[..|replies| - 1]) + [replies[|replies| - 1].1]
  }

  class Flow {
    var upOpen: bool
    var backOpen: bool
    var lastActive: int
    var upSent: seq<Packet>
    var backSent: seq<Packet>

    constructor (now: int)
      ensures upOpen && backOpen && lastActive == now && upSent == [] && backSent == []
    {
      upOpen, backOpen, lastActive, upSent, backSent := true, true, now, [], [];
    }

    /** Passes the replies on to the client, in order, until there is none. */
    method Relay(replies: seq<(int, Packet)>)
      modifies `lastActive, `backSent
      ensures backSent == old(backSent) + Payloads(replies)
      ensures lastActive == if replies == [] then old(lastActive) else replies[|replies| - 1].0
    {
      for k := 0 to |replies|
        invariant backSent == old(backSent) + Payloads(replies[..k])
        invariant lastActive == if k == 0 then old(lastActive) else replies[k - 1].0
      {
        assert replies[..k + 1][..k] == replies[..k];
        lastActive := replies[k].0;
        backSent := backSent + [replies[k].1];
      }
      assert replies[..|replies|] == replies;
    }

    predicate Open()
      reads this
    {
      upOpen && backOpen
    }

    method Close()
      modifies this
      ensures !upOpen && !backOpen && lastActive == old(lastActive)
      ensures upSent == old(upSent) && backSent == old(backSent)
    {
      upOpen := false;
      backOpen := false;
    }
  }

  /** The entries a sweep at time `now` leaves, given when each was last active. */
  function Swept(table: map<Key, Flow>, now: int): map<Key, Flow>
    reads table.Values
  {
    map key | key in table && now - table[key].lastActive <= IdleLimit :: table[key]
  }

  function Fresh(all: map<Key, Flow>, last: map<Key, int>, now: int): map<Key, Flow>
    requires all.Keys == last.Keys
  {
    map key | key in all && now - last[key] <= IdleLimit :: all[key]
  }

  /** No session is listed twice. */
  ghost predicate Distinct(table: map<Key, Flow>) {
    forall key, other :: key in table && other in table && table[key] == table[other] ==> key == other
  }

  class Gateway {
    var sessions: map<Key, Flow>
    var gauge: int

    /** Every entry is open and is the only one of its session; the gauge is the number of entries. */
    ghost predicate Valid()
      reads this, sessions.Values
    {
      && gauge == |sessions|
      && (forall key :: key in sessions ==> sessions[key].Open())
      && Distinct(sessions)
    }

    constructor ()
      ensures Valid() && sessions == map[]
    {
      sessions, gauge := map[], 0;
    }

    /** Forwards a packet of a known session; any other packet is left to a handler. */
    method FastPath(key: Key, packet: Packet, now: int) returns (hit: bool)
      requires Valid()
      modifies sessions.Values
      ensures Valid() && (hit <==> key in sessions)
      ensures hit ==>
        sessions[key].upSent == old(sessions[key].upSent) + [packet] && sessions[key].lastActive == now
      ensures forall other :: other in sessions && other != key ==>
        sessions[other].upSent == old(sessions[other].upSent) && sessions[other].lastActive == old(sessions[other].lastActive)
    {
      if key !in sessions {
        return false;
      }
      var s := sessions[key];
      s.lastActive := now;
      s.upSent := s.upSent + [packet];
      return true;
    }

    method Remove(key: Key)
      requires Valid()
      modifies this
      ensures Valid() && sessions == old(sessions) - {key}
    {
      sessions := sessions - {key};
      gauge := |sessions|;
    }

    method Store(key: Key, s: Flow)
      requires Valid() && s.Open() && s !in sessions.Values
      modifies this
      ensures Valid() && sessions == old(sessions)[key := s]
    {
      sessions := sessions[key := s];
      gauge := |sessions|;
    }

    /** Writes upstream; a failed write ends the session. */
    method Send(key: Key, payload: Packet, writeFails: bool, now: int)
      requires Valid() && key in sessions
      modifies this, sessions[key]
      ensures Valid() && sessions == if writeFails then old(sessions) - {key} else old(sessions)
      ensures var s := old(sessions)[key];
        && s.lastActive == now
        && (if writeFails then !s.upOpen && !s.backOpen && s.upSent == old(s.upSent)
            else s.Open() && s.upSent == old(s.upSent) + [payload])
    {
      var s := sessions[key];
      s.lastActive := now;
      if writeFails {
        Remove(key);
        s.Close();
      } else {
        s.upSent := s.upSent + [payload];
      }
    }

    /** Handles a packet: an unknown key gets the session `dialled` for it, unless the packet is rejected or
        dialling fails. */
    method HandleUdp(key: Key, payload: Packet, dialled: Option<Flow>, writeFails: bool, now: int)
      requires Valid()
      requires dialled.Some? ==> dialled.value.Open() && dialled.value !in sessions.Values
      modifies this, sessions.Values, if dialled.Some? then {dialled.value} else {}
      ensures Valid()
      ensures key !in old(sessions) && dialled.None? ==> sessions == old(sessions)
      ensures key in old(sessions) || dialled.Some? ==>
        var s := if key in old(sessions) then old(sessions)[key] else dialled.value;
        && s.lastActive == now
        && (if writeFails then sessions == old(sessions) - {key} && !s.upOpen && !s.backOpen && s.upSent == old(s.upSent)
            else sessions == old(sessions)[key := s] && s.Open() && s.upSent == old(s.upSent) + [payload])
    {
      var found := Resolve(key, dialled);
      if found {
        Send(key, payload, writeFails, now);
      }
    }

    /** The key's session is in the table, put there if need be. */
    method Resolve(key: Key, dialled: Option<Flow>) returns (found: bool)
      requires Valid()
      requires dialled.Some? ==> dialled.value.Open() && dialled.value !in sessions.Values
      modifies this
      ensures Valid() && (found <==> key in old(sessions) || dialled.Some?)
      ensures sessions == if found && key !in old(sessions) then old(sessions)[key := dialled.value] else old(sessions)
    {
      if key in sessions {
        return true;
      }
      if dialled.None? {
        return false;
      }
      Store(key, dialled.value);
      return true;
    }

    /** Relays the replies of a session until reading fails, then drops its key and closes it. */
    method Listen(s: Flow, key: Key, replies: seq<(int, Packet)>)
      requires Valid() && forall other :: other in sessions && sessions[other] == s ==> other == key
      modifies this, s
      ensures Valid() && sessions == old(sessions) - {key}
      ensures !s.upOpen && !s.backOpen && s.upSent == old(s.upSent)
      ensures s.backSent == old(s.backSent) + Payloads(replies)
      ensures s.lastActive == if replies == [] then old(s.lastActive) else replies[|replies| - 1].0
    {
      s.Relay(replies);
      Remove(key);
      s.Close();
    }

    /** Closes and drops exactly the sessions idle for longer than the limit. */
    method Sweep(now: int)
      requires Valid()
      modifies this, sessions.Values
      ensures Valid()
      ensures sessions == old(Swept(sessions, now))
      ensures forall key :: key in old(sessions) && key !in sessions ==>
        !old(sessions)[key].upOpen && !old(sessions)[key].backOpen
    {
      ghost var all := sessions;
      ghost var last := map key | key in all :: all[key].lastActive;
      assert Swept(sessions, now) == Fresh(all, last, now);
      SweepEntries(now, all, last);
      SweepDone(all, last, now);
      gauge := |sessions|;
    }

    method SweepEntries(now: int, ghost all: map<Key, Flow>, ghost last: map<Key, int>)
      requires SweepInv(all, last, sessions.Keys, now)
      modifies `sessions, sessions.Values
      ensures SweepInv(all, last, {}, now)
    {
      var todo := sessions.Keys;
      while todo != {}
        invariant todo <= sessions.Keys
        invariant SweepInv(all, last, todo, now)
        decreases todo
      {
        var key :| key in todo;
        SweepEntry(key, now, all, last, todo);
        todo := todo - {key};
      }
    }

    lemma SweepDone(all: map<Key, Flow>, last: map<Key, int>, now: int)
      requires SweepInv(all, last, {}, now)
      ensures sessions == Fresh(all, last, now) && Distinct(sessions)
    {
    }

    /** All but the entries still to visit have been dropped and closed, or kept, as they should be. */
    ghost predicate SweepInv(all: map<Key, Flow>, last: map<Key, int>, todo: set<Key>, now: int)
      reads this`sessions, all.Values
    {
      && sessions.Keys <= all.Keys == last.Keys
      && Distinct(all)
      && (forall key :: key in all ==> all[key].lastActive == last[key])
      && (forall key :: key in sessions ==> sessions[key] == all[key] && all[key].Open())
      && (forall key :: key in all && key !in todo ==> (key in sessions <==> now - last[key] <= IdleLimit))
      && (forall key :: key in all && key !in sessions ==> !all[key].upOpen && !all[key].backOpen)
    }

    /** Closes and drops one entry if it is idle. */
    method SweepEntry(key: Key, now: int, ghost all: map<Key, Flow>, ghost last: map<Key, int>, ghost todo: set<Key>)
      requires key in sessions && SweepInv(all, last, todo, now)
      modifies `sessions, sessions[key]
      ensures SweepInv(all, last, todo - {key}, now)
      ensures old(sessions) - {key} == sessions - {key}
    {
      var s := sessions[key];
      if now - s.lastActive > IdleLimit {
        s.Close();
        sessions := sessions - {key};
      }
    }
  }
}
