/** The HTTP session table and its idle watchdogs. The table's lock makes each method one step. */
module Sessions {
  import opened Prelude

  type Id = nat

  datatype Session<S, C> = Session(state: S, channel: C, lastActivity: nat)

  datatype Metrics = Metrics(initialized: nat, closed: nat, evicted: nat)

  /** The configured idle timeout in whole milliseconds; none disables eviction. */
  function TimeoutOf(ms: Option<real>): Option<nat> {
    if ms.None? || ms.value <= 0.0 then None
    else Some(if ms.value >= 0x1_0000_0000_0000_0000 as real then 0xffff_ffff_ffff_ffff else ms.value.Floor)
  }

  /** A configured timeout under a millisecond enables eviction with no idle time at all. */
  lemma TimeoutIsEnabled(ms: Option<real>)
    ensures TimeoutOf(ms).Some? <==> ms.Some? && ms.value > 0.0
    ensures TimeoutOf(ms).Some? && ms.value < 0x1_0000_0000_0000_0000 as real ==>
              TimeoutOf(ms).value as real <= ms.value < TimeoutOf(ms).value as real + 1.0
    ensures TimeoutOf(ms) == Some(0) <==> ms.Some? && 0.0 < ms.value < 1.0
  {
  }

  /** Counts are taken after the table's lock is released, and a watchdog begins to sleep when its
      task is first run, so both are steps of their own. */
  class SessionTable<S, C> {
    const timeout: Option<nat>
    const initialState: S
    var now: nat
    var sessions: map<Id, Session<S, C>>
    var opening: set<Id>             // registered and not yet counted
    var closing: nat                 // removed and not yet counted
    var starting: set<Id>            // watchdogs that have not been run yet
    var wakes: map<Id, nat>          // sleeping watchdogs and when each is due
    var metrics: Metrics
    ghost var begun: map<Id, nat>    // when each watchdog first went to sleep
    ghost var issued: set<Id>        // every id ever given to a session
    ghost var active: set<(Id, nat)> // every creation and touch of a session, with its time

    ghost predicate Valid()
      reads this
    {
      && (forall id :: id in sessions ==> id in issued && sessions[id].lastActivity <= now)
      && opening <= issued && starting <= issued
      && (forall id :: id in wakes ==> id in issued && id in begun)
      && ActivityIsKnown()
      && (timeout.Some? ==> forall id :: id in sessions ==> Watched(id))
      && (timeout.None? ==> wakes == map[] && metrics.evicted == 0)
      && metrics.initialized + |opening| == |sessions| + metrics.closed + closing
      && metrics.evicted <= metrics.closed
    }

    /** No creation or touch of a live session is behind its last activity. */
    ghost predicate ActivityIsKnown()
      reads this
    {
      forall a :: a in active ==> a.0 in issued && (a.0 in sessions ==> a.1 <= sessions[a.0].lastActivity)
    }

    /** A live session's watchdog is to start, or sleeps no longer than the timeout from the last
        activity, unless it is in its first sleep. */
    ghost predicate Watched(id: Id)
      reads this
      requires timeout.Some? && id in sessions
    {
      || id in opening || id in starting
      || (id in wakes && id in begun
          && (wakes[id] <= sessions[id].lastActivity + timeout.value || wakes[id] == begun[id] + timeout.value))
    }

    constructor (timeoutMs: Option<real>, initialState: S)
      ensures Valid() && sessions == map[] && issued == {} && active == {} && opening == {} && closing == 0
      ensures this.timeout == TimeoutOf(timeoutMs) && this.initialState == initialState
    {
      this.timeout, this.initialState := TimeoutOf(timeoutMs), initialState;
      now, sessions, opening, closing, starting, wakes := 0, map[], {}, 0, {}, map[];
      metrics, begun, issued, active := Metrics(0, 0, 0), map[], {}, {};
    }

    method Pass(ms: nat)
      requires Valid()
      modifies this`now
      ensures Valid() && now == old(now) + ms
    {
      now := now + ms;
    }

    /** The locked part of `create`: a session with a new id. */
    method Register(id: Id, channel: C)
      requires Valid() && id !in issued
      modifies this`sessions, this`opening, this`issued, this`active
      ensures Valid() && issued == old(issued) + {id} && active == old(active) + {(id, now)}
      ensures sessions == old(sessions)[id := Session(initialState, channel, now)]
      ensures opening == old(opening) + {id}
    {
      assert id !in sessions && id !in opening && forall t :: (id, t) !in active;
      sessions := sessions[id := Session(initialState, channel, now)];
      opening := opening + {id};
      issued, active := issued + {id}, active + {(id, now)};
    }

    /** The rest of `create`: the session is counted, and its watchdog spawned when eviction is enabled. */
    method Announce(id: Id)
      requires Valid() && id in opening
      modifies this`opening, this`starting, this`metrics
      ensures Valid() && opening == old(opening) - {id}
      ensures metrics == old(metrics).(initialized := old(metrics).initialized + 1)
      ensures starting == if timeout.Some? then old(starting) + {id} else old(starting)
    {
      opening := opening - {id};
      metrics := metrics.(initialized := metrics.initialized + 1);
      if timeout.Some? {
        starting := starting + {id};
      }
    }

    /** The watchdog's task is run for the first time and sleeps for the whole timeout. */
    method StartWatchdog(id: Id)
      requires Valid() && timeout.Some? && id in starting
      modifies this`starting, this`wakes, this`begun
      ensures Valid() && starting == old(starting) - {id}
      ensures wakes == old(wakes)[id := now + timeout.value] && begun == old(begun)[id := now]
    {
      starting := starting - {id};
      wakes, begun := wakes[id := now + timeout.value], begun[id := now];
    }

    /** The session's protocol state and channel; the watchdog's due time stays. */
    method Touch(id: Id) returns (r: Option<(S, C)>)
      requires Valid()
      modifies this`sessions, this`active
      ensures Valid()
      ensures active == if id in old(sessions) then old(active) + {(id, now)} else old(active)
      ensures r == if id in old(sessions) then Some((old(sessions)[id].state, old(sessions)[id].channel)) else None
      ensures sessions == if id in old(sessions) then old(sessions)[id := old(sessions)[id].(lastActivity := now)]
                          else old(sessions)
    {
      if id !in sessions { return None; }
      sessions := sessions[id := sessions[id].(lastActivity := now)];
      active := active + {(id, now)};
      return Some((sessions[id].state, sessions[id].channel));
    }

    method SetState(id: Id, state: S)
      requires Valid()
      modifies this`sessions
      ensures Valid()
      ensures sessions == if id in old(sessions) then old(sessions)[id := old(sessions)[id].(state := state)]
                          else old(sessions)
    {
      if id in sessions {
        sessions := sessions[id := sessions[id].(state := state)];
      }
    }

    /** The locked part of `remove`. */
    method Remove(id: Id) returns (removed: bool)
      requires Valid()
      modifies this`sessions, this`closing
      ensures Valid() && sessions == old(sessions) - {id}
      ensures removed == (id in old(sessions)) && closing == old(closing) + (if removed then 1 else 0)
    {
      RemoveCounts(sessions, id);
      removed := id in sessions;
      if removed {
        sessions := sessions - {id};
        closing := closing + 1;
      } else {
        assert sessions == sessions - {id};
      }
    }

    /** The rest of `remove`: a session that was removed is counted. */
    method CountClosed()
      requires Valid() && closing > 0
      modifies this`closing, this`metrics
      ensures Valid() && closing == old(closing) - 1
      ensures metrics == old(metrics).(closed := old(metrics).closed + 1)
    {
      closing := closing - 1;
      metrics := metrics.(closed := metrics.closed + 1);
    }

    /** One round of `idle_watchdog`, no earlier than it is due: the session is gone, is evicted after
        at least the timeout without activity, or the watchdog sleeps for what remains. */
    method Wake(id: Id) returns (evicted: bool)
      requires Valid() && timeout.Some? && id in wakes && wakes[id] <= now
      modifies this`sessions, this`metrics, this`wakes
      ensures Valid()
      ensures evicted <==> id in old(sessions) && now - old(sessions)[id].lastActivity >= timeout.value
      ensures evicted ==> forall t :: (id, t) in active ==> t + timeout.value <= now
      ensures sessions == if evicted then old(sessions) - {id} else old(sessions)
      ensures metrics == if evicted then old(metrics).(closed := old(metrics).closed + 1,
                                                       evicted := old(metrics).evicted + 1)
                         else old(metrics)
      ensures wakes == if id in old(sessions) && !evicted
                       then old(wakes)[id := old(sessions)[id].lastActivity + timeout.value]
                       else old(wakes) - {id}
      ensures id in wakes ==> wakes[id] > now
    {
      if id !in sessions {
        wakes := wakes - {id};
        return false;
      }
      var idle := now - sessions[id].lastActivity;
      if idle >= timeout.value {
        assert forall t :: (id, t) in active ==> t <= sessions[id].lastActivity;
        Evict(id);
        return true;
      }
      Rearm(id, timeout.value - idle);
      return false;
    }

    method Evict(id: Id)
      requires Valid() && id in sessions && timeout.Some?
      modifies this`sessions, this`metrics, this`wakes
      ensures Valid() && sessions == old(sessions) - {id} && wakes == old(wakes) - {id}
      ensures metrics == old(metrics).(closed := old(metrics).closed + 1, evicted := old(metrics).evicted + 1)
    {
      RemoveCounts(sessions, id);
      sessions := sessions - {id};
      metrics := metrics.(closed := metrics.closed + 1, evicted := metrics.evicted + 1);
      wakes := wakes - {id};
    }

    method Rearm(id: Id, delay: nat)
      requires Valid() && timeout.Some? && id in sessions && id in wakes
      requires now + delay == sessions[id].lastActivity + timeout.value
      modifies this`wakes
      ensures Valid() && wakes == old(wakes)[id := now + delay]
    {
      wakes := wakes[id := now + delay];
    }

    /** Exactly when the counts add up: as many sessions await being counted in as out. */
    lemma CountsAgreeExactly()
      requires Valid()
      ensures metrics.initialized == |sessions| + metrics.closed <==> |opening| == closing
    {
    }

    /** Exactly when a watchdog is due later than the timeout from the last activity: it is in its first
        sleep, which it began behind that activity. */
    lemma DueLateExactly(id: Id)
      requires Valid() && timeout.Some? && id in sessions && id !in opening && id !in starting
      ensures id in wakes && id in begun
      ensures wakes[id] > sessions[id].lastActivity + timeout.value <==>
                wakes[id] == begun[id] + timeout.value && begun[id] > sessions[id].lastActivity
    {
      assert Watched(id);
    }

    /** No session outlives its timeout by more than its watchdog starts and wakes late. */
    lemma IdleIsBounded(id: Id, startDelay: nat, lateness: nat)
      requires Valid() && timeout.Some? && id in sessions && id !in opening && id !in starting
      requires id in begun ==> begun[id] <= sessions[id].lastActivity + startDelay
      requires id in wakes ==> now <= wakes[id] + lateness
      ensures now - sessions[id].lastActivity <= timeout.value + startDelay + lateness
    {
      assert Watched(id);
    }
  }

  /** A timeout of 10 ms and a watchdog first run 5 ms after the session was created: the watchdog is due
      later than the timeout from the last activity. */
  method LateWatchdog() returns (table: SessionTable<int, int>)
    ensures fresh(table) && table.Valid() && table.timeout == Some(10)
    ensures 0 in table.sessions && 0 in table.wakes && 0 !in table.opening
    ensures table.wakes[0] > table.sessions[0].lastActivity + 10
  {
    table := new SessionTable(Some(10.0), 0);
    hide SessionTable.Valid;
    table.Register(0, 0);
    table.Announce(0);
    table.Pass(5);
    table.StartWatchdog(0);
  }

  /** A session that is registered and not yet counted: the counts do not add up. */
  method UncountedSession() returns (table: SessionTable<int, int>)
    ensures fresh(table) && table.Valid()
    ensures table.metrics.initialized != |table.sessions| + table.metrics.closed
  {
    table := new SessionTable(None, 0);
    table.Register(0, 0);
  }

  lemma RemoveCounts<V>(m: map<Id, V>, id: Id)
    ensures id in m ==> |m - {id}| == |m| - 1
  {
    if id in m {
      assert m == (m - {id})[id := m[id]];
    }
  }
}
