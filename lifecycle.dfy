/** What holds over any history of the store: sessions and chargers are
    created, sessions are started and stopped, in any order and with any
    arguments. From a fresh store, a charger is unavailable exactly when one
    running session occupies it; a stopped session never changes again; no
    session is ever cancelled. */
module Lifecycle {
  import opened Models
  import opened Energy
  import opened Repository
  import opened Service

  /** Session `sid` is running on charger `cid`. */
  ghost predicate RunningOn(t: Tables, sid: int, cid: int) {
    sid in t.sessions.rows && t.sessions.rows[sid].status == Running && t.sessions.rows[sid].chargerUnitId == cid
  }

  /** A charger is unavailable exactly when a running session is on it, and no
      charger has two running sessions. */
  ghost predicate Occupancy(t: Tables) {
    && (forall cid :: cid in t.chargers.rows ==>
          (!t.chargers.rows[cid].isAvailable <==> exists sid :: RunningOn(t, sid, cid)))
    && (forall s1, s2, cid :: RunningOn(t, s1, cid) && RunningOn(t, s2, cid) ==> s1 == s2)
  }

  /** Every session names a stored user and a stored charger, and none is
      cancelled. */
  ghost predicate SessionsWellFormed(t: Tables) {
    forall sid :: sid in t.sessions.rows ==>
      && t.sessions.rows[sid].userId in t.users.rows
      && t.sessions.rows[sid].chargerUnitId in t.chargers.rows
      && t.sessions.rows[sid].status != Cancelled
  }

  ghost predicate Consistent(t: Tables) {
    t.Valid() && SessionsWellFormed(t) && Occupancy(t)
  }

  lemma StartPreservesConsistency(t: Tables, userId: int, cid: int, now: Timestamp)
    requires Consistent(t)
    ensures Consistent(Start(t, userId, cid, now).0)
  {
    var out := Start(t, userId, cid, now);
    if out.1.Ok? {
      var t', sid := out.0, out.1.value;
      assert Started(t, t', sid, userId, cid, now);
      assert sid !in t.sessions.rows;
      // the charger was free, so nothing ran on it
      assert !exists s :: RunningOn(t, s, cid);
      assert forall s, c :: RunningOn(t', s, c) <==> RunningOn(t, s, c) || (s == sid && c == cid);
      forall c | c in t'.chargers.rows
        ensures !t'.chargers.rows[c].isAvailable <==> exists s :: RunningOn(t', s, c)
      {
        if c == cid {
          assert RunningOn(t', sid, cid);
        } else {
          assert t'.chargers.rows[c] == t.chargers.rows[c];
        }
      }
    }
  }

  lemma StopPreservesConsistency(t: Tables, sid: int, now: Timestamp)
    requires Consistent(t)
    ensures Consistent(Stop(t, sid, now).0)
  {
    var out := Stop(t, sid, now);
    if out.1.Ok? {
      var t' := out.0;
      assert StoppedIn(t, t', sid, now, out.1.value);
      var cid := t.sessions.rows[sid].chargerUnitId;
      assert RunningOn(t, sid, cid);
      // sid was the only session on its charger, and it no longer runs
      assert forall s, c :: RunningOn(t', s, c) <==> RunningOn(t, s, c) && s != sid;
      assert !exists s :: RunningOn(t', s, cid);
      forall c | c in t'.chargers.rows
        ensures !t'.chargers.rows[c].isAvailable <==> exists s :: RunningOn(t', s, c)
      {
        if c != cid {
          assert t'.chargers.rows[c] == t.chargers.rows[c];
          if exists s :: RunningOn(t, s, c) {
            var s :| RunningOn(t, s, c);
            assert RunningOn(t', s, c);
          }
        }
      }
    }
  }

  /** One operation on the store: the repository's creates as the API uses
      them, and the two service operations. */
  datatype Op =
    | CreateUserOp(user: User)
    | CreateStationOp(station: ChargingStation)
    | CreateChargerOp(stationId: int, connectorType: string, maxPowerW: int)
    | StartOp(userId: int, chargerUnitId: int, startAt: Timestamp)
    | StopOp(sessionId: int, stopAt: Timestamp)

  function Step(t: Tables, op: Op): Tables {
    match op
    case CreateUserOp(u) => t.(users := t.users.Insert(u).0)
    case CreateStationOp(st) => t.(stations := t.stations.Insert(st).0)
    case CreateChargerOp(stationId, connectorType, maxPowerW) =>
      t.(chargers := t.chargers.Insert(NewChargerUnit(stationId, connectorType, maxPowerW)).0)
    case StartOp(userId, cid, now) => Start(t, userId, cid, now).0
    case StopOp(sid, now) => Stop(t, sid, now).0
  }

  function Run(t: Tables, ops: seq<Op>): Tables
    decreases |ops|
  {
    if ops == [] then t else Run(Step(t, ops[0]), ops[1..])
  }

  lemma StepPreservesConsistency(t: Tables, op: Op)
    requires Consistent(t)
    ensures Consistent(Step(t, op))
  {
    match op
    case CreateUserOp(u) =>
      assert forall s, c :: RunningOn(Step(t, op), s, c) <==> RunningOn(t, s, c);
    case CreateStationOp(st) =>
      assert forall s, c :: RunningOn(Step(t, op), s, c) <==> RunningOn(t, s, c);
    case CreateChargerOp(stationId, connectorType, maxPowerW) =>
      var t' := Step(t, op);
      var cid := t.chargers.nextId;
      assert cid !in t.chargers.rows;
      // no session can name a charger id that was never handed out
      assert !exists s :: RunningOn(t, s, cid);
      assert forall s, c :: RunningOn(t', s, c) <==> RunningOn(t, s, c);
    case StartOp(userId, cid, now) => StartPreservesConsistency(t, userId, cid, now);
    case StopOp(sid, now) => StopPreservesConsistency(t, sid, now);
  }

  lemma {:induction false} RunPreservesConsistency(t: Tables, ops: seq<Op>)
    requires Consistent(t)
    ensures Consistent(Run(t, ops))
    decreases |ops|
  {
    if ops != [] {
      StepPreservesConsistency(t, ops[0]);
      RunPreservesConsistency(Step(t, ops[0]), ops[1..]);
    }
  }

  /** The occupancy rule holds after every history that starts from an empty
      store (where every charger is created available). */
  lemma ReachableIsConsistent(ops: seq<Op>)
    ensures Consistent(Run(EmptyTables(), ops))
  {
    RunPreservesConsistency(EmptyTables(), ops);
  }

  lemma {:induction false} RunPreservesValid(t: Tables, ops: seq<Op>)
    requires t.Valid()
    ensures Run(t, ops).Valid()
    decreases |ops|
  {
    if ops != [] {
      RunPreservesValid(Step(t, ops[0]), ops[1..]);
    }
  }

  /** A stopped session is final: no later operation changes its row. */
  lemma {:induction false} StoppedStaysStopped(t: Tables, ops: seq<Op>, sid: int)
    requires t.Valid() && sid in t.sessions.rows && t.sessions.rows[sid].status == Stopped
    ensures sid in Run(t, ops).sessions.rows && Run(t, ops).sessions.rows[sid] == t.sessions.rows[sid]
    decreases |ops|
  {
    if ops != [] {
      var t' := Step(t, ops[0]);
      assert sid in t'.sessions.rows && t'.sessions.rows[sid] == t.sessions.rows[sid] by {
        match ops[0]
        case StartOp(userId, cid, now) =>
          var out := Start(t, userId, cid, now);
          if out.1.Ok? { assert Started(t, out.0, out.1.value, userId, cid, now); }
        case StopOp(s, now) =>
        case _ =>
      }
      StoppedStaysStopped(t', ops[1..], sid);
    }
  }

  /** Hence a session that has been stopped can never be stopped again,
      whatever happens in between. */
  lemma StopAfterStopFails(t: Tables, sid: int, firstStop: Timestamp, ops: seq<Op>, secondStop: Timestamp)
    requires t.Valid() && Stop(t, sid, firstStop).1.Ok?
    ensures var later := Run(Stop(t, sid, firstStop).0, ops);
            Stop(later, sid, secondStop) == (later, Err(SessionNotRunning))
  {
    var t1 := Stop(t, sid, firstStop).0;
    assert StoppedIn(t, t1, sid, firstStop, Stop(t, sid, firstStop).1.value);
    StoppedStaysStopped(t1, ops, sid);
  }

  /** One hour on a fresh 7 kW charger: 7 kWh, the charger released, and one
      pending on-site payment of 7 * 3000. */
  lemma OneHourOnSevenKilowatts(u: User, st: ChargingStation, connectorType: string, startAt: Timestamp)
    ensures var t := Run(EmptyTables(), [
                          CreateUserOp(u), CreateStationOp(st), CreateChargerOp(1, connectorType, 7000),
                          StartOp(1, 1, startAt), StopOp(1, startAt + 3600)]);
            && t.sessions.rows == map[1 := ChargingSession(1, 1, startAt, Some(startAt + 3600), Some(7000), Stopped)]
            && t.chargers.rows == map[1 := ChargerUnit(1, connectorType, 7000, true)]
            && t.payments.rows == map[1 := PaymentTransaction(Some(1), 21000, OnSite, Pending, startAt + 3600)]
  {
    var t0 := EmptyTables();
    var t1 := Step(t0, CreateUserOp(u));
    var t2 := Step(t1, CreateStationOp(st));
    var t3 := Step(t2, CreateChargerOp(1, connectorType, 7000));
    var t4 := Step(t3, StartOp(1, 1, startAt));
    var t5 := Step(t4, StopOp(1, startAt + 3600));
    assert t3.chargers.rows == map[1 := ChargerUnit(1, connectorType, 7000, true)];
    assert t4.sessions.rows == map[1 := NewChargingSession(1, 1, startAt)];
    TotalWhExact(7000, 3600, 7000);
    assert t5.sessions.rows[1].totalWh == Some(7000);
    var ops := [CreateUserOp(u), CreateStationOp(st), CreateChargerOp(1, connectorType, 7000),
                StartOp(1, 1, startAt), StopOp(1, startAt + 3600)];
    assert Run(t0, ops) == Run(t1, ops[1..]);
    assert Run(t1, ops[1..]) == Run(t2, ops[2..]) by { assert ops[1..][1..] == ops[2..]; }
    assert Run(t2, ops[2..]) == Run(t3, ops[3..]) by { assert ops[2..][1..] == ops[3..]; }
    assert Run(t3, ops[3..]) == Run(t4, ops[4..]) by { assert ops[3..][1..] == ops[4..]; }
    assert Run(t4, ops[4..]) == t5 by { assert ops[4..][1..] == []; }
  }
}
