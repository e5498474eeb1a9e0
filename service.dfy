/** The charging-session lifecycle (app/service.py): starting a session on an
    available charger and stopping a running one, which prices the simulated
    energy and records a pending on-site payment.

    `Start` and `Stop` state each operation on a snapshot of the store;
    `StartChargingSession` and `StopChargingSession` perform it on the
    repository, read by read and write by write in the source's order, and are
    proved to end in the state the functions give. The clock is the parameter
    `now`. */
module Service {
  import opened Models
  import opened Energy
  import opened Repository

  /** Why an operation was refused. The source raises each as a ValueError
      with its own message; the HTTP layer answers all of them with status 400. */
  datatype ServiceError =
    | UserNotFound
    | ChargerNotFound
    | ChargerUnavailable
    | SessionNotFound
    | SessionNotRunning

  datatype Result<+T> = Ok(value: T) | Err(error: ServiceError)

  /** The payment method recorded for every stopped session. */
  const OnSite: string := "on_site"

  /** The effect of a successful start: charger `cid` is now unavailable,
      session `sid` is the only new row, created with its defaults, and nothing
      else in the store differs. */
  ghost predicate Started(t: Tables, t': Tables, sid: int, userId: int, cid: int, now: Timestamp) {
    && cid in t.chargers.rows
    && t'.chargers.rows == t.chargers.rows[cid := t.chargers.rows[cid].(isAvailable := false)]
    && t'.chargers.nextId == t.chargers.nextId
    && t'.sessions.rows == t.sessions.rows[sid := NewChargingSession(userId, cid, now)]
    && (t.Valid() ==> sid !in t.sessions.rows)
    && t'.users == t.users && t'.stations == t.stations && t'.payments == t.payments
  }

  /** start_charging_session: the user must exist, then the charger must exist,
      then it must be available; only then is the charger taken and the
      session created. The result is the new session's id. */
  function Start(t: Tables, userId: int, chargerUnitId: int, now: Timestamp): (out: (Tables, Result<int>))
    ensures userId !in t.users.rows ==> out == (t, Err(UserNotFound))
    ensures userId in t.users.rows && chargerUnitId !in t.chargers.rows ==> out == (t, Err(ChargerNotFound))
    ensures userId in t.users.rows && chargerUnitId in t.chargers.rows && !t.chargers.rows[chargerUnitId].isAvailable
            ==> out == (t, Err(ChargerUnavailable))
    ensures out.1.Ok? <==>
              userId in t.users.rows && chargerUnitId in t.chargers.rows && t.chargers.rows[chargerUnitId].isAvailable
    ensures out.1.Ok? ==> Started(t, out.0, out.1.value, userId, chargerUnitId, now)
    ensures t.Valid() ==> out.0.Valid()
  {
    match t.users.Get(userId)
    case None => (t, Err(UserNotFound))
    case Some(_) =>
      match t.chargers.Get(chargerUnitId)
      case None => (t, Err(ChargerNotFound))
      case Some(charger) =>
        if !charger.isAvailable then (t, Err(ChargerUnavailable))
        else
          var taken := t.(chargers := t.chargers.Update(chargerUnitId, charger.(isAvailable := false)));
          var created := taken.sessions.Insert(NewChargingSession(userId, chargerUnitId, now));
          (taken.(sessions := created.0), Ok(created.1))
  }

  /** The rated power used to simulate the energy of a session on charger
      `cid`: the charger's own, or the 7 kW fallback when it is missing. */
  function PowerOf(t: Tables, cid: int): int {
    if cid in t.chargers.rows then t.chargers.rows[cid].maxPowerW else FallbackPowerW
  }

  /** The energy, in Wh, that stopping running session `sid` at `now` records. */
  ghost function EnergyAtStop(t: Tables, sid: int, now: Timestamp): int
    requires sid in t.sessions.rows
  {
    var s := t.sessions.rows[sid];
    TotalWh(PowerOf(t, s.chargerUnitId), now - s.startedAt)
  }

  /** The effect of a successful stop: session `sid` becomes `stopped` (its
      user, charger and start kept, its stop time and energy recorded), its
      charger, when it exists, becomes available, exactly one pending on-site
      payment for the session's price is added, and nothing else differs. */
  ghost predicate StoppedIn(t: Tables, t': Tables, sid: int, now: Timestamp, stopped: ChargingSession) {
    && sid in t.sessions.rows
    && var s := t.sessions.rows[sid];
    && var cid := s.chargerUnitId;
    && var wh := EnergyAtStop(t, sid, now);
    && stopped.userId == s.userId && stopped.chargerUnitId == cid && stopped.startedAt == s.startedAt
    && stopped.stoppedAt == Some(now) && stopped.totalWh == Some(wh) && stopped.status == Stopped
    && t'.sessions.rows == t.sessions.rows[sid := stopped]
    && t'.sessions.nextId == t.sessions.nextId
    && (cid in t.chargers.rows ==>
          t'.chargers.rows == t.chargers.rows[cid := t.chargers.rows[cid].(isAvailable := true)])
    && (cid !in t.chargers.rows ==> t'.chargers.rows == t.chargers.rows)
    && t'.chargers.nextId == t.chargers.nextId
    && t'.payments.rows ==
         t.payments.rows[t.payments.nextId := PaymentTransaction(Some(sid), Cost(wh), OnSite, Pending, now)]
    && t'.payments.nextId == t.payments.nextId + 1
    && (t.Valid() ==> |t'.payments.rows| == |t.payments.rows| + 1)
    && t'.users == t.users && t'.stations == t.stations
  }

  /** stop_charging_session: the session must exist and be running; the energy
      is simulated from the charger's rated power and the elapsed time. The
      result is the updated session. */
  function Stop(t: Tables, sessionId: int, now: Timestamp): (out: (Tables, Result<ChargingSession>))
    ensures sessionId !in t.sessions.rows ==> out == (t, Err(SessionNotFound))
    ensures sessionId in t.sessions.rows && t.sessions.rows[sessionId].status != Running
            ==> out == (t, Err(SessionNotRunning))
    ensures out.1.Ok? <==> sessionId in t.sessions.rows && t.sessions.rows[sessionId].status == Running
    ensures out.1.Ok? ==> StoppedIn(t, out.0, sessionId, now, out.1.value)
    ensures t.Valid() ==> out.0.Valid()
  {
    match t.sessions.Get(sessionId)
    case None => (t, Err(SessionNotFound))
    case Some(session) =>
      if session.status != Running then (t, Err(SessionNotRunning))
      else
        var charger := t.chargers.Get(session.chargerUnitId);
        var maxPowerW := if charger.Some? then charger.value.maxPowerW else FallbackPowerW;
        var totalWh := TotalWh(maxPowerW, now - session.startedAt);
        var cost := Cost(totalWh);
        var stopped := session.(stoppedAt := Some(now), totalWh := Some(totalWh), status := Stopped);
        var t1 := t.(sessions := t.sessions.Update(sessionId, stopped));
        var t2 :=
          if charger.Some? then t1.(chargers := t1.chargers.Update(session.chargerUnitId, charger.value.(isAvailable := true)))
          else t1;
        var paid := t2.payments.Insert(PaymentTransaction(Some(sessionId), cost, OnSite, Pending, now));
        (t2.(payments := paid.0), Ok(stopped))
  }

  method StartChargingSession(repo: Repository, userId: int, chargerUnitId: int, now: Timestamp)
    returns (r: Result<int>)
    requires repo.Valid()
    modifies repo
    ensures repo.Valid()
    ensures (repo.Snapshot(), r) == Start(old(repo.Snapshot()), userId, chargerUnitId, now)
  {
    var user := repo.GetUser(userId);
    if user.None? {
      return Err(UserNotFound);
    }
    var charger := repo.GetCharger(chargerUnitId);
    if charger.None? {
      return Err(ChargerNotFound);
    }
    if !charger.value.isAvailable {
      return Err(ChargerUnavailable);
    }
    repo.UpdateCharger(chargerUnitId, charger.value.(isAvailable := false));
    var id := repo.CreateSession(NewChargingSession(userId, chargerUnitId, now));
    r := Ok(id);
  }

  method StopChargingSession(repo: Repository, sessionId: int, now: Timestamp)
    returns (r: Result<ChargingSession>)
    requires repo.Valid()
    modifies repo
    ensures repo.Valid()
    ensures (repo.Snapshot(), r) == Stop(old(repo.Snapshot()), sessionId, now)
  {
    var session := repo.GetSession(sessionId);
    if session.None? {
      return Err(SessionNotFound);
    }
    if session.value.status != Running {
      return Err(SessionNotRunning);
    }
    var charger := repo.GetCharger(session.value.chargerUnitId);
    var maxPowerW := if charger.Some? then charger.value.maxPowerW else FallbackPowerW;
    var totalWh := TotalWh(maxPowerW, now - session.value.startedAt);
    var cost := Cost(totalWh);

    var stopped := session.value.(stoppedAt := Some(now), totalWh := Some(totalWh), status := Stopped);
    repo.UpdateSession(sessionId, stopped);

    if charger.Some? {
      repo.UpdateCharger(session.value.chargerUnitId, charger.value.(isAvailable := true));
    }

    var paymentId := repo.AddPayment(PaymentTransaction(Some(sessionId), cost, OnSite, Pending, now));
    r := Ok(stopped);
  }
}
