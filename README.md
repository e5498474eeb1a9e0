# EV charging sessions: a verified model of the session lifecycle

This project models the core of an electric-vehicle charging API. Users start a charging
session on a charger unit of a station. The charger is then unavailable to anyone else.
Stopping the session simulates the energy delivered from the charger's rated power and
the elapsed time, and prices it at a flat tariff per kWh. The stop records a pending
on-site payment and releases the charger.

The model has five modules:

- `Models` (models.dfy): the records (user, station, charger unit, payment, session) and the
  defaults a new charger and a new session get.
- `Energy` (energy.dfy): the tariff (3000 per kWh) and the 7 kW fallback power. It also holds
  half-even rounding to 0.001 kWh and the price of an energy amount.
- `Repository` (repository.dfy): the store. It has one table per record kind, where a table
  is a map from id to record plus the next id. `Tables` is a snapshot of the whole store.
  The class `Repository` holds the tables as fields and has the get/create/update methods
  the service calls.
- `Service` (service.dfy): `Start` and `Stop` state the two service operations on a
  snapshot. The methods `StartChargingSession` and `StopChargingSession` perform them on a
  `Repository`, one read or write at a time in the source's order. Each method is proved
  to end in the state the matching function gives.
- `Lifecycle` (lifecycle.dfy): any history of creates, starts and stops. Starting from an
  empty store, the occupancy rule always holds: a charger is unavailable exactly when a
  running session is on it, and it never has two. Every session names a stored user and
  charger, and no session is ever cancelled. A stopped session never changes again, so a
  second stop always fails.

Units: time is in whole seconds, with the clock passed in as `now`. Power is in whole watts
(`max_power_kw` × 1000). Energy is in whole Wh, so rounding kWh to three decimals becomes
rounding to a whole Wh. A payment amount is `total_kwh × 3000`, computed as `Wh × 3000 / 1000`.
`Energy.Cost` proves that this division is exact.

Where the system's design documentation and the code disagree, the model follows the code:

- start does not check whether the user already has a running session;
- stop does not fail when the session's charger is missing but uses 7 kW;
- there is no per-minute price, admin fee or invoice record, only a payment row with
  method `on_site` and status `pending`;
- both "session not found" and "session not running" are ordinary errors, and every error
  reaches the HTTP caller as status 400.

## Model

| member | source | states |
|---|---|---|
| Models.NewChargerUnit | app/models.py:22-27 | a charger created from station, connector and power is available, with those fields as given |
| Models.NewChargingSession | app/models.py:41-48 | a new session is running, has no stop time and no energy, and keeps the given user, charger and start time |
| Energy.RoundHalfEven | app/service.py:45 | the result is within half of n / d, and a tie goes to an even result (Python's `round`) |
| Energy.RoundHalfEvenUnique | app/service.py:45 | any integer with those two properties is the rounding: the contract defines the rounding completely |
| Energy.RoundHalfEvenMonotone | app/service.py:45 | rounding preserves the order of the quotients |
| Energy.TotalWh | app/service.py:37-45 | the recorded energy is within 0.5 Wh (0.0005 kWh) of power × elapsed seconds / 3600 |
| Energy.TotalWhMonotone | app/service.py:39-45 | with non-negative power, a longer session never records less energy |
| Energy.TotalWhExact | app/service.py:45 | when the exact energy is a whole number of Wh, that number is recorded unchanged |
| Energy.Cost | app/service.py:46 | amount × 1000 equals Wh × 3000, so the amount is exactly total_kwh × TARIFF_PER_KWH (line 5) |
| Repository.Table.Get | app/repository.py:42-44 | None exactly when the id is not stored, otherwise the stored record |
| Repository.Table.Insert | app/repository.py:53-58 | the record is stored under an id that was not in use (and is at least 1), and the table stays valid |
| Repository.Table.Update | app/repository.py:46-51 | the row under the id is overwritten, every other row is kept, and the same ids are in use |
| Repository.EmptyTable | app/db.py:37-38 | a new table is empty and valid |
| Repository.EmptyTables | app/db.py:37-38 | a new store has five empty, valid tables |
| Repository.Repository.constructor | app/db.py:37-38 | a new repository holds the empty store |
| Repository.Repository.CreateUser | app/repository.py:6-11 | inserts the user under a fresh id and changes no other table |
| Repository.Repository.GetUser | app/repository.py:13-15 | the stored user, or None when the id is not stored |
| Repository.Repository.CreateStation | app/repository.py:23-28 | inserts the station under a fresh id and changes no other table |
| Repository.Repository.CreateCharger | app/repository.py:35-40 | inserts the charger under a fresh id and changes no other table |
| Repository.Repository.GetCharger | app/repository.py:42-44 | the stored charger, or None when the id is not stored |
| Repository.Repository.UpdateCharger | app/repository.py:46-51 | overwrites the stored charger and changes nothing else |
| Repository.Repository.CreateSession | app/repository.py:53-58 | inserts the session under a fresh id and changes no other table |
| Repository.Repository.GetSession | app/repository.py:60-62 | the stored session, or None when the id is not stored |
| Repository.Repository.UpdateSession | app/repository.py:64-69 | overwrites the stored session and changes nothing else |
| Repository.Repository.AddPayment | app/service.py:57-66 | inserts the payment under a fresh id and changes no other table |
| Service.Start | app/service.py:7-28 | a missing user fails with UserNotFound and leaves the store as it was, before any charger check. A missing or unavailable charger then fails likewise. Start succeeds exactly when all three checks pass. On success only that charger becomes unavailable, and exactly one new session (fresh id, given user and charger, started now, running) is added. Users, stations and payments are untouched |
| Service.Stop | app/service.py:30-68 | a missing session fails with SessionNotFound and a session not running fails with SessionNotRunning; neither changes the store. Stop succeeds exactly for a running session. On success that session becomes stopped at now, with energy = round(power × hours, 3) kWh, where power is the charger's or 7 kW if the charger is missing. Its user, charger and start are kept. That charger alone becomes available when it exists. Exactly one new payment is added: the session id, amount = energy × 3000, `on_site`, pending. Users and stations are untouched |
| Service.StartChargingSession | app/service.py:7-28 | performing the reads and writes in the source's order ends in exactly the store and result `Start` gives, and keeps the store's ids valid |
| Service.StopChargingSession | app/service.py:30-68 | performing the reads and writes in the source's order ends in exactly the store and result `Stop` gives, and keeps the store's ids valid |
| Lifecycle.StartPreservesConsistency | app/service.py:12-28 | a start keeps the occupancy rule: it only takes a charger no running session is on, and it puts exactly one running session on it |
| Lifecycle.StopPreservesConsistency | app/service.py:31-55 | a stop keeps the occupancy rule: the released charger had only the stopped session on it |
| Lifecycle.StepPreservesConsistency | app/main.py:11-31 | creating a user, station or charger (which is available, on an id no session names) keeps every invariant, as do start and stop |
| Lifecycle.RunPreservesConsistency | app/service.py:7-68 | every sequence of creates, starts and stops keeps the invariants |
| Lifecycle.ReachableIsConsistent | app/models.py:27 | from an empty store, always: a charger is unavailable if and only if a running session is on it, at most one running session is on any charger, every session names a stored user and charger, and none is cancelled |
| Lifecycle.RunPreservesValid | app/repository.py:6-58 | across any history, every stored id stays below the next id each table hands out, so inserts never overwrite |
| Lifecycle.StoppedStaysStopped | app/service.py:34-35 | once a session is stopped, no later operation changes its row (stopped is terminal) |
| Lifecycle.StopAfterStopFails | app/service.py:31-35 | after a successful stop, stopping the same session again fails with SessionNotRunning, whatever ran in between |
| Lifecycle.OneHourOnSevenKilowatts | app/service.py:37-66 | one hour on a new 7 kW charger records 7 kWh, releases the charger and adds one pending on-site payment of 21000 |

## Left out

- The HTTP layer (app/main.py, app/schemas.py) is not modelled, apart from the creates used in histories. Every service error reaches the caller as status 400.
- Authentication (app/auth.py), the browser scripts (app/static) and the HTTP test script (app/test_api.py) are not part of this model.
- The ORM and database plumbing (app/db.py, SQLModel relationships, the JSON serializer) is replaced by maps. A fresh id is one more than the last id handed out, as SQLite row ids are when nothing is deleted. A record's id is its key, not a field.
- Repository.Repository.UpdateCharger: the model does not cover updating a row that is not stored. The service only updates rows it has just read.
- Repository.Repository.UpdateSession: the same; the service only updates the session it has just read.
- Floating point: `max_power_kw` is whole watts, times are whole seconds, and `round(x, 3)` rounds the exact quotient half-to-even. It does not round the binary float the source computes, so values at a float-representation boundary may differ by one Wh.
- The clock: `datetime.utcnow()` is the parameter `now`. The payment's `created_at` is the same `now` as the session's stop time. The source reads the clock a second time there.
- Concurrency and atomicity: each start and each stop is one step. The check-then-act race in start and the three separate commits in stop are not modelled.
- Status and method fields are strings in the source. The model uses enumerations for the session and payment statuses and keeps the method as a string.
- Start returns the id of the new session; its record is the one stored under that id.
- Nothing in the code enforces a single running session per user, so the model does not have that rule.
- Maintenance logs, a manually entered kWh on stop, invoice payment updates, per-minute pricing and an admin fee appear only in the design documentation, not in the code, so they are not modelled.
