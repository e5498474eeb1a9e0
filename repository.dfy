/** The store the service reads and writes (app/repository.py over SQLite):
    one table per record kind, each a map from id to record. `get` yields None
    for a missing id, `create` stores a record under a fresh id, `update`
    overwrites the record stored under an id. */
module Repository {
  import opened Models

  /** One table: its rows and the id the next insert receives. Ids start at 1
      and grow by one per insert, as SQLite row ids do when nothing is deleted. */
  datatype Table<V> = Table(rows: map<int, V>, nextId: int) {

    /** Every stored id was handed out by an earlier insert. */
    ghost predicate Valid() {
      1 <= nextId && forall id :: id in rows ==> 1 <= id < nextId
    }

    function Get(id: int): (r: Option<V>)
      ensures r.Some? <==> id in rows
      ensures r.Some? ==> r.value == rows[id]
    {
      if id in rows then Some(rows[id]) else None
    }

    /** Stores `v` under a fresh id and yields the new table and that id. */
    function Insert(v: V): (r: (Table<V>, int))
      ensures Valid() ==> r.0.Valid() && r.1 !in rows && r.1 >= 1
      ensures r.0.rows == rows[r.1 := v]
    {
      (Table(rows[nextId := v], nextId + 1), nextId)
    }

    /** Overwrites the row `id` with `v`; ids already handed out stay valid. */
    function Update(id: int, v: V): (r: Table<V>)
      ensures Valid() && id in rows ==> r.Valid()
      ensures r.rows.Keys == rows.Keys + {id}
      ensures r.rows[id] == v
      ensures forall k :: k in rows && k != id ==> r.rows[k] == rows[k]
    {
      Table(rows[id := v], nextId)
    }
  }

  function EmptyTable<V>(): (t: Table<V>)
    ensures t.Valid() && t.rows == map[]
  {
    Table(map[], 1)
  }

  /** The whole store at one moment. */
  datatype Tables = Tables(
    users: Table<User>,
    stations: Table<ChargingStation>,
    chargers: Table<ChargerUnit>,
    sessions: Table<ChargingSession>,
    payments: Table<PaymentTransaction>)
  {
    ghost predicate Valid() {
      users.Valid() && stations.Valid() && chargers.Valid() && sessions.Valid() && payments.Valid()
    }
  }

  function EmptyTables(): (t: Tables)
    ensures t.Valid()
    ensures t.users.rows == map[] && t.stations.rows == map[] && t.chargers.rows == map[]
    ensures t.sessions.rows == map[] && t.payments.rows == map[]
  {
    Tables(EmptyTable(), EmptyTable(), EmptyTable(), EmptyTable(), EmptyTable())
  }

  /** The store as the service sees it: tables that its operations read and
      overwrite in place. */
  class Repository {
    var users: Table<User>
    var stations: Table<ChargingStation>
    var chargers: Table<ChargerUnit>
    var sessions: Table<ChargingSession>
    var payments: Table<PaymentTransaction>

    function Snapshot(): Tables
      reads this
    {
      Tables(users, stations, chargers, sessions, payments)
    }

    ghost predicate Valid()
      reads this
    {
      Snapshot().Valid()
    }

    /** A fresh, empty store. */
    constructor ()
      ensures Valid() && Snapshot() == EmptyTables()
    {
      users, stations, chargers := EmptyTable(), EmptyTable(), EmptyTable();
      sessions, payments := EmptyTable(), EmptyTable();
    }

    method CreateUser(u: User) returns (id: int)
      requires Valid()
      modifies this
      ensures Valid()
      ensures (users, id) == old(users).Insert(u)
      ensures Snapshot() == old(Snapshot()).(users := users)
    {
      users, id := users.Insert(u).0, users.Insert(u).1;
    }

    method GetUser(id: int) returns (u: Option<User>)
      ensures u.Some? <==> id in users.rows
      ensures u.Some? ==> u.value == users.rows[id]
    {
      u := users.Get(id);
    }

    method CreateStation(st: ChargingStation) returns (id: int)
      requires Valid()
      modifies this
      ensures Valid()
      ensures (stations, id) == old(stations).Insert(st)
      ensures Snapshot() == old(Snapshot()).(stations := stations)
    {
      stations, id := stations.Insert(st).0, stations.Insert(st).1;
    }

    method CreateCharger(c: ChargerUnit) returns (id: int)
      requires Valid()
      modifies this
      ensures Valid()
      ensures (chargers, id) == old(chargers).Insert(c)
      ensures Snapshot() == old(Snapshot()).(chargers := chargers)
    {
      chargers, id := chargers.Insert(c).0, chargers.Insert(c).1;
    }

    method GetCharger(id: int) returns (c: Option<ChargerUnit>)
      ensures c.Some? <==> id in chargers.rows
      ensures c.Some? ==> c.value == chargers.rows[id]
    {
      c := chargers.Get(id);
    }

    method UpdateCharger(id: int, c: ChargerUnit)
      requires Valid() && id in chargers.rows
      modifies this
      ensures Valid()
      ensures Snapshot() == old(Snapshot()).(chargers := old(chargers).Update(id, c))
    {
      chargers := chargers.Update(id, c);
    }

    method CreateSession(s: ChargingSession) returns (id: int)
      requires Valid()
      modifies this
      ensures Valid()
      ensures (sessions, id) == old(sessions).Insert(s)
      ensures Snapshot() == old(Snapshot()).(sessions := sessions)
    {
      sessions, id := sessions.Insert(s).0, sessions.Insert(s).1;
    }

    method GetSession(id: int) returns (s: Option<ChargingSession>)
      ensures s.Some? <==> id in sessions.rows
      ensures s.Some? ==> s.value == sessions.rows[id]
    {
      s := sessions.Get(id);
    }

    method UpdateSession(id: int, s: ChargingSession)
      requires Valid() && id in sessions.rows
      modifies this
      ensures Valid()
      ensures Snapshot() == old(Snapshot()).(sessions := old(sessions).Update(id, s))
    {
      sessions := sessions.Update(id, s);
    }

    /** Inserts a payment row (the service does this through its own database
        session rather than through a repository function). */
    method AddPayment(p: PaymentTransaction) returns (id: int)
      requires Valid()
      modifies this
      ensures Valid()
      ensures (payments, id) == old(payments).Insert(p)
      ensures Snapshot() == old(Snapshot()).(payments := payments)
    {
      payments, id := payments.Insert(p).0, payments.Insert(p).1;
    }
  }
}
