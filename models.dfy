/** Record shapes of the charging network and the defaults a new record gets
    (app/models.py). Ids are not fields here: a stored record's id is its key in
    its table (see module Repository). */
module Models {

  datatype Option<+T> = None | Some(value: T)

  /** A point in time, in whole seconds (the source's `datetime.utcnow()`). */
  type Timestamp = int

  datatype User = User(name: string, email: string, phone: Option<string>)

  datatype ChargingStation = ChargingStation(name: string, location: string)

  /** One physical charger of a station. Its rated power is kept in whole watts
      (the source's `max_power_kw` times 1000). */
  datatype ChargerUnit = ChargerUnit(
    stationId: int,
    connectorType: string,
    maxPowerW: int,
    isAvailable: bool)

  /** A charger as the source builds it from a create request: every field but
      `is_available` is given, and `is_available` defaults to true. */
  function NewChargerUnit(stationId: int, connectorType: string, maxPowerW: int): (c: ChargerUnit)
    ensures c.isAvailable
    ensures c.stationId == stationId && c.connectorType == connectorType && c.maxPowerW == maxPowerW
  {
    ChargerUnit(stationId, connectorType, maxPowerW, true)
  }

  /** The status values a payment is meant to take. */
  datatype PaymentStatus = Pending | Paid | Failed

  /** A payment for a charging session. `amount` is in the tariff's currency
      unit; `chargingSessionId` is optional, as in the source. */
  datatype PaymentTransaction = PaymentTransaction(
    chargingSessionId: Option<int>,
    amount: int,
    paymentMethod: string,
    status: PaymentStatus,
    createdAt: Timestamp)

  /** The status values a session is meant to take. */
  datatype SessionStatus = Running | Stopped | Cancelled

  /** One charge from start to stop, on one charger, for one user. Energy is
      kept in whole watt-hours (kWh rounded to three decimals, times 1000). */
  datatype ChargingSession = ChargingSession(
    userId: int,
    chargerUnitId: int,
    startedAt: Timestamp,
    stoppedAt: Option<Timestamp>,
    totalWh: Option<int>,
    status: SessionStatus)

  /** A session as the source builds it: user, charger and start time given, and
      the remaining fields at their defaults. */
  function NewChargingSession(userId: int, chargerUnitId: int, startedAt: Timestamp): (s: ChargingSession)
    ensures s.status == Running && s.stoppedAt == None && s.totalWh == None
    ensures s.userId == userId && s.chargerUnitId == chargerUnitId && s.startedAt == startedAt
  {
    ChargingSession(userId, chargerUnitId, startedAt, None, None, Running)
  }
}
