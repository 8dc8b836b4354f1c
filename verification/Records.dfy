/** The completed parking session that crosses the shared-memory ring. */
module Records {

  const SHM_MAX_RECORDS: nat := 256

  /** `complete` is the flag the database checks before it persists a slot. */
  datatype Record = Record(
    customerId: string, startLat: real, startLon: real, endLat: real, endLon: real,
    startTime: int, endTime: int, totalFee: real, city: string, complete: bool)
}
