/** The result envelope every repository call returns (src/classes/Status.ts).
    `status` is 0 on success and 1 on failure; `message` is shown to clients;
    `rows` is what the driver handed back, or one of the two failure markers. */
module DbStatus {

  /** The `rows` field. A SELECT yields its records; an INSERT, UPDATE or
      DELETE yields the driver's write summary (how many rows the WHERE clause
      matched, and the store-assigned id of an inserted row, 0 otherwise);
      failure paths put `null` or `false` here. */
  datatype Rows<R> =
    | Selected(records: seq<R>)
    | Written(affectedRows: nat, insertId: int)
    | Null
    | False

  datatype Status<R> = Status(status: int, message: string, rows: Rows<R>) {

    /** Route handlers treat status 0, and only status 0, as success. */
    predicate Ok() {
      status == 0
    }

    /** The failure envelope: non-zero status, and a `rows` field that holds
        no usable data. */
    predicate IsFailure() {
      status != 0 && (rows.Null? || rows.False?)
    }
  }
}
