/**
  The database handle a model talks to, reduced to what the model can see:
  the statements it is sent, in order, and the answers it gives. A plain
  statement is what `query($sql)` runs; a prepared one is what `prepare`,
  `bind_param` and `execute` run together.
 */
module Database {
  import opened Wrappers
  import opened Scalars
  import opened Rows

  datatype Statement =
    | Query(sql: string)
    | Prepared(sql: string, types: string, params: seq<Scalar>)

  /**
    What running a statement gives back: `false` (Failed), `true` with the
    generated id of an insert (Done), or a result set and its rows.
   */
  datatype Answer =
    | Failed
    | Done(insertId: PhpInt)
    | ResultSet(rows: seq<Row>)

  /** `if ($db->query($sql))`: every answer but `false` is truthy. */
  predicate Succeeded(a: Answer) {
    !a.Failed?
  }

  /** `isset($r->num_rows) && $r->num_rows > 0`, then `fetch_object()`: the first row, if any. */
  function FirstRow(a: Answer): (r: Option<Row>)
    ensures r.Some? <==> a.ResultSet? && a.rows != []
    ensures r.Some? ==> r.value == a.rows[0]
  {
    if a.ResultSet? && a.rows != [] then Some(a.rows[0]) else None
  }

  /** Every row of a result set, none for any other answer. */
  function AllRows(a: Answer): seq<Row> {
    if a.ResultSet? then a.rows else []
  }

  /**
    `$stmt->insert_id` after `execute()`: the generated id, or 0 when the
    statement generated none.
   */
  function InsertId(a: Answer): PhpInt {
    if a.Done? then a.insertId else 0
  }

  /**
    A connection. What the server answers (given every statement it was
    sent before, so the same statement may be answered differently the
    second time), whether it accepts a statement for preparation and how
    `real_escape_string` escapes are fixed per connection and otherwise
    left open.
   */
  class Connection {
    var log: seq<Statement>
    const answer: (seq<Statement>, Statement) -> Answer
    const prepares: string -> bool
    const escape: string -> string

    constructor (answer: (seq<Statement>, Statement) -> Answer, prepares: string -> bool, escape: string -> string)
      ensures log == []
      ensures this.answer == answer && this.prepares == prepares && this.escape == escape
    {
      log := [];
      this.answer := answer;
      this.prepares := prepares;
      this.escape := escape;
    }

    /** Sends one statement. */
    method Run(st: Statement) returns (a: Answer)
      modifies this
      ensures log == old(log) + [st]
      ensures a == answer(old(log), st)
    {
      a := answer(log, st);
      log := log + [st];
    }
  }
}
