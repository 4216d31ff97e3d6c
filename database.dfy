/** The database handle as the query layer sees it: the values a row holds,
    rows and cursors, the `param` argument of an execute call, the three call
    forms, and an oracle standing for the database engine, which answers each
    attempt of a call either with a cursor or with an exception. */
module Database {

  datatype Option<T> = None | Some(value: T)

  /** A column value as the SQLite driver returns it, SQL NULL included. */
  datatype Value = Null | Int(i: int) | Real(r: real) | Text(s: string)

  /** One column of a result row: its name and its value. */
  datatype Column = Column(name: string, value: Value)

  /** A result row: its columns, in the order of the SELECT list. */
  datatype Row = Row(columns: seq<Column>)

  /** A cursor over the rows an executed statement produced, still to be fetched. */
  datatype Cursor = Cursor(pending: seq<Row>)

  /** The untyped `param` argument: None, one tuple of bind values, or (for a
      batch call) a list of such tuples. */
  datatype Param = NoParam | Tuple(values: seq<Value>) | TupleList(tuples: seq<seq<Value>>)

  /** Python truthiness of `param`: None and the empty tuple or list are false. */
  predicate Truthy(p: Param)
  {
    match p
    case NoParam => false
    case Tuple(vs) => vs != []
    case TupleList(ts) => ts != []
  }

  /** The three ways the handle can be called: `executemany(sql, param)`,
      `execute(sql, param)` and `execute(sql)`. */
  datatype Call =
    | ExecuteMany(sql: string, param: Param)
    | ExecuteWith(sql: string, param: Param)
    | ExecutePlain(sql: string)

  /** What one attempt of a call does: raise an exception, or hand back a cursor. */
  datatype Attempt = Failed(reason: string) | Succeeded(cursor: Cursor)

  /** The database engine: the outcome of the n-th attempt (counting from 0)
      of a given call. Transient failures are failed attempts followed by
      successful ones; a broken database fails every attempt. */
  type Oracle = (Call, nat) -> Attempt

  /** `cursor.fetchone()`: the next pending row, or None when there is none. */
  function FirstRow(c: Cursor): (r: Option<Row>)
    ensures r.None? <==> c.pending == []
    ensures r.Some? ==> r.value == c.pending[0]
  {
    if c.pending == [] then None else Some(c.pending[0])
  }
}
