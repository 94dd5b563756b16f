/** The three tables the routes read and write, held in memory, and the
    shape of every response a handler sends. */
module Store {
  import opened Json
  import opened Joi

  /** A loan row. The id is the table key. `studentId` is written only at
      creation, from a validated integer; the other five columns hold
      whatever value was bound into the statement that last wrote them. */
  datatype Register = Register(
    studentId: int,
    equipmentId: Value,
    date: Value,
    entryTime: Value,
    departureTime: Value,
    comment: Value)

  /** A student row; the update route binds unvalidated values into it. */
  datatype Student = Student(name: Value, idNumber: Value, email: Value)

  /** An equipment row; no route of this model writes to it. */
  datatype Equipment = Equipment(equipmentName: string, state: string)

  /** The database. `nextRegisterId` and `nextStudentId` are the tables'
      auto-increment counters: the id the next insert receives. */
  datatype Db = Db(
    registers: map<int, Register>,
    students: map<int, Student>,
    equipment: map<int, Equipment>,
    nextRegisterId: int,
    nextStudentId: int)

  /** Auto-increment ids start at 1 and every id in use lies below the
      counter, so the counter's value is never in use. */
  predicate Valid(db: Db) {
    && 1 <= db.nextRegisterId
    && 1 <= db.nextStudentId
    && (forall k :: k in db.registers ==> 1 <= k < db.nextRegisterId)
    && (forall k :: k in db.students ==> 1 <= k < db.nextStudentId)
  }

  /** Whether the store throws when a handler's statement runs, and what:
      an `Error` carrying a message, or some other thrown value. The model
      leaves open which statements the store refuses. */
  datatype Fault = Healthy | Throws(message: Option<string>)

  /** The text every catch block sends. */
  function FaultText(f: Fault): string
    requires f.Throws?
  {
    match f.message
    case Some(m) => m
    case None => "Unknown error occurred"
  }

  /** One row of the register ⋈ student ⋈ equipment projection. */
  datatype JoinedRow = JoinedRow(
    registerId: int,
    studentId: int,
    name: Value,
    idNumber: Value,
    email: Value,
    equipmentId: int,
    equipmentName: string,
    state: string,
    date: Value,
    entryTime: Value,
    departureTime: Value,
    comment: Value)

  /** A student row as `SELECT *` returns it. */
  datatype StudentRow = StudentRow(id: int, name: Value, idNumber: Value, email: Value)

  /** A response body: `{id}`, `{message}`, `{error}`, or the selected rows. */
  datatype Payload =
    | Created(id: int)
    | Message(text: string)
    | Error(text: string)
    | SchemaFailure(cause: SchemaError)
    | RegisterRows(rows: seq<JoinedRow>)
    | StudentRows(students: seq<StudentRow>)
    | OneStudent(student: StudentRow)

  datatype Response = Response(status: int, payload: Payload)

  /** What a handler yields: the response and the database after it. */
  datatype Step = Step(response: Response, db: Db)

  /** The 500 response of a catch block. */
  function StoreError(f: Fault): (r: Response)
    requires f.Throws?
    ensures r.status == 500 && r.payload.Error?
  {
    Response(500, Error(FaultText(f)))
  }

  /** The order a full-table scan yields a table's ids in is the store's
      choice: any order, each id exactly once. */
  method ScanIds<V>(table: map<int, V>) returns (ids: seq<int>)
    ensures forall k :: k in table <==> k in ids
    ensures forall i, j :: 0 <= i < j < |ids| ==> ids[i] != ids[j]
  {
    ids := [];
    var rest := table.Keys;
    while exists k :: k in rest
      invariant rest <= table.Keys
      invariant forall k :: k in ids ==> k in table && k !in rest
      invariant forall k :: k in table && k !in rest ==> k in ids
      invariant forall i, j :: 0 <= i < j < |ids| ==> ids[i] != ids[j]
      decreases rest
    {
      var k :| k in rest;
      ids := ids + [k];
      rest := rest - {k};
    }
  }

  /** A sequence without repeats listing exactly the members of a set is as
      long as the set is large. */
  lemma {:induction false} DistinctCount(ids: seq<int>, keys: set<int>)
    requires forall k :: k in keys <==> k in ids
    requires forall i, j :: 0 <= i < j < |ids| ==> ids[i] != ids[j]
    ensures |ids| == |keys|
  {
    if ids != [] {
      var last := ids[|ids| - 1];
      var init := ids[..|ids| - 1];
      forall k
        ensures k in keys - {last} <==> k in init
      {
        if k in init {
          var i :| 0 <= i < |init| && init[i] == k;
          assert ids[i] == k;
        }
        if k in ids && k != last {
          var i :| 0 <= i < |ids| && ids[i] == k;
          assert i < |ids| - 1;
          assert init[i] == k;
        }
      }
      DistinctCount(init, keys - {last});
    } else {
      assert keys == {} by {
        forall k ensures k !in keys {
          assert k !in ids;
        }
      }
    }
  }
}
