/** Properties that relate several requests: what a read shows after a
    write, and how the student table feeds the register join. */
module Ledger {
  import opened Json
  import opened Joi
  import opened Store
  import Registers
  import Students

  /** The joined row a register created from `body` shows. */
  function ExpectedRow(db: Db, id: int, body: Body): JoinedRow
    requires "student_id" in body && body["student_id"].Int? && body["student_id"].i in db.students
    requires "equipment_id" in body && body["equipment_id"].Int? && body["equipment_id"].i in db.equipment
  {
    var st := db.students[body["student_id"].i];
    var eq := db.equipment[body["equipment_id"].i];
    JoinedRow(id, body["student_id"].i, st.name, st.idNumber, st.email,
              body["equipment_id"].i, eq.equipmentName, eq.state,
              Bound(body, "date"), Bound(body, "entry_time"),
              Bound(body, "departure_time"), Bound(body, "comment"))
  }

  /** Creating a loan for an existing student and equipment, then reading it
      back by (student id, new id), returns exactly one row: the student's
      and the equipment's columns beside the submitted loan fields. */
  lemma CreateThenGetOne(db: Db, isDate: Value -> bool, body: Body)
    requires Registers.IsCreatePayload(isDate, body)
    requires body["student_id"].i in db.students
    requires body["equipment_id"].i in db.equipment
    ensures var s := Registers.Create(db, Healthy, isDate, body);
      && s.response == Response(201, Created(db.nextRegisterId))
      && Registers.GetOne(s.db, Healthy, body["student_id"].i, db.nextRegisterId)
         == Response(200, RegisterRows([ExpectedRow(db, db.nextRegisterId, body)]))
  {
  }

  /** On a well-formed database a create adds exactly its own row to the
      join and leaves every other joined row as it was. */
  lemma CreateExtendsJoin(db: Db, isDate: Value -> bool, body: Body)
    requires Valid(db)
    requires Registers.IsCreatePayload(isDate, body)
    requires body["student_id"].i in db.students
    requires body["equipment_id"].i in db.equipment
    ensures Registers.JoinRows(Registers.Create(db, Healthy, isDate, body).db)
            == Registers.JoinRows(db) + {ExpectedRow(db, db.nextRegisterId, body)}
  {
    var after := Registers.Create(db, Healthy, isDate, body).db;
    var id := db.nextRegisterId;
    assert Registers.Project(after, id) == ExpectedRow(db, id, body);
    forall k | k in db.registers
      ensures Registers.Joinable(after, k) == Registers.Joinable(db, k)
      ensures Registers.Joinable(db, k) ==> Registers.Project(after, k) == Registers.Project(db, k)
    {
      assert k != id;
    }
    forall row | row in Registers.JoinRows(after)
      ensures row in Registers.JoinRows(db) + {ExpectedRow(db, id, body)}
    {
      var k :| k in after.registers && Registers.Joinable(after, k) && row == Registers.Project(after, k);
      if k != id {
        assert k in db.registers;
      }
    }
    forall row | row in Registers.JoinRows(db)
      ensures row in Registers.JoinRows(after)
    {
      var k :| k in db.registers && Registers.Joinable(db, k) && row == Registers.Project(db, k);
      assert Registers.Project(after, k) == row;
    }
  }

  /** A successful update that leaves the loan joinable shows the new
      departure time on the next read: this is how a loan is closed (or
      reopened, when the body has no departure time). */
  lemma UpdateThenGetOne(db: Db, studentId: int, registerId: int, body: Body)
    requires registerId in db.registers && db.registers[registerId].studentId == studentId
    requires studentId in db.students
    requires "equipment_id" in body && body["equipment_id"].Int? && body["equipment_id"].i in db.equipment
    ensures var s := Registers.Update(db, Healthy, studentId, registerId, body);
      var r := Registers.GetOne(s.db, Healthy, studentId, registerId);
      && s.response.status == 200
      && r.status == 200
      && r.payload.rows[0].departureTime == Bound(body, "departure_time")
      && r.payload.rows[0].entryTime == Bound(body, "entry_time")
  {
  }

  /** The update's outcome depends on the body only through the five bound
      columns, so whether the update schema accepts the body changes
      nothing. */
  lemma UpdateIgnoresSchema(db: Db, fault: Fault, studentId: int, registerId: int, b1: Body, b2: Body)
    requires forall k :: k in Registers.UpdateKeys ==> Bound(b1, k) == Bound(b2, k)
    ensures Registers.Update(db, fault, studentId, registerId, b1)
         == Registers.Update(db, fault, studentId, registerId, b2)
  {
  }

  /** An empty body fails the update schema, yet an update with it succeeds
      on a matching row and sets all five columns to NULL. */
  lemma EmptyBodyUpdate(db: Db, isDate: Value -> bool, studentId: int, registerId: int)
    requires registerId in db.registers && db.registers[registerId].studentId == studentId
    ensures Validate(Registers.UpdateSchema(isDate), map[]) == Rejected(Invalid("equipment_id"))
    ensures !Registers.IsUpdatePayload(isDate, map[])
    ensures var s := Registers.Update(db, Healthy, studentId, registerId, map[]);
      && s.response == Response(200, Message("Register updated successfully"))
      && s.db.registers[registerId]
         == Register(studentId, Null, Null, Null, Null, Null)
  {
  }

  /** Deleting a loan makes the next read of it a 404, with the message the
      get-one route uses for every miss. */
  lemma DeleteThenGetOne(db: Db, studentId: int, registerId: int)
    ensures var s := Registers.Delete(db, Healthy, studentId, registerId);
      s.response.status == 200 ==>
        Registers.GetOne(s.db, Healthy, studentId, registerId)
        == Response(404, Error("Student not found"))
  {
  }

  /** A get-one whose student exists and whose register exists and joins,
      but under another student, still answers "Student not found". */
  lemma GetOneWrongStudentSaysStudentNotFound(db: Db, studentId: int, registerId: int)
    requires studentId in db.students
    requires Registers.Joinable(db, registerId)
    requires db.registers[registerId].studentId != studentId
    ensures Registers.GetOne(db, Healthy, studentId, registerId)
            == Response(404, Error("Student not found"))
  {
  }

  /** Delete-all is idempotent: a second one answers the same and changes
      nothing more. */
  lemma DeleteAllIdempotent(db: Db)
    ensures var once := Registers.DeleteAll(db, Healthy);
      Registers.DeleteAll(once.db, Healthy) == once
      && Registers.JoinRows(once.db) == {}
  {
  }

  /** Delete-all followed by list answers 200 with no rows. */
  method DeleteAllThenList(db: Db) returns (r: Response)
    ensures r == Response(200, RegisterRows([]))
  {
    var cleared := Registers.DeleteAll(db, Healthy);
    DeleteAllIdempotent(db);
    r := Registers.List(cleared.db, Healthy);
  }

  /** A request to one of the routes that write. Reads leave the database
      as it is, so a run of writes is every history the tables can have. */
  datatype Write =
    | CreateLoan(body: Body)
    | UpdateLoan(studentId: int, registerId: int, body: Body)
    | DeleteLoan(studentId: int, registerId: int)
    | DeleteAllLoans
    | CreateStudent(body: Body)
    | UpdateStudent(id: int, body: Body)
    | DeleteStudent(id: int)

  /** A write together with whether the store throws while serving it. */
  datatype Call = Call(write: Write, fault: Fault)

  function Apply(db: Db, isDate: Value -> bool, isEmail: string -> bool, c: Call): Step {
    match c.write
    case CreateLoan(body) => Registers.Create(db, c.fault, isDate, body)
    case UpdateLoan(sid, rid, body) => Registers.Update(db, c.fault, sid, rid, body)
    case DeleteLoan(sid, rid) => Registers.Delete(db, c.fault, sid, rid)
    case DeleteAllLoans => Registers.DeleteAll(db, c.fault)
    case CreateStudent(body) => Students.Create(db, c.fault, isEmail, body)
    case UpdateStudent(id, body) => Students.Update(db, c.fault, id, body)
    case DeleteStudent(id) => Students.Delete(db, c.fault, id)
  }

  /** The database after a run of writes, and the ids the successful loan
      creates of the run returned, in order. */
  datatype Trace = Trace(db: Db, loanIds: seq<int>)

  function Run(db: Db, isDate: Value -> bool, isEmail: string -> bool, calls: seq<Call>): Trace
    decreases |calls|
  {
    if |calls| == 0 then Trace(db, [])
    else
      var s := Apply(db, isDate, isEmail, calls[0]);
      var rest := Run(s.db, isDate, isEmail, calls[1..]);
      var mine := if calls[0].write.CreateLoan? && s.response.status == 201
                  then [s.response.payload.id] else [];
      Trace(rest.db, mine + rest.loanIds)
  }

  /** No write lowers the register counter or breaks the id invariant, and
      a successful loan create returns the counter and advances it by one. */
  lemma ApplyAdvancesCounter(db: Db, isDate: Value -> bool, isEmail: string -> bool, c: Call)
    ensures var s := Apply(db, isDate, isEmail, c);
      && s.db.nextRegisterId >= db.nextRegisterId
      && (Valid(db) ==> Valid(s.db))
      && (c.write.CreateLoan? && s.response.status == 201 ==>
            && s.response.payload == Created(db.nextRegisterId)
            && s.db.nextRegisterId == db.nextRegisterId + 1)
  {
  }

  /** Over any run of writes (deletes and delete-alls included) the loan
      ids creates return strictly increase, and each lies above every id
      the table held when the run began: no id is ever handed out twice. */
  lemma {:induction false} LoanIdsIncrease(db: Db, isDate: Value -> bool, isEmail: string -> bool,
                                           calls: seq<Call>)
    requires Valid(db)
    ensures var t := Run(db, isDate, isEmail, calls);
      && Valid(t.db)
      && t.db.nextRegisterId >= db.nextRegisterId
      && (forall i :: 0 <= i < |t.loanIds| ==> db.nextRegisterId <= t.loanIds[i] < t.db.nextRegisterId)
      && (forall i, k :: 0 <= i < |t.loanIds| && k in db.registers ==> k < t.loanIds[i])
      && (forall i, j :: 0 <= i < j < |t.loanIds| ==> t.loanIds[i] < t.loanIds[j])
    decreases |calls|
  {
    if |calls| > 0 {
      var s := Apply(db, isDate, isEmail, calls[0]);
      ApplyAdvancesCounter(db, isDate, isEmail, calls[0]);
      LoanIdsIncrease(s.db, isDate, isEmail, calls[1..]);
    }
  }

  /** Delete-all leaves the id counter alone, so a create after it never
      hands out an id some earlier register had. */
  lemma IdsNotReusedAfterDeleteAll(db: Db, isDate: Value -> bool, body: Body)
    requires Valid(db)
    requires Registers.IsCreatePayload(isDate, body)
    ensures var s := Registers.Create(Registers.DeleteAll(db, Healthy).db, Healthy, isDate, body);
      s.response.status == 201 && s.response.payload.id !in db.registers
  {
  }

  /** Deleting a student drops that student's loans from the join (the
      register rows stay) and keeps every other joined row. */
  lemma DeleteStudentHidesLoans(db: Db, studentId: int)
    requires studentId in db.students
    ensures var s := Students.Delete(db, Healthy, studentId);
      && s.db.registers == db.registers
      && Registers.JoinRows(s.db) == set row | row in Registers.JoinRows(db) && row.studentId != studentId
  {
  }

  /** A student created then read back by the new id shows the submitted
      name, id number and e-mail. */
  lemma StudentCreateThenGetOne(db: Db, isEmail: string -> bool, body: Body)
    requires Students.IsStudentPayload(isEmail, body)
    ensures var s := Students.Create(db, Healthy, isEmail, body);
      && s.response == Response(201, Created(db.nextStudentId))
      && Students.GetOne(s.db, Healthy, db.nextStudentId)
         == Response(200, OneStudent(StudentRow(db.nextStudentId, body["name"], body["id_number"], body["email"])))
  {
  }

  /** A student update is what the next read of that student shows. */
  lemma StudentUpdateThenGetOne(db: Db, id: int, body: Body)
    requires id in db.students
    ensures Students.GetOne(Students.Update(db, Healthy, id, body).db, Healthy, id)
            == Response(200, OneStudent(StudentRow(id, Bound(body, "name"), Bound(body, "id_number"), Bound(body, "email"))))
  {
  }

  /** After a student is deleted, reading it is a 404. */
  lemma StudentDeleteThenGetOne(db: Db, id: int)
    ensures var s := Students.Delete(db, Healthy, id);
      s.response.status == 200 ==>
        Students.GetOne(s.db, Healthy, id) == Response(404, Error("Alumno not found"))
  {
  }

  /** The join reads student columns live: after a student update, every
      loan of that student shows the new name, id number and e-mail, and
      no loan enters or leaves the join. */
  lemma StudentUpdateShowsInLoans(db: Db, id: int, body: Body)
    requires id in db.students
    ensures var after := Students.Update(db, Healthy, id, body).db;
      && Registers.JoinIds(after) == Registers.JoinIds(db)
      && forall k :: k in Registers.JoinIds(after) && after.registers[k].studentId == id ==>
           && Registers.Project(after, k).name == Bound(body, "name")
           && Registers.Project(after, k).idNumber == Bound(body, "id_number")
           && Registers.Project(after, k).email == Bound(body, "email")
  {
  }

  /** Every register route whose statement throws answers 500 with the
      thrown message, or "Unknown error occurred" when what was thrown is
      not an `Error`, and writes nothing. Create reaches the store only
      after its body is accepted. */
  lemma RegisterRoutesAnswerStoreErrors(db: Db, message: Option<string>, isDate: Value -> bool,
                                        body: Body, studentId: int, registerId: int)
    ensures var f := Throws(message);
      var failed := Response(500, Error(if message.Some? then message.value else "Unknown error occurred"));
      && (Registers.IsCreatePayload(isDate, body) ==> Registers.Create(db, f, isDate, body) == Step(failed, db))
      && Registers.GetOne(db, f, studentId, registerId) == failed
      && Registers.Update(db, f, studentId, registerId, body) == Step(failed, db)
      && Registers.Delete(db, f, studentId, registerId) == Step(failed, db)
      && Registers.DeleteAll(db, f) == Step(failed, db)
  {
  }

  /** The same for the student routes. */
  lemma StudentRoutesAnswerStoreErrors(db: Db, message: Option<string>, isEmail: string -> bool,
                                       body: Body, id: int)
    ensures var f := Throws(message);
      var failed := Response(500, Error(if message.Some? then message.value else "Unknown error occurred"));
      && (Students.IsStudentPayload(isEmail, body) ==> Students.Create(db, f, isEmail, body) == Step(failed, db))
      && Students.GetOne(db, f, id) == failed
      && Students.Update(db, f, id, body) == Step(failed, db)
      && Students.Delete(db, f, id) == Step(failed, db)
  {
  }

  /** The two list routes answer a throwing store the same way. */
  method ListsAnswerStoreErrors(db: Db, message: Option<string>) returns (loans: Response, students: Response)
    ensures loans == Response(500, Error(if message.Some? then message.value else "Unknown error occurred"))
    ensures students == Response(500, Error(if message.Some? then message.value else "Unknown error occurred"))
  {
    loans := Registers.List(db, Throws(message));
    students := Students.List(db, Throws(message));
  }

  /** A loan's life: create, read back, close it with a departure time,
      read again, delete, read again. */
  lemma LoanScenario(db: Db, isDate: Value -> bool)
    requires 1 in db.students && 2 in db.equipment && 3 in db.equipment
    requires isDate(Str("2024-05-01"))
    ensures
      var create := map["student_id" := Int(1), "equipment_id" := Int(2),
                        "date" := Str("2024-05-01"), "entry_time" := Str("08:00:00"),
                        "departure_time" := Null, "comment" := Null];
      var update := map["equipment_id" := Int(3), "date" := Str("2024-05-02"),
                        "entry_time" := Str("09:00:00"), "departure_time" := Str("10:00:00")];
      var n := db.nextRegisterId;
      var s1 := Registers.Create(db, Healthy, isDate, create);
      var g1 := Registers.GetOne(s1.db, Healthy, 1, n);
      var s2 := Registers.Update(s1.db, Healthy, 1, n, update);
      var g2 := Registers.GetOne(s2.db, Healthy, 1, n);
      var s3 := Registers.Delete(s2.db, Healthy, 1, n);
      && s1.response == Response(201, Created(n))
      && g1.status == 200 && |g1.payload.rows| == 1
      && g1.payload.rows[0].registerId == n
      && g1.payload.rows[0].studentId == 1 && g1.payload.rows[0].equipmentId == 2
      && g1.payload.rows[0].date == Str("2024-05-01")
      && g1.payload.rows[0].entryTime == Str("08:00:00")
      && g1.payload.rows[0].departureTime == Null
      && s2.response.status == 200
      && g2.status == 200 && g2.payload.rows[0].departureTime == Str("10:00:00")
      && s3.response.status == 200
      && Registers.GetOne(s3.db, Healthy, 1, n) == Response(404, Error("Student not found"))
  {
    var create := map["student_id" := Int(1), "equipment_id" := Int(2),
                      "date" := Str("2024-05-01"), "entry_time" := Str("08:00:00"),
                      "departure_time" := Null, "comment" := Null];
    var update := map["equipment_id" := Int(3), "date" := Str("2024-05-02"),
                      "entry_time" := Str("09:00:00"), "departure_time" := Str("10:00:00")];
    var n := db.nextRegisterId;
    assert Registers.IsCreatePayload(isDate, create) by {
      assert Registers.IsTimeString(Str("08:00:00"));
      assert create.Keys <= Registers.CreateKeys;
    }
    CreateThenGetOne(db, isDate, create);
    var s1 := Registers.Create(db, Healthy, isDate, create);
    UpdateThenGetOne(s1.db, 1, n, update);
    var s2 := Registers.Update(s1.db, Healthy, 1, n, update);
    DeleteThenGetOne(s2.db, 1, n);
  }
}
