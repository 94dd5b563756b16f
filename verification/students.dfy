/** The student routes: single-table create, list, get, update and delete
    keyed by one id. Their rows are what the register join reads. */
module Students {
  import opened Json
  import opened Joi
  import opened Store

  /** The student schema; `isEmail` is what `string().email()` accepts of a
      non-empty string. */
  function StudentSchema(isEmail: string -> bool): Schema {
    [ Rule("name", true, false, IsString),
      Rule("id_number", true, false, IsString),
      Rule("email", true, false, v => IsString(v) && isEmail(v.s)) ]
  }

  const StudentKeys: set<string> := {"name", "id_number", "email"}

  /** A student payload the schema accepts, stated field by field. */
  predicate IsStudentPayload(isEmail: string -> bool, body: Body) {
    && "name" in body && IsString(body["name"])
    && "id_number" in body && IsString(body["id_number"])
    && "email" in body && IsString(body["email"]) && isEmail(body["email"].s)
    && body.Keys <= StudentKeys
  }

  lemma StudentSchemaMeaning(isEmail: string -> bool, body: Body)
    ensures Validate(StudentSchema(isEmail), body).Accepted? <==> IsStudentPayload(isEmail, body)
  {
    var schema := StudentSchema(isEmail);
    assert Keys(schema) == StudentKeys by {
      assert schema[0].key == "name" && schema[1].key == "id_number" && schema[2].key == "email";
    }
    if Validate(schema, body).Accepted? {
      assert Passes(schema[0], body) && Passes(schema[1], body) && Passes(schema[2], body);
    }
    if IsStudentPayload(isEmail, body) {
      assert forall i :: 0 <= i < |schema| ==> Passes(schema[i], body);
    }
  }

  /** The columns an update or insert binds from a body. */
  function FromBody(body: Body): Student {
    Student(Bound(body, "name"), Bound(body, "id_number"), Bound(body, "email"))
  }

  /** POST `/`. */
  function Create(db: Db, fault: Fault, isEmail: string -> bool, body: Body): (s: Step)
    ensures !IsStudentPayload(isEmail, body) ==> s.response.status == 400 && s.db == db
    ensures Validate(StudentSchema(isEmail), body).Rejected? ==>
      s == Step(Response(400, SchemaFailure(Validate(StudentSchema(isEmail), body).error)), db)
    ensures IsStudentPayload(isEmail, body) && fault.Throws? ==> s == Step(StoreError(fault), db)
    ensures IsStudentPayload(isEmail, body) && fault.Healthy? ==>
      && s.response == Response(201, Created(db.nextStudentId))
      && s.db.students == db.students[db.nextStudentId := FromBody(body)]
      && s.db.nextStudentId == db.nextStudentId + 1
      && s.db.registers == db.registers && s.db.equipment == db.equipment
      && s.db.nextRegisterId == db.nextRegisterId
    ensures Valid(db) && s.response.status == 201 ==>
      s.response.payload.id >= 1 && s.response.payload.id !in db.students
    ensures Valid(db) ==> Valid(s.db)
  {
    StudentSchemaMeaning(isEmail, body);
    match Validate(StudentSchema(isEmail), body)
    case Rejected(e) => Step(Response(400, SchemaFailure(e)), db)
    case Accepted =>
      if fault.Throws? then Step(StoreError(fault), db)
      else
        var id := db.nextStudentId;
        Step(Response(201, Created(id)),
             db.(students := db.students[id := FromBody(body)], nextStudentId := id + 1))
  }

  /** A student row as `SELECT *` returns it. */
  function RowOf(db: Db, id: int): (row: StudentRow)
    requires id in db.students
    ensures row.id == id
  {
    var st := db.students[id];
    StudentRow(id, st.name, st.idNumber, st.email)
  }

  /** GET `/`: every student row, each once, in the store's order. */
  method List(db: Db, fault: Fault) returns (r: Response)
    ensures fault.Throws? ==> r == StoreError(fault)
    ensures fault.Healthy? ==> r.status == 200 && r.payload.StudentRows?
    ensures fault.Healthy? ==>
      forall row :: row in r.payload.students <==> row.id in db.students && row == RowOf(db, row.id)
    ensures fault.Healthy? ==> |r.payload.students| == |db.students|
  {
    if fault.Throws? {
      return StoreError(fault);
    }
    var ids := ScanIds(db.students);
    var rows := seq(|ids|, i requires 0 <= i < |ids| => RowOf(db, ids[i]));
    assert |ids| == |db.students| by {
      DistinctCount(ids, db.students.Keys);
    }
    forall row: StudentRow | row.id in db.students && row == RowOf(db, row.id)
      ensures row in rows
    {
      var i :| 0 <= i < |ids| && ids[i] == row.id;
      assert rows[i] == row;
    }
    return Response(200, StudentRows(rows));
  }

  /** GET `/:id`. */
  function GetOne(db: Db, fault: Fault, id: int): (r: Response)
    ensures fault.Throws? ==> r == StoreError(fault)
    ensures fault.Healthy? ==> (r.status == 200 <==> id in db.students)
    ensures fault.Healthy? && r.status == 200 ==>
      r.payload.OneStudent? && r.payload.student.id == id
      && r.payload.student.name == db.students[id].name
      && r.payload.student.idNumber == db.students[id].idNumber
      && r.payload.student.email == db.students[id].email
    ensures fault.Healthy? && r.status != 200 ==> r == Response(404, Error("Alumno not found"))
  {
    if fault.Throws? then StoreError(fault)
    else if id in db.students then Response(200, OneStudent(RowOf(db, id)))
    else Response(404, Error("Alumno not found"))
  }

  /** PUT `/:id`. The body is not validated: each of the three columns takes
      the body's value, or NULL when the body lacks it. */
  function Update(db: Db, fault: Fault, id: int, body: Body): (s: Step)
    ensures fault.Throws? ==> s == Step(StoreError(fault), db)
    ensures fault.Healthy? ==> (s.response.status == 200 <==> id in db.students)
    ensures fault.Healthy? && s.response.status != 200 ==>
      s.response == Response(404, Error("Alumno not found")) && s.db == db
    ensures s.response.status == 200 ==>
      && s.response.payload == Message("Alumno updated")
      && s.db == db.(students := s.db.students)
      && s.db.students.Keys == db.students.Keys
      && (forall k :: k in db.students && k != id ==> s.db.students[k] == db.students[k])
      && s.db.students[id].name == Bound(body, "name")
      && s.db.students[id].idNumber == Bound(body, "id_number")
      && s.db.students[id].email == Bound(body, "email")
    ensures Valid(db) ==> Valid(s.db)
  {
    if fault.Throws? then Step(StoreError(fault), db)
    else if id in db.students then
      Step(Response(200, Message("Alumno updated")), db.(students := db.students[id := FromBody(body)]))
    else Step(Response(404, Error("Alumno not found")), db)
  }

  /** DELETE `/:id`. */
  function Delete(db: Db, fault: Fault, id: int): (s: Step)
    ensures fault.Throws? ==> s == Step(StoreError(fault), db)
    ensures fault.Healthy? ==> (s.response.status == 200 <==> id in db.students)
    ensures fault.Healthy? && s.response.status != 200 ==>
      s.response == Response(404, Error("Alumno not found")) && s.db == db
    ensures s.response.status == 200 ==>
      && s.response.payload == Message("Alumno deleted")
      && s.db == db.(students := s.db.students)
      && s.db.students.Keys == db.students.Keys - {id}
      && forall k :: k in s.db.students ==> s.db.students[k] == db.students[k]
    ensures Valid(db) ==> Valid(s.db)
  {
    if fault.Throws? then Step(StoreError(fault), db)
    else if id in db.students then
      Step(Response(200, Message("Alumno deleted")), db.(students := db.students - {id}))
    else Step(Response(404, Error("Alumno not found")), db)
  }
}
