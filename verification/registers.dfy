/** The loan-register routes: create, list, get one, update, delete one and
    delete all, each a transition on the database. */
module Registers {
  import opened Json
  import opened Joi
  import opened TimeOfDay
  import opened Store

  /** `string().pattern(/^\d{2}:\d{2}:\d{2}$/)`. */
  predicate IsTimeString(v: Value) {
    v.Str? && HasTimeShape(v.s)
  }

  /** The create schema; `isDate` is what `date()` accepts. */
  function CreateSchema(isDate: Value -> bool): Schema {
    [ Rule("student_id", true, false, IsInteger),
      Rule("equipment_id", true, false, IsInteger),
      Rule("date", true, false, isDate),
      Rule("entry_time", true, false, IsTimeString),
      Rule("departure_time", false, true, IsTimeString),
      Rule("comment", false, true, IsString) ]
  }

  /** The update schema: no time pattern, and `null` is not allowed for the
      optional fields. The update handler computes its verdict and drops it. */
  function UpdateSchema(isDate: Value -> bool): (s: Schema)
    ensures Keys(s) == UpdateKeys
    ensures forall i :: 0 <= i < |s| ==> !s[i].allowNull
    ensures forall i :: 0 <= i < |s| ==>
      (s[i].required <==> s[i].key in {"equipment_id", "date", "entry_time"})
  {
    var s := [ Rule("equipment_id", true, false, IsInteger),
      Rule("date", true, false, isDate),
      Rule("entry_time", true, false, IsString),
      Rule("departure_time", false, false, IsString),
      Rule("comment", false, false, IsString) ];
    assert s[0].key == "equipment_id" && s[1].key == "date" && s[2].key == "entry_time";
    assert s[3].key == "departure_time" && s[4].key == "comment";
    s
  }

  /** The five columns the update's SET list binds from the body. */
  const UpdateKeys: set<string> :=
    {"equipment_id", "date", "entry_time", "departure_time", "comment"}

  const CreateKeys: set<string> :=
    {"student_id", "equipment_id", "date", "entry_time", "departure_time", "comment"}

  /** A create payload the schema accepts, stated field by field. */
  predicate IsCreatePayload(isDate: Value -> bool, body: Body) {
    && "student_id" in body && IsInteger(body["student_id"])
    && "equipment_id" in body && IsInteger(body["equipment_id"])
    && "date" in body && isDate(body["date"])
    && "entry_time" in body && IsTimeString(body["entry_time"])
    && ("departure_time" in body ==>
          body["departure_time"] == Null || IsTimeString(body["departure_time"]))
    && ("comment" in body ==> body["comment"] == Null || IsString(body["comment"]))
    && body.Keys <= CreateKeys
  }

  /** An update payload the update schema accepts, stated field by field. */
  predicate IsUpdatePayload(isDate: Value -> bool, body: Body) {
    && "equipment_id" in body && IsInteger(body["equipment_id"])
    && "date" in body && isDate(body["date"])
    && "entry_time" in body && IsString(body["entry_time"])
    && ("departure_time" in body ==> IsString(body["departure_time"]))
    && ("comment" in body ==> IsString(body["comment"]))
    && body.Keys <= UpdateKeys
  }

  lemma UpdateSchemaMeaning(isDate: Value -> bool, body: Body)
    ensures Validate(UpdateSchema(isDate), body).Accepted? <==> IsUpdatePayload(isDate, body)
  {
  }

  lemma CreateSchemaMeaning(isDate: Value -> bool, body: Body)
    ensures Validate(CreateSchema(isDate), body).Accepted? <==> IsCreatePayload(isDate, body)
  {
    var schema := CreateSchema(isDate);
    assert Keys(schema) == CreateKeys by {
      assert schema[0].key == "student_id" && schema[1].key == "equipment_id";
      assert schema[2].key == "date" && schema[3].key == "entry_time";
      assert schema[4].key == "departure_time" && schema[5].key == "comment";
    }
    if Validate(schema, body).Accepted? {
      assert Passes(schema[0], body) && Passes(schema[1], body) && Passes(schema[2], body);
      assert Passes(schema[3], body) && Passes(schema[4], body) && Passes(schema[5], body);
    }
    if IsCreatePayload(isDate, body) {
      assert forall i :: 0 <= i < |schema| ==> Passes(schema[i], body);
    }
  }

  /** The row a validated create payload inserts. */
  function Submitted(body: Body): (row: Register)
    requires "student_id" in body && body["student_id"].Int?
  {
    Register(
      body["student_id"].i,
      Bound(body, "equipment_id"),
      Bound(body, "date"),
      Bound(body, "entry_time"),
      Bound(body, "departure_time"),
      Bound(body, "comment"))
  }

  /** POST `/`. */
  function Create(db: Db, fault: Fault, isDate: Value -> bool, body: Body): (s: Step)
    ensures !IsCreatePayload(isDate, body) ==> s.response.status == 400 && s.db == db
    ensures Validate(CreateSchema(isDate), body).Rejected? ==>
      s == Step(Response(400, SchemaFailure(Validate(CreateSchema(isDate), body).error)), db)
    ensures IsCreatePayload(isDate, body) && fault.Throws? ==> s == Step(StoreError(fault), db)
    ensures IsCreatePayload(isDate, body) && fault.Healthy? ==>
      && s.response == Response(201, Created(db.nextRegisterId))
      && s.db.registers == db.registers[db.nextRegisterId := Submitted(body)]
      && s.db.nextRegisterId == db.nextRegisterId + 1
      && s.db.students == db.students && s.db.equipment == db.equipment
      && s.db.nextStudentId == db.nextStudentId
    ensures Valid(db) && s.response.status == 201 ==>
      s.response.payload.id >= 1 && s.response.payload.id !in db.registers
    ensures Valid(db) ==> Valid(s.db)
  {
    CreateSchemaMeaning(isDate, body);
    match Validate(CreateSchema(isDate), body)
    case Rejected(e) => Step(Response(400, SchemaFailure(e)), db)
    case Accepted =>
      if fault.Throws? then Step(StoreError(fault), db)
      else
        var id := db.nextRegisterId;
        Step(Response(201, Created(id)),
             db.(registers := db.registers[id := Submitted(body)], nextRegisterId := id + 1))
  }

  /** A create whose `entry_time` is missing or misshapen, or whose present,
      non-null `departure_time` is misshapen, is refused and writes nothing. */
  lemma CreateRejectsBadTimes(db: Db, fault: Fault, isDate: Value -> bool, body: Body)
    requires || "entry_time" !in body
             || !IsTimeString(body["entry_time"])
             || ("departure_time" in body && body["departure_time"] != Null
                 && !IsTimeString(body["departure_time"]))
    ensures Create(db, fault, isDate, body).response.status == 400
    ensures Create(db, fault, isDate, body).db == db
  {
  }

  /** The join condition: the register's student and equipment both exist. */
  predicate Joinable(db: Db, id: int) {
    && id in db.registers
    && db.registers[id].studentId in db.students
    && db.registers[id].equipmentId.Int?
    && db.registers[id].equipmentId.i in db.equipment
  }

  /** The fixed column list of the list and get-one queries. */
  function Project(db: Db, id: int): (row: JoinedRow)
    requires Joinable(db, id)
    ensures row.registerId == id
  {
    var r := db.registers[id];
    var st := db.students[r.studentId];
    var eq := db.equipment[r.equipmentId.i];
    JoinedRow(id, r.studentId, st.name, st.idNumber, st.email,
              r.equipmentId.i, eq.equipmentName, eq.state,
              r.date, r.entryTime, r.departureTime, r.comment)
  }

  /** A joined row is read at query time from three rows only: two
      databases that agree on the register, on the student it names and on
      the equipment it names project it alike, whatever else differs. */
  lemma ProjectLocal(d1: Db, d2: Db, id: int)
    requires Joinable(d1, id)
    requires id in d2.registers && d2.registers[id] == d1.registers[id]
    requires d1.registers[id].studentId in d2.students
    requires d2.students[d1.registers[id].studentId] == d1.students[d1.registers[id].studentId]
    requires d1.registers[id].equipmentId.i in d2.equipment
    requires d2.equipment[d1.registers[id].equipmentId.i] == d1.equipment[d1.registers[id].equipmentId.i]
    ensures Joinable(d2, id)
    ensures Project(d2, id) == Project(d1, id)
  {
  }

  /** A loan row as an accepted create writes it: a safe-integer
      equipment id, a shaped entry time, and a departure time that is NULL
      or shaped. */
  predicate WellFormedLoan(r: Register) {
    && IsInteger(r.equipmentId)
    && IsTimeString(r.entryTime)
    && (r.departureTime == Null || IsTimeString(r.departureTime))
  }

  /** The row a successful create writes is well formed. (An update may
      break this: it binds its body unvalidated.) */
  lemma CreatedLoanWellFormed(db: Db, isDate: Value -> bool, body: Body)
    ensures var s := Create(db, Healthy, isDate, body);
      s.response.status == 201 ==> WellFormedLoan(s.db.registers[db.nextRegisterId])
  {
  }

  /** The ids of the registers the join keeps. */
  function JoinIds(db: Db): set<int> {
    set id | id in db.registers && Joinable(db, id)
  }

  /** register ⋈ student ⋈ equipment, as a set of projected rows. */
  function JoinRows(db: Db): set<JoinedRow> {
    set id | id in db.registers && Joinable(db, id) :: Project(db, id)
  }

  /** GET `/`: every joined row, each register once, in the store's order;
      an empty join is still a success. */
  method List(db: Db, fault: Fault) returns (r: Response)
    ensures fault.Throws? ==> r == StoreError(fault)
    ensures fault.Healthy? ==> r.status == 200 && r.payload.RegisterRows?
    ensures fault.Healthy? ==> forall row :: row in r.payload.rows <==> row in JoinRows(db)
    ensures fault.Healthy? ==>
      forall i, j :: 0 <= i < j < |r.payload.rows| ==>
        r.payload.rows[i].registerId != r.payload.rows[j].registerId
    ensures fault.Healthy? ==> |r.payload.rows| == |JoinIds(db)|
  {
    if fault.Throws? {
      return StoreError(fault);
    }
    var ids := ScanIds(db.registers);
    var rows: seq<JoinedRow> := [];
    var n := 0;
    while n < |ids|
      invariant 0 <= n <= |ids|
      invariant forall row :: row in rows ==> row in JoinRows(db) && row.registerId in ids[..n]
      invariant forall i :: 0 <= i < n && Joinable(db, ids[i]) ==> Project(db, ids[i]) in rows
      invariant forall i, j :: 0 <= i < j < |rows| ==> rows[i].registerId != rows[j].registerId
    {
      var id := ids[n];
      if Joinable(db, id) {
        assert id !in ids[..n];
        rows := rows + [Project(db, id)];
      }
      n := n + 1;
    }
    forall row | row in JoinRows(db)
      ensures row in rows
    {
      var id :| id in db.registers && Joinable(db, id) && row == Project(db, id);
      var i :| 0 <= i < |ids| && ids[i] == id;
    }
    var listed := seq(|rows|, i requires 0 <= i < |rows| => rows[i].registerId);
    forall k
      ensures k in JoinIds(db) <==> k in listed
    {
      if k in JoinIds(db) {
        var i :| 0 <= i < |rows| && rows[i] == Project(db, k);
        assert listed[i] == k;
      }
      if k in listed {
        var i :| 0 <= i < |listed| && listed[i] == k;
        var id :| id in db.registers && Joinable(db, id) && rows[i] == Project(db, id);
        assert id == k;
      }
    }
    DistinctCount(listed, JoinIds(db));
    return Response(200, RegisterRows(rows));
  }

  /** The rows the get-one query selects. */
  function Selected(db: Db, studentId: int, registerId: int): seq<JoinedRow> {
    if Joinable(db, registerId) && db.registers[registerId].studentId == studentId
    then [Project(db, registerId)]
    else []
  }

  /** GET `/:student_id/:register_id`. A miss says "Student not found"
      whichever of the two ids failed to match. */
  function GetOne(db: Db, fault: Fault, studentId: int, registerId: int): (r: Response)
    ensures fault.Throws? ==> r == StoreError(fault)
    ensures fault.Healthy? ==>
      (r.status == 200 <==>
         exists row :: row in JoinRows(db) && row.studentId == studentId && row.registerId == registerId)
    ensures fault.Healthy? && r.status != 200 ==> r == Response(404, Error("Student not found"))
    ensures r.status == 200 ==>
      && r.payload.RegisterRows?
      && |r.payload.rows| == 1
      && forall row :: row in r.payload.rows <==>
           row in JoinRows(db) && row.studentId == studentId && row.registerId == registerId
  {
    if fault.Throws? then StoreError(fault)
    else
      var rows := Selected(db, studentId, registerId);
      if |rows| == 0 then Response(404, Error("Student not found"))
      else Response(200, RegisterRows(rows))
  }

  /** The rows `WHERE student_id = ? AND id = ?` picks. */
  function Matching(db: Db, studentId: int, registerId: int): (m: set<int>)
    ensures m <= {registerId}
    ensures registerId in m <==>
      registerId in db.registers && db.registers[registerId].studentId == studentId
  {
    set k | k in db.registers && db.registers[k].studentId == studentId && k == registerId
  }

  /** The update's SET list: five columns from the body; id and student_id
      are not in it. */
  function Overwrite(row: Register, body: Body): (r: Register)
    ensures r.studentId == row.studentId
  {
    row.(equipmentId := Bound(body, "equipment_id"),
         date := Bound(body, "date"),
         entryTime := Bound(body, "entry_time"),
         departureTime := Bound(body, "departure_time"),
         comment := Bound(body, "comment"))
  }

  /** PUT `/:student_id/:register_id`. The body is bound as it came: the
      update schema's verdict gates nothing. No affected row is a 404. */
  function Update(db: Db, fault: Fault, studentId: int, registerId: int, body: Body): (s: Step)
    ensures fault.Throws? ==> s == Step(StoreError(fault), db)
    ensures fault.Healthy? ==>
      (s.response.status == 200 <==>
         registerId in db.registers && db.registers[registerId].studentId == studentId)
    ensures fault.Healthy? && s.response.status != 200 ==>
      s.response == Response(404, Error("Register not found")) && s.db == db
    ensures s.response.status == 200 ==>
      && s.response.payload == Message("Register updated successfully")
      && s.db == db.(registers := s.db.registers)
      && s.db.registers.Keys == db.registers.Keys
      && (forall k :: k in db.registers && k != registerId ==> s.db.registers[k] == db.registers[k])
      && s.db.registers[registerId].studentId == studentId
      && s.db.registers[registerId].equipmentId == Bound(body, "equipment_id")
      && s.db.registers[registerId].date == Bound(body, "date")
      && s.db.registers[registerId].entryTime == Bound(body, "entry_time")
      && s.db.registers[registerId].departureTime == Bound(body, "departure_time")
      && s.db.registers[registerId].comment == Bound(body, "comment")
    ensures Valid(db) ==> Valid(s.db)
  {
    if fault.Throws? then Step(StoreError(fault), db)
    else
      var hits := Matching(db, studentId, registerId);
      var after := db.(registers :=
        map k | k in db.registers ::
          if k in hits then Overwrite(db.registers[k], body) else db.registers[k]);
      if |hits| == 0 then
        assert after.registers == db.registers;
        Step(Response(404, Error("Register not found")), after)
      else
        Step(Response(200, Message("Register updated successfully")), after)
  }

  /** DELETE `/:student_id/:register_id`. No affected row is a 404. */
  function Delete(db: Db, fault: Fault, studentId: int, registerId: int): (s: Step)
    ensures fault.Throws? ==> s == Step(StoreError(fault), db)
    ensures fault.Healthy? ==>
      (s.response.status == 200 <==>
         registerId in db.registers && db.registers[registerId].studentId == studentId)
    ensures fault.Healthy? && s.response.status != 200 ==>
      s.response == Response(404, Error("Register not found")) && s.db == db
    ensures s.response.status == 200 ==>
      && s.response.payload == Message("Register deleted successfully")
      && s.db == db.(registers := s.db.registers)
      && s.db.registers.Keys == db.registers.Keys - {registerId}
      && forall k :: k in s.db.registers ==> s.db.registers[k] == db.registers[k]
    ensures Valid(db) ==> Valid(s.db)
  {
    if fault.Throws? then Step(StoreError(fault), db)
    else
      var hits := Matching(db, studentId, registerId);
      var after := db.(registers := db.registers - hits);
      if |hits| == 0 then
        assert after.registers == db.registers;
        Step(Response(404, Error("Register not found")), after)
      else
        Step(Response(200, Message("Register deleted successfully")), after)
  }

  /** DELETE `/`: every register goes; the id counter is left as it was, so
      ids are not handed out again. */
  function DeleteAll(db: Db, fault: Fault): (s: Step)
    ensures fault.Throws? ==> s == Step(StoreError(fault), db)
    ensures fault.Healthy? ==>
      && s.response == Response(200, Message("Registers deleted successfully"))
      && s.db.registers == map[]
      && s.db == db.(registers := s.db.registers)
    ensures Valid(db) ==> Valid(s.db)
  {
    if fault.Throws? then Step(StoreError(fault), db)
    else Step(Response(200, Message("Registers deleted successfully")), db.(registers := map[]))
  }
}
