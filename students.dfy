/** The student record service of app.py, as pure functions over the state of
    its one table: the rows keyed by student_id and the AUTOINCREMENT counter.
    Each handler is a function from the table (and the request) to the new
    table and the HTTP response it sends. */
module Students {

  /** A JSON value as the service receives it. The handlers never inspect a
      value except to hand `dob` to the date validator; they move values
      between the request body and the table unchanged. */
  type Value

  /** A request body: a JSON object, so that "key present" is `k in body`. */
  type Body = map<string, Value>

  /** The date check of app.py:46 and app.py:109: true when parsing the value
      with the format %Y-%m-%d succeeds. The parser is not part of this model,
      so every property below holds for any such check. */
  type DateCheck = Value -> bool

  /** The four business columns of the students table (app.py:14-17). */
  datatype Column = FirstName | LastName | Dob | AmountDue {
    /** The JSON key that carries this column in a request body. */
    function Key(): string {
      match this
      case FirstName => "first_name"
      case LastName => "last_name"
      case Dob => "dob"
      case AmountDue => "amount_due"
    }
  }

  /** A row of the table without its key. */
  datatype Student = Student(firstName: Value, lastName: Value, dob: Value, amountDue: Value) {
    function Get(c: Column): Value {
      match c
      case FirstName => firstName
      case LastName => lastName
      case Dob => dob
      case AmountDue => amountDue
    }

    /** The row with column `c` overwritten by `v`, as one `c = ?` of an SQL SET clause. */
    function Set(c: Column, v: Value): (s: Student)
      ensures s.Get(c) == v
      ensures forall d: Column :: d != c ==> s.Get(d) == Get(d)
    {
      match c
      case FirstName => this.(firstName := v)
      case LastName => this.(lastName := v)
      case Dob => this.(dob := v)
      case AmountDue => this.(amountDue := v)
    }
  }

  /** The five-field object that get and list return for one row. */
  datatype Record = Record(studentId: int, firstName: Value, lastName: Value, dob: Value, amountDue: Value)

  /** The table: its rows, and the id the next insert receives. SQLite's
      AUTOINCREMENT hands out one more than the largest id it ever issued. */
  datatype Table = Table(rows: map<int, Student>, nextId: int)

  /** The table as init_db leaves a new database: no rows, ids start at 1. */
  const Empty := Table(map[], 1)

  /** The ids issued so far are 1 .. nextId - 1, and every row has one of them. */
  ghost predicate Valid(t: Table) {
    && t.nextId >= 1
    && forall id :: id in t.rows ==> 1 <= id < t.nextId
  }

  datatype Payload =
    | Message(message: string)    // {"message": ...}
    | Error(error: string)        // {"error": ...}
    | One(record: Record)
    | Many(records: seq<Record>)

  datatype Response = Response(status: int, payload: Payload)

  const MissingFields := "Missing required fields"
  const InvalidDate := "Invalid date format. Use YYYY-MM-DD"
  const NotFound := "Student not found"
  const NoFields := "No fields to update"
  const CreatedMsg := "Student created successfully"
  const UpdatedMsg := "Student updated successfully"
  const DeletedMsg := "Student deleted successfully"

  /** The required-field check of create (app.py:39-41): all four keys are
      present. Other keys do not matter. */
  function HasRequired(body: Body): (b: bool)
    ensures b <==> forall c: Column :: c.Key() in body
  {
    FirstName.Key() in body && LastName.Key() in body && Dob.Key() in body && AmountDue.Key() in body
  }

  /** The row that create inserts: the four supplied values (app.py:54). */
  function FromBody(body: Body): (s: Student)
    requires HasRequired(body)
    ensures forall c: Column :: s.Get(c) == body[c.Key()]
  {
    Student(body[FirstName.Key()], body[LastName.Key()], body[Dob.Key()], body[AmountDue.Key()])
  }

  /** The row-to-object mapping of app.py:65-71 and app.py:79-85. */
  function RecordOf(id: int, s: Student): (r: Record)
    ensures r.studentId == id && StudentOf(r) == s
  {
    Record(id, s.firstName, s.lastName, s.dob, s.amountDue)
  }

  /** The business fields of a record. */
  function StudentOf(r: Record): Student {
    Student(r.firstName, r.lastName, r.dob, r.amountDue)
  }

  /** POST /students (app.py:36-57). The missing-field check runs first, then
      the date check; only a request passing both inserts, and it inserts one
      row with the supplied values under an id never issued before. */
  function Create(t: Table, body: Body, validDob: DateCheck): (r: (Table, Response))
    ensures r.1.status == 201 <==> HasRequired(body) && validDob(body["dob"])
    ensures !HasRequired(body) ==> r == (t, Response(400, Error(MissingFields)))
    ensures HasRequired(body) && !validDob(body["dob"]) ==> r == (t, Response(400, Error(InvalidDate)))
    ensures r.1.status == 201 ==>
      var id := t.nextId;
      && r.1.payload == Message(CreatedMsg)
      && r.0.rows.Keys == t.rows.Keys + {id}
      && r.0.rows[id] == FromBody(body)
      && r.0.nextId > id
    ensures r.1.status == 201 && Valid(t) ==>
      && (forall k :: k in t.rows ==> k < t.nextId && r.0.rows[k] == t.rows[k])
      && |r.0.rows| == |t.rows| + 1
      && Valid(r.0)
  {
    if !HasRequired(body) then
      (t, Response(400, Error(MissingFields)))
    else if !validDob(body["dob"]) then
      (t, Response(400, Error(InvalidDate)))
    else
      (Table(t.rows[t.nextId := FromBody(body)], t.nextId + 1), Response(201, Message(CreatedMsg)))
  }

  /** GET /students/<id> (app.py:75-86): the row's five fields, or 404. */
  function Get(t: Table, id: int): (r: Response)
    ensures r.status == 200 <==> id in t.rows
    ensures id in t.rows ==> r.payload.One? && r.payload.record.studentId == id
                             && StudentOf(r.payload.record) == t.rows[id]
    ensures id !in t.rows ==> r == Response(404, Error(NotFound))
  {
    if id in t.rows then Response(200, One(RecordOf(id, t.rows[id])))
    else Response(404, Error(NotFound))
  }

  /** The ids that a list of records mentions. */
  function IdsOf(rs: seq<Record>): set<int> {
    set i | 0 <= i < |rs| :: rs[i].studentId
  }

  /** `rs` is an answer of GET /students (app.py:60-72) for `rows`: one record
      per row, each with that row's fields, in some order (SQLite promises no
      order for a SELECT without ORDER BY). */
  ghost predicate IsListing(rs: seq<Record>, rows: map<int, Student>) {
    && IdsOf(rs) == rows.Keys
    && (forall i :: 0 <= i < |rs| ==> rs[i].studentId in rows && StudentOf(rs[i]) == rows[rs[i].studentId])
    && (forall i, j :: 0 <= i < j < |rs| ==> rs[i].studentId != rs[j].studentId)
  }

  /** The body carries at least one of the four columns, so an update has something to set. */
  predicate HasAnyColumn(body: Body) {
    FirstName.Key() in body || LastName.Key() in body || Dob.Key() in body || AmountDue.Key() in body
  }

  /** The row with every column that the body carries overwritten. */
  function Merge(s: Student, body: Body): Student {
    Student(
      if FirstName.Key() in body then body[FirstName.Key()] else s.firstName,
      if LastName.Key() in body then body[LastName.Key()] else s.lastName,
      if Dob.Key() in body then body[Dob.Key()] else s.dob,
      if AmountDue.Key() in body then body[AmountDue.Key()] else s.amountDue)
  }

  /** PUT /students/<id> (app.py:89-125). The existence check runs before the
      body is looked at; an invalid dob is reported before "no fields"; the one
      write comes after both checks, so every error leaves the table as it was.
      A successful update overwrites exactly the columns present in the body, on
      the one row with that id. */
  function Update(t: Table, id: int, body: Body, validDob: DateCheck): (r: (Table, Response))
    ensures id !in t.rows ==> r == (t, Response(404, Error(NotFound)))
    ensures id in t.rows && "dob" in body && !validDob(body["dob"]) ==>
      r == (t, Response(400, Error(InvalidDate)))
    ensures id in t.rows && !HasAnyColumn(body) ==> r == (t, Response(400, Error(NoFields)))
    ensures r.1.status == 200 <==>
      id in t.rows && HasAnyColumn(body) && ("dob" in body ==> validDob(body["dob"]))
    ensures r.1.status != 200 ==> r.0 == t
    ensures r.1.status == 200 ==>
      && r.1.payload == Message(UpdatedMsg)
      && r.0.nextId == t.nextId
      && r.0.rows.Keys == t.rows.Keys
      && (forall k :: k in t.rows && k != id ==> r.0.rows[k] == t.rows[k])
      && (forall c: Column :: r.0.rows[id].Get(c) == if c.Key() in body then body[c.Key()] else t.rows[id].Get(c))
  {
    if id !in t.rows then
      (t, Response(404, Error(NotFound)))
    else if "dob" in body && !validDob(body["dob"]) then
      (t, Response(400, Error(InvalidDate)))
    else if !HasAnyColumn(body) then
      (t, Response(400, Error(NoFields)))
    else
      (t.(rows := t.rows[id := Merge(t.rows[id], body)]), Response(200, Message(UpdatedMsg)))
  }

  /** DELETE /students/<id> (app.py:128-135): 404 and no change when the id is
      absent, otherwise that one row is removed and nothing else changes. The
      counter is not reset, so the id is not handed out again. */
  function Delete(t: Table, id: int): (r: (Table, Response))
    ensures id !in t.rows ==> r == (t, Response(404, Error(NotFound)))
    ensures id in t.rows ==>
      && r.1 == Response(200, Message(DeletedMsg))
      && r.0.nextId == t.nextId
      && r.0.rows.Keys == t.rows.Keys - {id}
      && (forall k :: k in r.0.rows ==> r.0.rows[k] == t.rows[k])
    ensures Valid(t) ==> Valid(r.0)
  {
    if id !in t.rows then (t, Response(404, Error(NotFound)))
    else (t.(rows := t.rows - {id}), Response(200, Message(DeletedMsg)))
  }

  // ---------------------------------------------------------------------
  // Properties of the listing

  /** The ids of records with pairwise distinct ids are as many as the records. */
  lemma {:induction false} DistinctIdsCount(rs: seq<Record>)
    requires forall i, j :: 0 <= i < j < |rs| ==> rs[i].studentId != rs[j].studentId
    ensures |IdsOf(rs)| == |rs|
  {
    if |rs| > 0 {
      var init := rs[..|rs| - 1];
      var last := rs[|rs| - 1].studentId;
      DistinctIdsCount(init);
      assert IdsOf(rs) == IdsOf(init) + {last} by {
        forall x | x in IdsOf(rs) ensures x in IdsOf(init) + {last} {
          var i :| 0 <= i < |rs| && rs[i].studentId == x;
          if i < |rs| - 1 { assert init[i] == rs[i]; }
        }
        forall x | x in IdsOf(init) ensures x in IdsOf(rs) {
          var i :| 0 <= i < |init| && init[i].studentId == x;
          assert rs[i] == init[i];
        }
      }
      forall i | 0 <= i < |init| ensures init[i].studentId != last {
        assert init[i] == rs[i];
      }
    }
  }

  /** Appending a record adds its id to the ids. */
  lemma IdsOfAppend(rs: seq<Record>, r: Record)
    ensures IdsOf(rs + [r]) == IdsOf(rs) + {r.studentId}
  {
    var rs' := rs + [r];
    assert rs'[|rs|] == r;
    forall i | 0 <= i < |rs| ensures rs'[i] == rs[i] { }
  }

  /** A listing has exactly one record per stored row. */
  lemma ListingLength(rs: seq<Record>, rows: map<int, Student>)
    requires IsListing(rs, rows)
    ensures |rs| == |rows|
  {
    DistinctIdsCount(rs);
    assert |rows| == |rows.Keys|;
  }

  /** A listing tells the whole table: two tables with a common listing are equal. */
  lemma ListingDeterminesRows(rs: seq<Record>, rows1: map<int, Student>, rows2: map<int, Student>)
    requires IsListing(rs, rows1) && IsListing(rs, rows2)
    ensures rows1 == rows2
  {
  }

  /** Deleting a stored row and listing again gives one record fewer. */
  lemma DeleteShrinksListing(t: Table, id: int, before: seq<Record>, after: seq<Record>)
    requires id in t.rows
    requires IsListing(before, t.rows) && IsListing(after, Delete(t, id).0.rows)
    ensures |after| == |before| - 1
  {
    ListingLength(before, t.rows);
    ListingLength(after, Delete(t, id).0.rows);
    assert |Delete(t, id).0.rows.Keys| == |t.rows.Keys - {id}| == |t.rows.Keys| - 1;
  }

  // ---------------------------------------------------------------------
  // Round trips between the handlers

  /** Get after a successful create returns the new id and exactly the supplied fields. */
  lemma GetAfterCreate(t: Table, body: Body, validDob: DateCheck)
    requires Create(t, body, validDob).1.status == 201
    ensures var r := Get(Create(t, body, validDob).0, t.nextId);
      && r.status == 200
      && r.payload == One(Record(t.nextId, body["first_name"], body["last_name"], body["dob"], body["amount_due"]))
  {
  }

  /** Get after a successful update shows the supplied columns and the old values of the rest. */
  lemma GetAfterUpdate(t: Table, id: int, body: Body, validDob: DateCheck)
    requires Update(t, id, body, validDob).1.status == 200
    ensures var r := Get(Update(t, id, body, validDob).0, id);
      && r.status == 200
      && r.payload == One(Record(id,
           if "first_name" in body then body["first_name"] else t.rows[id].firstName,
           if "last_name" in body then body["last_name"] else t.rows[id].lastName,
           if "dob" in body then body["dob"] else t.rows[id].dob,
           if "amount_due" in body then body["amount_due"] else t.rows[id].amountDue))
  {
  }

  /** Get after a successful delete is 404, and so are a second delete and an update. */
  lemma GoneAfterDelete(t: Table, id: int, body: Body, validDob: DateCheck)
    requires Delete(t, id).1.status == 200
    ensures var t' := Delete(t, id).0;
      && Get(t', id) == Response(404, Error(NotFound))
      && Delete(t', id) == (t', Response(404, Error(NotFound)))
      && Update(t', id, body, validDob) == (t', Response(404, Error(NotFound)))
  {
  }

  /** Create is not idempotent: the same valid body posted twice gives two rows
      with the same fields under two different ids. */
  lemma CreateTwice(t: Table, body: Body, validDob: DateCheck)
    requires Valid(t) && HasRequired(body) && validDob(body["dob"])
    ensures var t1 := Create(t, body, validDob).0;
      var t2 := Create(t1, body, validDob).0;
      && t1.nextId != t.nextId
      && t.nextId in t2.rows && t1.nextId in t2.rows
      && t2.rows[t.nextId] == t2.rows[t1.nextId] == FromBody(body)
      && |t2.rows| == |t.rows| + 2
  {
  }
}
