/** The service of app.py as the program runs it: one table object whose rows
    and AUTOINCREMENT counter the handlers update in place. Each handler is
    proved to act as the function of the same name in module Students. */
module StudentService {
  import opened Students

  /** One `column = ?` of the SET clause that update builds (app.py:102-116),
      paired with the argument bound to its `?`. */
  datatype Assignment = Assignment(column: Column, value: Value)

  /** The row after `UPDATE students SET ...` with these assignments. */
  function ApplyAll(s: Student, sets: seq<Assignment>): Student
    decreases |sets|
  {
    if sets == [] then s
    else
      var last := sets[|sets| - 1];
      ApplyAll(s, sets[..|sets| - 1]).Set(last.column, last.value)
  }

  /** Appending an assignment to the SET clause applies it after the others. */
  lemma Stage(s: Student, sets: seq<Assignment>, a: Assignment)
    ensures ApplyAll(s, sets + [a]) == ApplyAll(s, sets).Set(a.column, a.value)
  {
  }

  class StudentTable {
    var rows: map<int, Student>
    var nextId: int

    /** The abstract value of the table. */
    function State(): Table
      reads this
    {
      Table(rows, nextId)
    }

    ghost predicate Valid()
      reads this
    {
      Students.Valid(State())
    }

    /** The table on a new database (init_db, app.py:8-21). */
    constructor ()
      ensures Valid() && State() == Empty
    {
      rows := map[];
      nextId := 1;
    }

    /** create_student (app.py:36-57). */
    method Create(body: Body, validDob: DateCheck) returns (r: Response)
      requires Valid()
      modifies this
      ensures Valid()
      ensures (State(), r) == Students.Create(old(State()), body, validDob)
    {
      if !HasRequired(body) {
        return Response(400, Error(MissingFields));
      }
      if !validDob(body["dob"]) {
        return Response(400, Error(InvalidDate));
      }
      // INSERT INTO students: the row receives the next AUTOINCREMENT id
      rows := rows[nextId := FromBody(body)];
      nextId := nextId + 1;
      r := Response(201, Message(CreatedMsg));
    }

    /** get_all_students (app.py:60-72): a 200 reply carrying one record per
        row, appended as the scan of `SELECT * FROM students` visits the rows.
        The scan here goes in rowid order; the contract promises no order. */
    method ListAll() returns (r: Response)
      requires Valid()
      ensures r.status == 200 && r.payload.Many?
      ensures IsListing(r.payload.records, rows)
      ensures |r.payload.records| == |rows|
    {
      var id := 1;
      var result := [];
      while id < nextId
        invariant 1 <= id <= nextId
        invariant IdsOf(result) == set k | k in rows && k < id
        invariant forall i :: 0 <= i < |result| ==>
          result[i].studentId in rows && StudentOf(result[i]) == rows[result[i].studentId] && result[i].studentId < id
        invariant forall i, j :: 0 <= i < j < |result| ==> result[i].studentId < result[j].studentId
      {
        if id in rows {
          IdsOfAppend(result, RecordOf(id, rows[id]));
          result := result + [RecordOf(id, rows[id])];
        }
        id := id + 1;
      }
      ListingLength(result, rows);
      r := Response(200, Many(result));
    }

    /** get_student (app.py:75-86). */
    method Get(id: int) returns (r: Response)
      ensures r == Students.Get(State(), id)
    {
      if id in rows {
        r := Response(200, One(RecordOf(id, rows[id])));
      } else {
        r := Response(404, Error(NotFound));
      }
    }

    /** update_student (app.py:89-125): the SET clause is built one column at
        a time, and the table is written once, after every check. */
    method Update(id: int, body: Body, validDob: DateCheck) returns (r: Response)
      requires Valid()
      modifies this
      ensures Valid()
      ensures (State(), r) == Students.Update(old(State()), id, body, validDob)
    {
      if id !in rows {
        return Response(404, Error(NotFound));
      }
      var row := rows[id];
      var updates: seq<Assignment> := [];
      ghost var staged := row;  // the row that the SET clause built so far produces
      if "first_name" in body {
        Stage(row, updates, Assignment(FirstName, body["first_name"]));
        updates, staged := updates + [Assignment(FirstName, body["first_name"])], staged.Set(FirstName, body["first_name"]);
      }
      if "last_name" in body {
        Stage(row, updates, Assignment(LastName, body["last_name"]));
        updates, staged := updates + [Assignment(LastName, body["last_name"])], staged.Set(LastName, body["last_name"]);
      }
      if "dob" in body {
        if !validDob(body["dob"]) {
          return Response(400, Error(InvalidDate));
        }
        Stage(row, updates, Assignment(Dob, body["dob"]));
        updates, staged := updates + [Assignment(Dob, body["dob"])], staged.Set(Dob, body["dob"]);
      }
      if "amount_due" in body {
        Stage(row, updates, Assignment(AmountDue, body["amount_due"]));
        updates, staged := updates + [Assignment(AmountDue, body["amount_due"])], staged.Set(AmountDue, body["amount_due"]);
      }
      assert ApplyAll(row, updates) == staged == Merge(row, body);
      if updates == [] {
        return Response(400, Error(NoFields));
      }
      rows := rows[id := ApplyAll(row, updates)];
      r := Response(200, Message(UpdatedMsg));
    }

    /** delete_student (app.py:128-135). */
    method Delete(id: int) returns (r: Response)
      requires Valid()
      modifies this
      ensures Valid()
      ensures (State(), r) == Students.Delete(old(State()), id)
    {
      if id !in rows {
        return Response(404, Error(NotFound));
      }
      rows := rows - {id};
      r := Response(200, Message(DeletedMsg));
    }
  }

  /** One student's life on a new database: create, read, change the date of
      birth, read, delete, read again. The replies follow from the handlers'
      contracts alone. */
  method Walkthrough(first: Value, last: Value, dob: Value, newDob: Value, amount: Value, validDob: DateCheck)
    returns (replies: seq<Response>)
    requires validDob(dob) && validDob(newDob)
    ensures replies == [
      Response(201, Message(CreatedMsg)),
      Response(200, One(Record(1, first, last, dob, amount))),
      Response(200, Message(UpdatedMsg)),
      Response(200, One(Record(1, first, last, newDob, amount))),
      Response(200, Message(DeletedMsg)),
      Response(404, Error(NotFound))]
  {
    var table := new StudentTable();
    var body := map["first_name" := first, "last_name" := last, "dob" := dob, "amount_due" := amount];
    var created := table.Create(body, validDob);
    var read := table.Get(1);
    var updated := table.Update(1, map["dob" := newDob], validDob);
    var reread := table.Get(1);
    var deleted := table.Delete(1);
    var gone := table.Get(1);
    replies := [created, read, updated, reread, deleted, gone];
  }
}
