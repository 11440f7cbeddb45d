/** Runs of requests against the service of app.py: what a sequence of
    calls does to the table, which ids it hands out and which it removes. */
module StudentTraces {
  import opened Students

  /** One HTTP request to the service (app.py:36, 60, 75, 89, 128). */
  datatype Request =
    | PostStudent(body: Body)
    | GetStudents
    | GetStudent(id: int)
    | PutStudent(id: int, body: Body)
    | DeleteStudent(id: int)

  /** The table after serving one request. Reads leave it as it is; only a
      create moves the counter, and by one. */
  function Step(t: Table, req: Request, validDob: DateCheck): (t': Table)
    ensures t'.nextId == t.nextId || (req.PostStudent? && t'.nextId == t.nextId + 1)
    ensures req.GetStudents? || req.GetStudent? ==> t' == t
    ensures Valid(t) ==> Valid(t')
  {
    match req
    case PostStudent(body) => Create(t, body, validDob).0
    case GetStudents => t
    case GetStudent(_) => t
    case PutStudent(id, body) => Update(t, id, body, validDob).0
    case DeleteStudent(id) => Delete(t, id).0
  }

  /** The table after serving the requests in order. */
  function Run(t: Table, reqs: seq<Request>, validDob: DateCheck): Table
    decreases |reqs|
  {
    if reqs == [] then t else Run(Step(t, reqs[0], validDob), reqs[1..], validDob)
  }

  /** The id that the first request receives, if it is a successful create. */
  function IssuedBy(t: Table, req: Request, validDob: DateCheck): set<int> {
    if req.PostStudent? && Create(t, req.body, validDob).1.status == 201 then {t.nextId} else {}
  }

  /** The id that the first request removes, if it is a successful delete. */
  function DeletedBy(t: Table, req: Request): set<int> {
    if req.DeleteStudent? && req.id in t.rows then {req.id} else {}
  }

  /** The ids that the successful creates of a run receive, in order. */
  function Issued(t: Table, reqs: seq<Request>, validDob: DateCheck): seq<int>
    decreases |reqs|
  {
    if reqs == [] then []
    else
      (if IssuedBy(t, reqs[0], validDob) != {} then [t.nextId] else [])
      + Issued(Step(t, reqs[0], validDob), reqs[1..], validDob)
  }

  /** The ids that the successful deletes of a run remove. */
  function Deleted(t: Table, reqs: seq<Request>, validDob: DateCheck): set<int>
    decreases |reqs|
  {
    if reqs == [] then {}
    else DeletedBy(t, reqs[0]) + Deleted(Step(t, reqs[0], validDob), reqs[1..], validDob)
  }

  /** Every run keeps the table consistent with its counter. */
  lemma {:induction false} RunValid(t: Table, reqs: seq<Request>, validDob: DateCheck)
    requires Valid(t)
    ensures Valid(Run(t, reqs, validDob))
    decreases |reqs|
  {
    if reqs != [] {
      RunValid(Step(t, reqs[0], validDob), reqs[1..], validDob);
    }
  }

  ghost predicate Increasing(s: seq<int>) {
    forall i, j :: 0 <= i < j < |s| ==> s[i] < s[j]
  }

  ghost predicate Within(s: seq<int>, lo: int, hi: int) {
    forall i :: 0 <= i < |s| ==> lo <= s[i] < hi
  }

  ghost function Elements(s: seq<int>): set<int> {
    set i | i in s
  }

  /** The counter never goes down. */
  lemma {:induction false} CounterGrows(t: Table, reqs: seq<Request>, validDob: DateCheck)
    ensures t.nextId <= Run(t, reqs, validDob).nextId
    decreases |reqs|
  {
    if reqs != [] {
      CounterGrows(Step(t, reqs[0], validDob), reqs[1..], validDob);
    }
  }

  /** The ids a run hands out are strictly increasing, none of them was issued
      before the run, and the counter ends above all of them. */
  lemma {:induction false} IssuedFresh(t: Table, reqs: seq<Request>, validDob: DateCheck)
    ensures Increasing(Issued(t, reqs, validDob))
    ensures Within(Issued(t, reqs, validDob), t.nextId, Run(t, reqs, validDob).nextId)
    decreases |reqs|
  {
    if reqs != [] {
      var t' := Step(t, reqs[0], validDob);
      var rest := Issued(t', reqs[1..], validDob);
      Unfold(t, reqs, validDob);
      IssuedFresh(t', reqs[1..], validDob);
      if IssuedBy(t, reqs[0], validDob) != {} {
        CounterGrows(t', reqs[1..], validDob);
        PrependFresh(t.nextId, rest, Run(t', reqs[1..], validDob).nextId);
      }
    }
  }

  /** Putting an id below all others in front keeps the list increasing. */
  lemma PrependFresh(x: int, s: seq<int>, hi: int)
    requires Increasing(s) && Within(s, x + 1, hi) && x < hi
    ensures Increasing([x] + s) && Within([x] + s, x, hi)
  {
    var all := [x] + s;
    forall i | 0 < i < |all| ensures all[i] == s[i - 1] { }
  }

  /** An id that was issued and is no longer stored never comes back. */
  lemma {:induction false} RemovedStaysRemoved(t: Table, reqs: seq<Request>, validDob: DateCheck, id: int)
    requires Valid(t) && id < t.nextId && id !in t.rows
    ensures id !in Run(t, reqs, validDob).rows
    decreases |reqs|
  {
    if reqs != [] {
      RemovedStaysRemoved(Step(t, reqs[0], validDob), reqs[1..], validDob, id);
    }
  }

  /** In particular, once a row is deleted its id is never reused. */
  lemma DeletedIdNeverReused(t: Table, id: int, reqs: seq<Request>, validDob: DateCheck)
    requires Valid(t) && id in t.rows
    ensures id !in Run(Delete(t, id).0, reqs, validDob).rows
  {
    RemovedStaysRemoved(Delete(t, id).0, reqs, validDob, id);
  }

  /** Ids issued from the current counter on are not among the ids issued before. */
  lemma IssuedAbove(t: Table, reqs: seq<Request>, validDob: DateCheck, id: int)
    requires id < t.nextId
    ensures id !in Elements(Issued(t, reqs, validDob))
  {
    IssuedFresh(t, reqs, validDob);
  }

  /** One request adds the id it issues and removes the id it deletes. */
  lemma StepKeys(t: Table, req: Request, validDob: DateCheck)
    requires Valid(t)
    ensures Step(t, req, validDob).rows.Keys == (t.rows.Keys + IssuedBy(t, req, validDob)) - DeletedBy(t, req)
  {
  }

  /** After a run, the stored ids are those stored before or handed out by the
      run, less those the run deleted; so the rows a listing returns are
      exactly the ones never deleted. */
  lemma {:induction false} StoredIds(t: Table, reqs: seq<Request>, validDob: DateCheck)
    requires Valid(t)
    ensures Run(t, reqs, validDob).rows.Keys
         == (t.rows.Keys + Elements(Issued(t, reqs, validDob))) - Deleted(t, reqs, validDob)
    decreases |reqs|
  {
    if reqs != [] {
      var t' := Step(t, reqs[0], validDob);
      var rest := reqs[1..];
      Unfold(t, reqs, validDob);
      StoredIds(t', rest, validDob);
      StepKeys(t, reqs[0], validDob);
      var later := Elements(Issued(t', rest, validDob));
      forall id | id in DeletedBy(t, reqs[0]) ensures id !in later {
        IssuedAbove(t', rest, validDob, id);
      }
      AddThenRemove(t.rows.Keys, IssuedBy(t, reqs[0], validDob), DeletedBy(t, reqs[0]), later, Deleted(t', rest, validDob));
    }
  }

  /** A run that starts with a request serves that request, then the rest:
      the first id handed out, if any, is the counter, which then moves past it. */
  lemma Unfold(t: Table, reqs: seq<Request>, validDob: DateCheck)
    requires reqs != []
    ensures var t' := Step(t, reqs[0], validDob);
      && Run(t, reqs, validDob) == Run(t', reqs[1..], validDob)
      && Issued(t, reqs, validDob)
         == (if IssuedBy(t, reqs[0], validDob) != {} then [t.nextId] else []) + Issued(t', reqs[1..], validDob)
      && Elements(Issued(t, reqs, validDob)) == IssuedBy(t, reqs[0], validDob) + Elements(Issued(t', reqs[1..], validDob))
      && Deleted(t, reqs, validDob) == DeletedBy(t, reqs[0]) + Deleted(t', reqs[1..], validDob)
      && (IssuedBy(t, reqs[0], validDob) != {} ==> t'.nextId == t.nextId + 1)
      && t.nextId <= t'.nextId
  {
    var t' := Step(t, reqs[0], validDob);
    var here := if IssuedBy(t, reqs[0], validDob) != {} then [t.nextId] else [];
    var later := Issued(t', reqs[1..], validDob);
    assert Issued(t, reqs, validDob) == here + later;
    assert Elements(here + later) == Elements(here) + Elements(later) by {
      forall x ensures x in here + later <==> x in here || x in later { }
    }
  }

  /** Adding and removing ids in two rounds is one round, when no id that
      the first round removes is added by the second. */
  lemma AddThenRemove(keys: set<int>, add1: set<int>, del1: set<int>, add2: set<int>, del2: set<int>)
    requires del1 !! add2
    ensures ((keys + add1) - del1 + add2) - del2 == (keys + (add1 + add2)) - (del1 + del2)
  {
  }

  /** A run of reads changes nothing. This lifts the read cases of `Step` to
      whole runs; that list and get themselves write nothing is shown by
      `StudentTable.ListAll` and `StudentTable.Get`, which modify nothing. */
  lemma {:induction false} ReadsChangeNothing(t: Table, reqs: seq<Request>, validDob: DateCheck)
    requires forall i :: 0 <= i < |reqs| ==> reqs[i].GetStudents? || reqs[i].GetStudent?
    ensures Run(t, reqs, validDob) == t
    decreases |reqs|
  {
    if reqs != [] {
      ReadsChangeNothing(t, reqs[1..], validDob);
    }
  }
}
