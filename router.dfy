/**
 * The four route handlers. Each handler runs its validation chains; when any
 * chain reports a violation it answers 400 with the list and calls nothing.
 * Otherwise it calls one repository function and turns what comes back into
 * the response: a thrown error becomes 500 with a fixed body, zero affected
 * rows becomes 404, anything else the success answer.
 *
 * Each handler is split into its plan (the decision taken before the
 * repository is called) and its answer (taken from the repository's
 * outcome); `Serve*` runs a handler against the table.
 */
module Router {
  import opened Wrappers
  import opened Values
  import opened SchoolModel
  import opened Validation
  import opened Proximity

  /** The JSON body of a response. */
  datatype Payload =
    | Errors(errors: seq<Violation>)      // `{ errors: errors.array() }`
    | Message(message: string)            // `{ message: ... }`
    | Failure(error: string)              // `{ error: ... }`
    | Schools(schools: seq<School>)       // `res.json(sortedSchools)`

  datatype Reply = Reply(status: int, payload: Payload)

  /** What a handler decides before it calls the repository. */
  datatype Plan<A> = Reject(reply: Reply) | Call(arg: A)

  const InternalError := Reply(500, Failure("Internal Server Error"))
  const NotFound := Reply(404, Failure("School not found"))
  const IdMismatch := Reply(400, Failure("ID in request body must match the ID in params"))
  const Added := Reply(201, Message("School added successfully!"))
  const Updated := Reply(200, Message("School updated successfully!"))
  const Deleted := Reply(200, Message("School deleted successfully!"))

  // ---------------------------------------------------------------------------
  // POST /addSchool

  /** `const { name, address, latitude, longitude } = req.body`. */
  function FieldsOf(body: Body): SchoolFields
  {
    SchoolFields(Get(body, "name"), Get(body, "address"), Get(body, "latitude"), Get(body, "longitude"))
  }

  function AddPlan(body: Body): (pl: Plan<SchoolFields>)
    ensures pl.Reject? <==> !AddAccepts(body)
    ensures pl.Reject? ==> pl.reply == Reply(400, Errors(AddErrors(body))) && AddErrors(body) != []
    ensures pl.Call? ==> pl.arg == FieldsOf(Sanitized(body))
  {
    var errs := AddErrors(body);
    if errs != [] then Reject(Reply(400, Errors(errs)))
    else Call(FieldsOf(Sanitized(body)))
  }

  /** addSchool receives the trimmed name and address and the coordinates as sent. */
  lemma AddPlanFields(body: Body)
    requires AddPlan(body).Call?
    ensures var f := AddPlan(body).arg;
      && f.name == Str(Trim(Get(body, "name").s), Get(body, "name").num)
      && f.address == Str(Trim(Get(body, "address").s), Get(body, "address").num)
      && f.latitude == Get(body, "latitude")
      && f.longitude == Get(body, "longitude")
  {
    assert AddAccepts(body);
    SanitizedTrims(body, "name");
    SanitizedTrims(body, "address");
    SanitizedKeepsOthers(body, "latitude");
    SanitizedKeepsOthers(body, "longitude");
  }

  function AddAnswer(outcome: Result<Header, DbError>): (resp: Reply)
  {
    match outcome
    case Ok(_) => Added
    case Err(_) => InternalError
  }

  /** The add handler, given what `addSchool` returns or throws if it is called. */
  function HandleAdd(body: Body, outcome: Result<Header, DbError>): (resp: Reply)
    ensures resp.status == 400 <==> !AddAccepts(body)
    ensures resp.status == 400 ==> resp.payload == Errors(AddErrors(body))
    ensures resp.status == 201 <==> AddAccepts(body) && outcome.Ok?
    ensures resp.status == 500 <==> AddAccepts(body) && outcome.Err?
    ensures resp.status == 201 ==> resp == Added
    ensures resp.status == 500 ==> resp == InternalError
  {
    match AddPlan(body)
    case Reject(r) => r
    case Call(_) => AddAnswer(outcome)
  }

  // ---------------------------------------------------------------------------
  // GET /listSchools

  function ListPlan(query: Body): (pl: Plan<Point>)
    ensures pl.Reject? <==> !ListAccepts(query)
    ensures pl.Reject? ==> pl.reply == Reply(400, Errors(ListErrors(query))) && ListErrors(query) != []
    ensures pl.Call? ==>
      && Some(pl.arg.latitude) == Reading(Get(query, "latitude"))
      && Some(pl.arg.longitude) == Reading(Get(query, "longitude"))
      && -90.0 <= pl.arg.latitude <= 90.0 && -180.0 <= pl.arg.longitude <= 180.0
  {
    var errs := ListErrors(query);
    if errs != [] then Reject(Reply(400, Errors(errs)))
    else Call(Point(Reading(Get(query, "latitude")).value, Reading(Get(query, "longitude")).value))
  }

  /** The fetched rows, sorted by distance from the point (ties in fetched order). */
  function ListAnswer(p: Point, outcome: Result<seq<School>, DbError>): (resp: Reply)
    ensures outcome.Err? <==> resp == InternalError
    ensures outcome.Ok? ==> resp.status == 200 && resp.payload.Schools?
    ensures outcome.Ok? ==> var out := resp.payload.schools;
      && multiset(out) == multiset(outcome.value)
      && Sorted(out, p)
      && forall d :: Class(out, p, d) == Class(outcome.value, p, d)
  {
    match outcome
    case Err(_) => InternalError
    case Ok(rows) =>
      SortSorted(rows, p);
      SortPermutes(rows, p);
      assert forall d :: Class(Sort(rows, p), p, d) == Class(rows, p, d) by {
        forall d ensures Class(Sort(rows, p), p, d) == Class(rows, p, d) {
          SortKeepsClasses(rows, p, d);
        }
      }
      Reply(200, Schools(Sort(rows, p)))
  }

  function HandleList(query: Body, outcome: Result<seq<School>, DbError>): (resp: Reply)
    ensures resp.status == 400 <==> !ListAccepts(query)
    ensures resp.status == 400 ==> resp.payload == Errors(ListErrors(query))
    ensures resp.status == 500 <==> ListAccepts(query) && outcome.Err?
    ensures resp.status == 500 ==> resp == InternalError
    ensures resp.status == 200 <==> ListAccepts(query) && outcome.Ok?
  {
    match ListPlan(query)
    case Reject(r) => r
    case Call(p) => ListAnswer(p, outcome)
  }

  // ---------------------------------------------------------------------------
  // PUT /updateSchool/:id

  /** `updateData.id && Number(updateData.id) !== Number(id)`. */
  predicate Mismatch(id: int, body: Body)
  {
    Truthy(Get(body, "id")) && NumberOf(Get(body, "id")) != Some(id as real)
  }

  function UpdatePlan(id: Option<int>, body: Body): (pl: Plan<(int, Body)>)
    ensures pl.Reject? <==> !UpdateAccepts(id, body) || Mismatch(id.value, body)
    ensures !UpdateAccepts(id, body) ==> pl.reply == Reply(400, Errors(UpdateErrors(id, body)))
    ensures UpdateAccepts(id, body) && Mismatch(id.value, body) ==> pl.reply == IdMismatch
    ensures pl.Call? ==> pl.arg == (id.value, Sanitized(body))
  {
    var errs := UpdateErrors(id, body);
    if errs != [] then Reject(Reply(400, Errors(errs)))
    else
      var updateData := Sanitized(body);
      SanitizedKeepsOthers(body, "id");
      if Mismatch(id.value, updateData) then Reject(IdMismatch)
      else Call((id.value, updateData))
  }

  /** `affectedRows === 0` is 404; any other count is success. */
  function ChangeAnswer(outcome: Result<Header, DbError>, success: Reply): (resp: Reply)
  {
    match outcome
    case Err(_) => InternalError
    case Ok(h) => if h.affectedRows == 0 then NotFound else success
  }

  function HandleUpdate(id: Option<int>, body: Body, outcome: Result<Header, DbError>): (resp: Reply)
    ensures resp.status == 400 <==> !UpdateAccepts(id, body) || Mismatch(id.value, body)
    ensures resp.status == 404 <==> UpdateAccepts(id, body) && !Mismatch(id.value, body)
                                    && outcome.Ok? && outcome.value.affectedRows == 0
    ensures resp.status == 200 <==> UpdateAccepts(id, body) && !Mismatch(id.value, body)
                                    && outcome.Ok? && outcome.value.affectedRows != 0
    ensures resp.status == 500 <==> UpdateAccepts(id, body) && !Mismatch(id.value, body) && outcome.Err?
    ensures resp.status == 500 ==> resp == InternalError
    ensures resp.status == 404 ==> resp == NotFound
    ensures resp.status == 200 ==> resp == Updated
  {
    match UpdatePlan(id, body)
    case Reject(r) => r
    case Call(_) => ChangeAnswer(outcome, Updated)
  }

  // ---------------------------------------------------------------------------
  // DELETE /deleteSchool/:id

  function DeletePlan(id: Option<int>): (pl: Plan<int>)
  {
    var errs := DeleteErrors(id);
    if errs != [] then Reject(Reply(400, Errors(errs))) else Call(id.value)
  }

  function HandleDelete(id: Option<int>, outcome: Result<Header, DbError>): (resp: Reply)
    ensures resp.status == 400 <==> id.None?
    ensures resp.status == 404 <==> id.Some? && outcome.Ok? && outcome.value.affectedRows == 0
    ensures resp.status == 200 <==> id.Some? && outcome.Ok? && outcome.value.affectedRows != 0
    ensures resp.status == 500 <==> id.Some? && outcome.Err?
    ensures resp.status == 400 ==> resp.payload == Errors([Violation(PathParam, "id", IdMessage)])
    ensures resp.status == 404 ==> resp == NotFound
    ensures resp.status == 500 ==> resp == InternalError
    ensures resp.status == 200 ==> resp == Deleted
  {
    match DeletePlan(id)
    case Reject(r) => r
    case Call(_) => ChangeAnswer(outcome, Deleted)
  }

  // ---------------------------------------------------------------------------
  // The handlers run against the table

  method ServeAdd(db: Table, body: Body, fault: Option<DbError>) returns (resp: Reply)
    requires db.Valid()
    modifies db
    ensures db.Valid()
    ensures AddPlan(body).Reject? ==> resp == AddPlan(body).reply && db.Snapshot() == old(db.Snapshot())
    ensures AddPlan(body).Call? ==>
      var (st', r) := Run(old(db.Snapshot()), fault, InsertMeaning(old(db.Snapshot()), InsertStatement(AddPlan(body).arg).params));
      db.Snapshot() == st' && resp == HandleAdd(body, r)
  {
    match AddPlan(body)
    case Reject(r) =>
      resp := r;
    case Call(school) =>
      var r := AddSchool(db, school, fault);
      resp := AddAnswer(r);
  }

  /** The list handler: the fetched rows are copied into an array and sorted in place. */
  method ServeList(db: Table, query: Body, fault: Option<DbError>) returns (resp: Reply)
    requires db.Valid()
    ensures ListPlan(query).Reject? ==> resp == ListPlan(query).reply
    ensures ListPlan(query).Call? && fault.Some? ==> resp == InternalError
    ensures ListPlan(query).Call? && fault.None? ==>
      resp.status == 200 && resp.payload.Schools?
      && IdsOf(resp.payload.schools) == db.rows.Keys
      && Sorted(resp.payload.schools, ListPlan(query).arg)
      && (forall i :: 0 <= i < |resp.payload.schools| ==> resp.payload.schools[i] in db.rows.Values)
      && (forall i, j :: 0 <= i < j < |resp.payload.schools| ==>
            resp.payload.schools[i].id != resp.payload.schools[j].id)
      && exists rows :: resp == HandleList(query, Ok(rows)) && IdsOf(rows) == db.rows.Keys
  {
    match ListPlan(query)
    case Reject(r) =>
      resp := r;
    case Call(p) =>
      var fetched := GetAllSchools(db, fault);
      if fetched.Err? {
        resp := ListAnswer(p, fetched);
      } else {
        var rows := fetched.value;
        var a := new School[|rows|](i requires 0 <= i < |rows| => rows[i]);
        assert a[..] == rows;
        SortByDistance(a, p);
        var sorted := a[..];
        resp := Reply(200, Schools(sorted));
        assert resp == ListAnswer(p, Ok(rows));
        SortPermutes(rows, p);
        ReorderedListing(rows, sorted, db.rows);
        assert resp == HandleList(query, Ok(rows));
      }
  }

  /** A reordering of a listing of the table is a listing of the table. */
  lemma ReorderedListing(rows: seq<School>, sorted: seq<School>, stored: map<int, School>)
    requires multiset(rows) == multiset(sorted)
    requires IdsOf(rows) == stored.Keys
    requires forall i :: 0 <= i < |rows| ==> rows[i] in stored.Values
    requires forall i, j :: 0 <= i < j < |rows| ==> rows[i].id != rows[j].id
    ensures IdsOf(sorted) == stored.Keys
    ensures forall i :: 0 <= i < |sorted| ==> sorted[i] in stored.Values
    ensures forall i, j :: 0 <= i < j < |sorted| ==> sorted[i].id != sorted[j].id
  {
    SameElementsSameIds(rows, sorted);
    PermutationKeepsDistinctIds(rows, sorted);
    forall i | 0 <= i < |sorted| ensures sorted[i] in stored.Values {
      assert sorted[i] in rows;
      var j :| 0 <= j < |rows| && rows[j] == sorted[i];
    }
  }

  /** Rows that are a permutation of each other carry the same ids and come from the same set. */
  lemma SameElementsSameIds(xs: seq<School>, ys: seq<School>)
    requires multiset(xs) == multiset(ys)
    ensures IdsOf(xs) == IdsOf(ys)
    ensures forall s :: s in xs <==> s in ys
  {
    forall s ensures s in xs <==> s in ys {
      assert s in xs <==> s in multiset(xs);
      assert s in ys <==> s in multiset(ys);
    }
    forall k | k in IdsOf(xs) ensures k in IdsOf(ys) {
      var i :| 0 <= i < |xs| && xs[i].id == k;
      assert xs[i] in ys;
      var j :| 0 <= j < |ys| && ys[j] == xs[i];
    }
    forall k | k in IdsOf(ys) ensures k in IdsOf(xs) {
      var j :| 0 <= j < |ys| && ys[j].id == k;
      assert ys[j] in xs;
      var i :| 0 <= i < |xs| && xs[i] == ys[j];
    }
  }

  /** Rows with distinct ids hold each row once. */
  lemma {:induction false} DistinctIdsOnce(xs: seq<School>, v: School)
    requires forall i, j :: 0 <= i < j < |xs| ==> xs[i].id != xs[j].id
    ensures multiset(xs)[v] <= 1
  {
    if xs != [] {
      var n := |xs| - 1;
      var init := xs[..n];
      assert xs == init + [xs[n]];
      DistinctIdsOnce(init, v);
      assert forall k :: 0 <= k < n ==> init[k].id != xs[n].id;
      assert xs[n] !in init;
    }
  }

  /** Two positions of a list that holds each row at most once hold different rows. */
  lemma OnceApart(ys: seq<School>, i: int, j: int)
    requires 0 <= i < j < |ys|
    requires forall v :: multiset(ys)[v] <= 1
    ensures ys[i] != ys[j]
  {
    assert ys == ys[..j] + [ys[j]] + ys[j + 1..];
    assert ys[i] in ys[..j];
    assert multiset(ys)[ys[j]] == multiset(ys[..j])[ys[j]] + 1 + multiset(ys[j + 1..])[ys[j]];
  }

  /** A reordering of rows with distinct ids still has distinct ids. */
  lemma PermutationKeepsDistinctIds(xs: seq<School>, ys: seq<School>)
    requires multiset(xs) == multiset(ys)
    requires forall i, j :: 0 <= i < j < |xs| ==> xs[i].id != xs[j].id
    ensures forall i, j :: 0 <= i < j < |ys| ==> ys[i].id != ys[j].id
  {
    forall v ensures multiset(ys)[v] <= 1 {
      DistinctIdsOnce(xs, v);
    }
    forall i, j | 0 <= i < j < |ys| ensures ys[i].id != ys[j].id {
      OnceApart(ys, i, j);
      assert ys[i] in multiset(xs) && ys[j] in multiset(xs);
      var a :| 0 <= a < |xs| && xs[a] == ys[i];
      var b :| 0 <= b < |xs| && xs[b] == ys[j];
      assert a != b;
    }
  }

  method ServeUpdate(db: Table, id: Option<int>, body: Body, fault: Option<DbError>) returns (resp: Reply)
    requires db.Valid()
    modifies db
    ensures db.Valid()
    ensures UpdatePlan(id, body).Reject? ==> resp == UpdatePlan(id, body).reply && db.Snapshot() == old(db.Snapshot())
    ensures UpdatePlan(id, body).Call? ==>
      var (k, updateData) := UpdatePlan(id, body).arg;
      var (st', r) := Run(old(db.Snapshot()), fault,
                          UpdateMeaning(old(db.Snapshot()), Keys(updateData), UpdateParams(updateData, k)));
      db.Snapshot() == st' && resp == HandleUpdate(id, body, r)
  {
    match UpdatePlan(id, body)
    case Reject(r) =>
      resp := r;
    case Call((k, updateData)) =>
      var r := UpdateSchool(db, k, updateData, fault);
      resp := ChangeAnswer(r, Updated);
  }

  method ServeDelete(db: Table, id: Option<int>, fault: Option<DbError>) returns (resp: Reply)
    requires db.Valid()
    modifies db
    ensures db.Valid()
    ensures id.None? ==> resp == DeletePlan(id).reply && db.Snapshot() == old(db.Snapshot())
    ensures id.Some? ==>
      var (st', r) := Run(old(db.Snapshot()), fault, DeleteMeaning(old(db.Snapshot()), DeleteStatement(id.value).params));
      db.Snapshot() == st' && resp == HandleDelete(id, r)
  {
    match DeletePlan(id)
    case Reject(r) =>
      resp := r;
    case Call(k) =>
      var r := DeleteSchool(db, k, fault);
      resp := ChangeAnswer(r, Deleted);
  }

  // ---------------------------------------------------------------------------
  // What the table holds when every row came in through the handlers

  /** A text as the validation chains let it through: trimmed and not empty. */
  ghost predicate StoredText(s: string)
  {
    s != [] && !IsSpace(s[0]) && !IsSpace(s[|s| - 1])
  }

  /** A row as addSchool and updateSchool store it. */
  ghost predicate StoredRow(r: School)
  {
    && StoredText(r.name) && StoredText(r.address)
    && -90.0 <= r.latitude <= 90.0 && -180.0 <= r.longitude <= 180.0
  }

  ghost predicate AllStored(st: State)
  {
    forall k :: k in st.rows ==> StoredRow(st.rows[k])
  }

  /** Fields that passed addSchool's chains, after sanitizing. */
  ghost predicate StorableFields(f: SchoolFields)
  {
    && f.name.Str? && StoredText(f.name.s) && f.address.Str? && StoredText(f.address.s)
    && FloatIn(f.latitude, -90.0, 90.0) && FloatIn(f.longitude, -180.0, 180.0)
  }

  /** Inserting storable fields always succeeds and adds a stored row. */
  lemma InsertKeepsRowsStored(st: State, f: SchoolFields)
    requires Consistent(st) && AllStored(st) && StorableFields(f)
    ensures var r := InsertMeaning(st, InsertStatement(f).params);
      r.Ok? && AllStored(r.value.0)
  {
    var params := InsertStatement(f).params;
    assert TextOf(params[0]) == Some(f.name.s) && TextOf(params[1]) == Some(f.address.s);
    var r := InsertMeaning(st, params);
    var st' := r.value.0;
    assert StoredRow(st'.rows[st.nextId]);
    forall k | k in st'.rows ensures StoredRow(st'.rows[k]) {
      if k != st.nextId { assert st'.rows[k] == st.rows[k]; }
    }
  }

  /** A body the add chains accept gives storable fields once sanitized. */
  lemma AcceptedAddIsStorable(body: Body)
    requires AddAccepts(body)
    ensures StorableFields(FieldsOf(Sanitized(body)))
  {
    SanitizedText(body, "name");
    SanitizedText(body, "address");
    SanitizedKeepsOthers(body, "latitude");
    SanitizedKeepsOthers(body, "longitude");
  }

  /** An accepted POST /addSchool always inserts, and the row it inserts is a stored row. */
  lemma AddKeepsRowsStored(st: State, body: Body)
    requires Consistent(st) && AllStored(st) && AddPlan(body).Call?
    ensures var r := InsertMeaning(st, InsertStatement(AddPlan(body).arg).params);
      r.Ok? && AllStored(r.value.0)
  {
    AcceptedAddIsStorable(body);
    InsertKeepsRowsStored(st, AddPlan(body).arg);
  }

  /** A text column after an accepted update: untouched, or set to the body's (stored) text. */
  lemma TextColumnStored(d: Body, key: string, c: Column, was: string, now: string)
    requires (key == "name" && c == Name) || (key == "address" && c == Address)
    requires WellFormed(d) && (Get(d, key).Absent? || (Get(d, key).Str? && StoredText(Get(d, key).s)))
    requires StoredText(was)
    requires key !in Keys(d) ==> now == was
    requires forall i :: 0 <= i < |d| && d[i].0 == key ==> Convert(c, d[i].1) == Some(TextCell(now))
    ensures StoredText(now)
  {
    if key in Keys(d) {
      var i :| 0 <= i < |d| && Keys(d)[i] == key;
      GetAt(d, i);
    }
  }

  /** A coordinate column after an accepted update: untouched, or set to the body's value in range. */
  lemma RealColumnStored(d: Body, key: string, c: Column, lo: real, hi: real, was: real, now: real)
    requires (key == "latitude" && c == Latitude) || (key == "longitude" && c == Longitude)
    requires WellFormed(d) && (Get(d, key).Absent? || FloatIn(Get(d, key), lo, hi))
    requires lo <= was <= hi
    requires key !in Keys(d) ==> now == was
    requires forall i :: 0 <= i < |d| && d[i].0 == key ==> Convert(c, d[i].1) == Some(RealCell(now))
    ensures lo <= now <= hi
  {
    if key in Keys(d) {
      var i :| 0 <= i < |d| && Keys(d)[i] == key;
      GetAt(d, i);
    }
  }

  /** A sanitized update body whose present fields are all storable. */
  ghost predicate StorableUpdate(d: Body)
  {
    && WellFormed(d)
    && (Get(d, "name").Absent? || (Get(d, "name").Str? && StoredText(Get(d, "name").s)))
    && (Get(d, "address").Absent? || (Get(d, "address").Str? && StoredText(Get(d, "address").s)))
    && (Get(d, "latitude").Absent? || FloatIn(Get(d, "latitude"), -90.0, 90.0))
    && (Get(d, "longitude").Absent? || FloatIn(Get(d, "longitude"), -180.0, 180.0))
  }

  /** A text field that is absent or valid is absent or storable after sanitizing. */
  lemma SanitizedTextStorable(body: Body, key: string)
    requires key == "name" || key == "address"
    requires Get(body, key).Absent? || GoodText(Get(body, key))
    ensures var v := Get(Sanitized(body), key); v.Absent? || (v.Str? && StoredText(v.s))
  {
    SanitizedTrims(body, key);
    if !Get(body, key).Absent? { SanitizedText(body, key); }
  }

  /** A coordinate that is absent or in range stays so after sanitizing. */
  lemma SanitizedCoordinateStorable(body: Body, key: string, lo: real, hi: real)
    requires key != "name" && key != "address"
    requires Get(body, key).Absent? || FloatIn(Get(body, key), lo, hi)
    ensures var v := Get(Sanitized(body), key); v.Absent? || FloatIn(v, lo, hi)
  {
    SanitizedKeepsOthers(body, key);
  }

  /** A body the update chains accept is storable once sanitized. */
  lemma AcceptedUpdateIsStorable(id: Option<int>, body: Body)
    requires WellFormed(body) && UpdateAccepts(id, body)
    ensures StorableUpdate(Sanitized(body))
  {
    SanitizedTextStorable(body, "name");
    SanitizedTextStorable(body, "address");
    SanitizedCoordinateStorable(body, "latitude", -90.0, 90.0);
    SanitizedCoordinateStorable(body, "longitude", -180.0, 180.0);
  }

  /** The row a storable update writes is a stored row when the row it replaces was one. */
  lemma UpdatedRowStored(d: Body, was: School, row: School)
    requires StorableUpdate(d) && StoredRow(was)
    requires forall c :: ColumnName(c) !in Keys(d) ==> CellOf(row, c) == CellOf(was, c)
    requires forall i, c :: 0 <= i < |d| && ColumnName(c) == d[i].0 ==> Convert(c, d[i].1) == Some(CellOf(row, c))
    ensures StoredRow(row)
  {
    assert CellOf(row, Name) == TextCell(row.name) && CellOf(was, Name) == TextCell(was.name);
    assert CellOf(row, Address) == TextCell(row.address) && CellOf(was, Address) == TextCell(was.address);
    assert CellOf(row, Latitude) == RealCell(row.latitude) && CellOf(was, Latitude) == RealCell(was.latitude);
    assert CellOf(row, Longitude) == RealCell(row.longitude) && CellOf(was, Longitude) == RealCell(was.longitude);
    TextColumnStored(d, "name", Name, was.name, row.name);
    TextColumnStored(d, "address", Address, was.address, row.address);
    RealColumnStored(d, "latitude", Latitude, -90.0, 90.0, was.latitude, row.latitude);
    RealColumnStored(d, "longitude", Longitude, -180.0, 180.0, was.longitude, row.longitude);
  }

  /** The table after a successful update of an existing row, given that the new row is a stored row. */
  lemma UpdateOfStoredRow(st: State, id: int, d: Body)
    requires Consistent(st) && AllStored(st) && WellFormed(d) && id in st.rows
    requires UpdateMeaning(st, Keys(d), UpdateParams(d, id)).Ok?
    requires IdAfter(d, id).Some?
    requires var st' := UpdateMeaning(st, Keys(d), UpdateParams(d, id)).value.0;
      IdAfter(d, id).value in st'.rows && StoredRow(st'.rows[IdAfter(d, id).value])
    ensures AllStored(UpdateMeaning(st, Keys(d), UpdateParams(d, id)).value.0)
  {
    var st' := UpdateMeaning(st, Keys(d), UpdateParams(d, id)).value.0;
    var newId := IdAfter(d, id).value;
    UpdateTouchesOnlyNamedColumns(st, d, id);
    UpdateKeepsOtherRows(st, d, id);
    forall k | k in st'.rows ensures StoredRow(st'.rows[k]) {
      if k != newId { assert k in st.rows && k != id; }
    }
  }

  /** An accepted PUT /updateSchool/:id that succeeds leaves only stored rows behind. */
  lemma UpdateKeepsRowsStored(st: State, id: int, body: Body)
    requires Consistent(st) && AllStored(st) && WellFormed(body)
    requires UpdatePlan(Some(id), body).Call?
    requires UpdateMeaning(st, Keys(Sanitized(body)), UpdateParams(Sanitized(body), id)).Ok?
    ensures AllStored(UpdateMeaning(st, Keys(Sanitized(body)), UpdateParams(Sanitized(body), id)).value.0)
  {
    var d := Sanitized(body);
    AcceptedUpdateIsStorable(Some(id), body);
    if id !in st.rows {
      UpdateOfMissingRow(st, d, id);
    } else {
      UpdateTouchesOnlyNamedColumns(st, d, id);
      var st' := UpdateMeaning(st, Keys(d), UpdateParams(d, id)).value.0;
      var newId := IdAfter(d, id).value;
      UpdatedRowStored(d, st.rows[id], st'.rows[newId]);
      UpdateOfStoredRow(st, id, d);
    }
  }

  // ---------------------------------------------------------------------------
  // A falsy `id` in the body

  /**
   * The mismatch check only looks at a truthy body id: a body `{ "id": 0 }`
   * sent to `/updateSchool/:id` passes it, and the update then files the row
   * under id 0.
   */
  lemma ZeroBodyIdRenumbersRow(st: State, id: int)
    requires Consistent(st) && id in st.rows && 0 !in st.rows
    ensures var body := [("id", Num(0.0))];
      && UpdatePlan(Some(id), body) == Call((id, body))
      && var r := UpdateMeaning(st, Keys(body), UpdateParams(body, id));
         && r.Ok? && r.value.1.affectedRows == 1
         && id !in r.value.0.rows && 0 in r.value.0.rows
  {
    var body := [("id", Num(0.0))];
    assert Get(body, "id") == Num(0.0);
    assert Get(body, "name").Absent? && Get(body, "address").Absent?;
    assert Get(body, "latitude").Absent? && Get(body, "longitude").Absent?;
    assert Sanitized(body) == body;
    assert UpdateAccepts(Some(id), body) && !Mismatch(id, body);
    var params := UpdateParams(body, id);
    assert Keys(body) == ["id"] && params == [Num(0.0), Num(id as real)];
    var keys := Keys(body);
    assert keys[0] == "id" && keys[1..] == [];
    assert ColumnNamed(keys[0]) == Some(Id);
    assert Columns(keys[1..]) == Ok([]);
    assert Columns(keys) == Ok([Id] + []);
    assert AssignAll(st.rows[id], [Id], params) == Ok(st.rows[id].(id := 0));
    UpdateTouchesOnlyNamedColumns(st, body, id);
    UpdateKeepsOtherRows(st, body, id);
  }
}
