/**
 * The data-access layer: the `School` record, the statements each repository
 * function sends to the connection pool (text and bound values), and what
 * those statements do to the `schools` table, read as an abstract table
 * of rows keyed by id.
 */
module SchoolModel {
  import opened Wrappers
  import opened Values
  import opened SqlText

  /** A row of the `schools` table, as `SELECT *` returns it. */
  datatype School = School(id: int, name: string, address: string, latitude: real, longitude: real)

  /**
   * The object handed to `addSchool`: the four request values exactly as the
   * handler took them from the body (TypeScript's types are not checked at run time).
   */
  datatype SchoolFields = SchoolFields(name: Value, address: Value, latitude: Value, longitude: Value)

  /** A statement for `pool.execute`: text with `?` placeholders and the values bound to them, in order. */
  datatype Statement = Statement(sql: string, params: seq<Value>)

  datatype Column = Id | Name | Address | Latitude | Longitude

  /** What the pool, or the table behind it, rejects a statement with. */
  datatype DbError =
    | PoolFailure(code: string)      // connection lost, pool closed: reported by the pool itself
    | SyntaxError                    // the statement does not parse (an empty SET list)
    | UnknownColumn(name: string)
    | BadValue(column: Column)       // a value the column cannot hold
    | DuplicateId(id: int)
    | ArgumentCount                  // placeholders and bound values differ in number

  /** The result header of an INSERT, UPDATE or DELETE. */
  datatype Header = Header(affectedRows: nat, insertId: int)

  /** The table's contents and its AUTO_INCREMENT counter. */
  datatype State = State(rows: map<int, School>, nextId: int)

  /** What the table holds in one column of a row. */
  datatype Cell = IntCell(n: int) | TextCell(s: string) | RealCell(x: real)

  // ---------------------------------------------------------------------------
  // Columns and the conversion of bound values into them

  function ColumnName(c: Column): string
  {
    match c
    case Id => "id"
    case Name => "name"
    case Address => "address"
    case Latitude => "latitude"
    case Longitude => "longitude"
  }

  /** The column a key of `updateData` names (column names are matched exactly). */
  function ColumnNamed(key: string): (c: Option<Column>)
    ensures forall d :: ColumnName(d) == key ==> c == Some(d)
    ensures c.Some? ==> ColumnName(c.value) == key
  {
    if key == "id" then Some(Id)
    else if key == "name" then Some(Name)
    else if key == "address" then Some(Address)
    else if key == "latitude" then Some(Latitude)
    else if key == "longitude" then Some(Longitude)
    else None
  }

  /** An integer a bound value stands for, if it stands for one. */
  function IntOf(v: Value): (n: Option<int>)
    ensures v.Num? && v.x == v.x.Floor as real ==> n == Some(v.x.Floor)
    ensures v.Absent? || v.Null? || v.Obj? ==> n.None?
  {
    match v
    case Num(x) => if x == x.Floor as real then Some(x.Floor) else None
    case Str(_, Some(x)) => if x == x.Floor as real then Some(x.Floor) else None
    case Bool(b) => Some(if b then 1 else 0)
    case _ => None
  }

  function TextOf(v: Value): Option<string>
  {
    if v.Str? then Some(v.s) else None
  }

  predicate Fits(c: Column, cell: Cell)
  {
    match c
    case Id => cell.IntCell?
    case Name => cell.TextCell?
    case Address => cell.TextCell?
    case Latitude => cell.RealCell?
    case Longitude => cell.RealCell?
  }

  /** How a bound value is stored into a column (`None`: the column rejects it). */
  function Convert(c: Column, v: Value): (cell: Option<Cell>)
    ensures cell.Some? ==> Fits(c, cell.value)
  {
    match c
    case Id => if IntOf(v).Some? then Some(IntCell(IntOf(v).value)) else None
    case Name => if TextOf(v).Some? then Some(TextCell(TextOf(v).value)) else None
    case Address => if TextOf(v).Some? then Some(TextCell(TextOf(v).value)) else None
    case Latitude => if Reading(v).Some? then Some(RealCell(Reading(v).value)) else None
    case Longitude => if Reading(v).Some? then Some(RealCell(Reading(v).value)) else None
  }

  function CellOf(r: School, c: Column): (cell: Cell)
    ensures Fits(c, cell)
  {
    match c
    case Id => IntCell(r.id)
    case Name => TextCell(r.name)
    case Address => TextCell(r.address)
    case Latitude => RealCell(r.latitude)
    case Longitude => RealCell(r.longitude)
  }

  /** The row with column `c` set to `cell`. */
  function Put(r: School, c: Column, cell: Cell): (r': School)
    requires Fits(c, cell)
    ensures CellOf(r', c) == cell
    ensures forall d :: d != c ==> CellOf(r', d) == CellOf(r, d)
  {
    match c
    case Id => r.(id := cell.n)
    case Name => r.(name := cell.s)
    case Address => r.(address := cell.s)
    case Latitude => r.(latitude := cell.x)
    case Longitude => r.(longitude := cell.x)
  }

  // ---------------------------------------------------------------------------
  // Statement text and parameters (addSchool, updateSchool, deleteSchool)

  /**
   * `INSERT INTO schools (name, address, latitude, longitude) VALUES (?, ?, ?, ?)`,
   * written in pieces so that the verifier can reason about each of them.
   */
  const InsertSql := InsertHead + "?, ?, ?, ?)"
  const DeleteSql := "DELETE FROM schools WHERE id = ?"
  const UpdatePrefix := "UPDATE schools SET "
  const UpdateSuffix := " WHERE id = ?"

  /** The columns of the INSERT's column list, in the order of its placeholders. */
  const InsertColumns := [Name, Address, Latitude, Longitude]

  /** `key = ?` for every key (the `map` of the SET clause). */
  function Assignments(keys: seq<string>): seq<string>
  {
    seq(|keys|, i requires 0 <= i < |keys| => keys[i] + " = ?")
  }

  /** The SET list built from the keys of `updateData`. */
  function SetClause(keys: seq<string>): string
  {
    Join(Assignments(keys), ", ")
  }

  function UpdateSql(keys: seq<string>): string
  {
    UpdatePrefix + SetClause(keys) + UpdateSuffix
  }

  /** `Object.values(updateData)` with the id pushed at the end. */
  function UpdateParams(updateData: Body, id: int): seq<Value>
  {
    ValuesOf(updateData) + [Num(id as real)]
  }

  /** The INSERT's text up to its first placeholder. */
  const InsertHead := "INSERT INTO schools (" + "name, address, " + "latitude, longitude) " + "VALUES ("

  lemma InsertHeadIsPlain()
    ensures '?' !in InsertHead
  {
    assert '?' !in "INSERT INTO schools (" && '?' !in "name, address, ";
    assert '?' !in "latitude, longitude) " && '?' !in "VALUES (";
  }

  lemma InsertSqlShape()
    ensures InsertSql == InsertHead + "?" + (", " + "?" + (", " + "?" + (", " + "?" + ")")))
  {
  }

  lemma InsertSqlSegments()
    ensures Segments(InsertSql) == [InsertHead, ", ", ", ", ", ", ")"]
  {
    var t3 := ", " + "?" + ")";
    var t2 := ", " + "?" + t3;
    var t1 := ", " + "?" + t2;
    InsertSqlShape();
    InsertHeadIsPlain();
    SegmentsOfPlainText(")");
    PlainThenMark(", ", ")");
    PlainThenMark(", ", t3);
    PlainThenMark(", ", t2);
    PlainThenMark(InsertHead, t1);
  }

  /** addSchool's statement: four placeholders bound, in order, to the four columns it names. */
  function InsertStatement(school: SchoolFields): (st: Statement)
    ensures Placeholders(st.sql) == |st.params| == |InsertColumns|
    ensures Segments(st.sql) == [InsertHead, ", ", ", ", ", ", ")"]
    ensures st.params == [school.name, school.address, school.latitude, school.longitude]
  {
    InsertSqlSegments();
    SegmentsCount(InsertSql);
    Statement(InsertSql, [school.name, school.address, school.latitude, school.longitude])
  }

  /** The DELETE's text before its placeholder. */
  const DeleteHead := "DELETE FROM " + "schools " + "WHERE id = "

  lemma DeleteSqlSegments()
    ensures Segments(DeleteSql) == [DeleteHead, ""]
  {
    assert '?' !in "DELETE FROM " && '?' !in "schools " && '?' !in "WHERE id = ";
    assert DeleteSql == DeleteHead + "?" + "";
    PlainThenMark(DeleteHead, "");
  }

  /** deleteSchool's statement: its one placeholder, after `WHERE id = `, is bound to the id. */
  function DeleteStatement(id: int): (st: Statement)
    ensures Placeholders(st.sql) == |st.params| == 1
    ensures Segments(st.sql) == [DeleteHead, ""]
    ensures st.params == [Num(id as real)]
  {
    DeleteSqlSegments();
    SegmentsCount(DeleteSql);
    Statement(DeleteSql, [Num(id as real)])
  }

  /** The texts before the placeholders of a SET list whose first piece starts with `lead`. */
  function Pieces(lead: string, keys: seq<string>): (r: seq<string>)
    ensures |r| == |keys|
    decreases |keys|
  {
    if keys == [] then [] else [lead + keys[0] + " = "] + Pieces(", ", keys[1..])
  }

  lemma {:induction false} PieceAt(lead: string, keys: seq<string>, i: nat)
    requires i < |keys|
    ensures Pieces(lead, keys)[i] == (if i == 0 then lead else ", ") + keys[i] + " = "
    decreases i
  {
    if i > 0 {
      PieceAt(", ", keys[1..], i - 1);
    }
  }

  /** The SET list of two or more keys: the first assignment, then the rest after a comma. */
  lemma SetClauseCons(keys: seq<string>)
    requires |keys| >= 2
    ensures SetClause(keys) == keys[0] + " = ?" + ", " + SetClause(keys[1..])
  {
    assert Assignments(keys)[1..] == Assignments(keys[1..]);
  }

  lemma RegroupOne(lead: string, k: string, w: string)
    ensures lead + (k + " = ?") + w == (lead + k + " = ") + "?" + w
  {
    assert k + " = ?" == k + " = " + "?";
  }

  lemma RegroupMany(lead: string, k: string, c: string, w: string)
    ensures lead + (k + " = ?" + ", " + c) + w == (lead + k + " = ") + "?" + (", " + c + w)
  {
    assert k + " = ?" == k + " = " + "?";
  }

  lemma PlainPiece(lead: string, k: string)
    requires '?' !in lead && '?' !in k
    ensures '?' !in lead + k + " = "
  {
    assert '?' !in " = ";
  }

  lemma SuffixSegments()
    ensures Segments(UpdateSuffix) == [" WHERE id = ", ""]
  {
    assert '?' !in " WHERE id = ";
    assert UpdateSuffix == " WHERE id = " + "?" + "";
    PlainThenMark(" WHERE id = ", "");
  }

  /** A SET list of one key, then the WHERE clause. */
  lemma LastKeySegments(lead: string, k: string)
    requires '?' !in lead && '?' !in k
    ensures Segments(lead + SetClause([k]) + UpdateSuffix) == [lead + k + " = "] + [" WHERE id = ", ""]
  {
    PlainPiece(lead, k);
    assert SetClause([k]) == k + " = ?";
    RegroupOne(lead, k, UpdateSuffix);
    PlainThenMark(lead + k + " = ", UpdateSuffix);
    SuffixSegments();
  }

  /** A SET list of two or more keys: the first piece, then the rest after a comma. */
  lemma FirstKeySegments(lead: string, keys: seq<string>)
    requires '?' !in lead && |keys| >= 2 && '?' !in keys[0]
    ensures Segments(lead + SetClause(keys) + UpdateSuffix)
         == [lead + keys[0] + " = "] + Segments(", " + SetClause(keys[1..]) + UpdateSuffix)
  {
    PlainPiece(lead, keys[0]);
    SetClauseCons(keys);
    RegroupMany(lead, keys[0], SetClause(keys[1..]), UpdateSuffix);
    PlainThenMark(lead + keys[0] + " = ", ", " + SetClause(keys[1..]) + UpdateSuffix);
  }

  lemma {:induction false} SetClauseSegments(lead: string, keys: seq<string>)
    requires '?' !in lead && keys != []
    requires forall i :: 0 <= i < |keys| ==> '?' !in keys[i]
    ensures Segments(lead + SetClause(keys) + UpdateSuffix) == Pieces(lead, keys) + [" WHERE id = ", ""]
    decreases |keys|
  {
    if |keys| == 1 {
      assert keys == [keys[0]];
      LastKeySegments(lead, keys[0]);
    } else {
      var rest := keys[1..];
      FirstKeySegments(lead, keys);
      assert forall i :: 0 <= i < |rest| ==> '?' !in rest[i] by {
        forall i | 0 <= i < |rest| ensures '?' !in rest[i] { assert rest[i] == keys[i + 1]; }
      }
      assert '?' !in ", ";
      SetClauseSegments(", ", rest);
    }
  }

  /**
   * The placeholders of updateSchool's statement line up with its values:
   * the text before placeholder `i` ends in `key_i = ` and value `i` is that
   * key's value, and the last placeholder, after `WHERE id = `, takes the id.
   * This holds as long as no key itself contains a `?`.
   */
  lemma UpdatePlaceholdersMatchValues(updateData: Body, id: int)
    requires forall i :: 0 <= i < |updateData| ==> '?' !in updateData[i].0
    ensures var segs := Segments(UpdateSql(Keys(updateData)));
            var vals := UpdateParams(updateData, id);
            var n := |updateData|;
      && Placeholders(UpdateSql(Keys(updateData))) == |vals| == n + 1
      && |segs| == n + 2
      && (forall i :: 0 <= i < n ==>
            segs[i] == (if i == 0 then UpdatePrefix else ", ") + updateData[i].0 + " = "
            && vals[i] == updateData[i].1)
      && segs[n] == (if n == 0 then "UPDATE schools SET  WHERE id = " else " WHERE id = ")
      && vals[n] == Num(id as real)
  {
    var keys := Keys(updateData);
    var q := UpdateSql(keys);
    assert '?' !in UpdatePrefix;
    if keys == [] {
      assert q == "UPDATE schools SET  WHERE id = " + "?" + "";
      assert '?' !in "UPDATE schools SET  WHERE id = ";
      PlainThenMark("UPDATE schools SET  WHERE id = ", "");
    } else {
      SetClauseSegments(UpdatePrefix, keys);
      forall i | 0 <= i < |keys| ensures Segments(q)[i] == (if i == 0 then UpdatePrefix else ", ") + keys[i] + " = " {
        PieceAt(UpdatePrefix, keys, i);
      }
    }
    SegmentsCount(q);
  }

  /** With no keys the statement is `UPDATE schools SET  WHERE id = ?`, which does not parse. */
  lemma EmptyUpdateIsRejected(st: State, id: int)
    ensures UpdateSql(Keys([])) == "UPDATE schools SET  WHERE id = ?"
    ensures UpdateMeaning(st, Keys([]), UpdateParams([], id)) == Err(SyntaxError)
  {
  }

  /**
   * updateSchool's statement, built as the source builds it: the SET list is
   * mapped and joined from the keys, the values are read off and the id is
   * pushed after them.
   */
  method BuildUpdate(id: int, updateData: Body) returns (query: string, values: seq<Value>)
    ensures query == UpdateSql(Keys(updateData))
    ensures |values| == |updateData| + 1 && values[|updateData|] == Num(id as real)
    ensures forall i :: 0 <= i < |updateData| ==> values[i] == updateData[i].1
    ensures (forall i :: 0 <= i < |updateData| ==> '?' !in updateData[i].0) ==> Placeholders(query) == |values|
  {
    var fields := SetClause(Keys(updateData));
    values := ValuesOf(updateData);
    values := values + [Num(id as real)];
    query := UpdatePrefix + fields + UpdateSuffix;
    if forall i :: 0 <= i < |updateData| ==> '?' !in updateData[i].0 {
      UpdatePlaceholdersMatchValues(updateData, id);
    }
  }

  // ---------------------------------------------------------------------------
  // What the statements do to the table

  /** Every row is filed under its own id, and the counter is above every id. */
  ghost predicate Consistent(st: State)
  {
    forall k :: k in st.rows ==> st.rows[k].id == k && k < st.nextId
  }

  /** The INSERT: one new row under the next AUTO_INCREMENT id. */
  function InsertMeaning(st: State, params: seq<Value>): (r: Result<(State, Header), DbError>)
    ensures r.Ok? <==> |params| == 4 && TextOf(params[0]).Some? && TextOf(params[1]).Some?
                       && Reading(params[2]).Some? && Reading(params[3]).Some?
    ensures r.Ok? ==> var (st', h) := r.value;
      && h == Header(1, st.nextId)
      && st'.rows.Keys == st.rows.Keys + {st.nextId}
      && st'.rows[st.nextId] == School(st.nextId, TextOf(params[0]).value, TextOf(params[1]).value,
                                       Reading(params[2]).value, Reading(params[3]).value)
      && (Consistent(st) ==>
            && st.nextId !in st.rows && Consistent(st')
            && forall k :: k in st.rows ==> st'.rows[k] == st.rows[k])
  {
    if |params| != 4 then Err(ArgumentCount)
    else if TextOf(params[0]).None? then Err(BadValue(Name))
    else if TextOf(params[1]).None? then Err(BadValue(Address))
    else if Reading(params[2]).None? then Err(BadValue(Latitude))
    else if Reading(params[3]).None? then Err(BadValue(Longitude))
    else
      var row := School(st.nextId, TextOf(params[0]).value, TextOf(params[1]).value,
                        Reading(params[2]).value, Reading(params[3]).value);
      Ok((State(st.rows[st.nextId := row], st.nextId + 1), Header(1, st.nextId)))
  }

  /** The columns the keys name, or the first key that names none. */
  function Columns(keys: seq<string>): (r: Result<seq<Column>, DbError>)
    ensures r.Ok? <==> forall i :: 0 <= i < |keys| ==> ColumnNamed(keys[i]).Some?
    ensures r.Ok? ==> |r.value| == |keys| && forall i :: 0 <= i < |keys| ==> ColumnName(r.value[i]) == keys[i]
  {
    if keys == [] then Ok([])
    else match ColumnNamed(keys[0])
      case None => Err(UnknownColumn(keys[0]))
      case Some(c) =>
        match Columns(keys[1..])
        case Err(e) => Err(e)
        case Ok(cs) => Ok([c] + cs)
  }

  /** The SET list applied left to right to one row. */
  function AssignAll(r: School, cols: seq<Column>, vals: seq<Value>): Result<School, DbError>
    requires |cols| <= |vals|
    decreases |cols|
  {
    if cols == [] then Ok(r)
    else match Convert(cols[0], vals[0])
      case None => Err(BadValue(cols[0]))
      case Some(cell) => AssignAll(Put(r, cols[0], cell), cols[1..], vals[1..])
  }

  /**
   * A SET list naming each column at most once leaves the columns it does not
   * name alone and stores into each named column its own value.
   */
  lemma {:induction false} AssignAllEffect(r: School, cols: seq<Column>, vals: seq<Value>)
    requires |cols| <= |vals|
    requires forall i, j :: 0 <= i < j < |cols| ==> cols[i] != cols[j]
    requires AssignAll(r, cols, vals).Ok?
    decreases |cols|
    ensures forall c :: c !in cols ==> CellOf(AssignAll(r, cols, vals).value, c) == CellOf(r, c)
    ensures forall i :: 0 <= i < |cols| ==>
              Convert(cols[i], vals[i]) == Some(CellOf(AssignAll(r, cols, vals).value, cols[i]))
  {
    if cols != [] {
      var cell := Convert(cols[0], vals[0]).value;
      var r1 := Put(r, cols[0], cell);
      AssignAllEffect(r1, cols[1..], vals[1..]);
      assert cols[0] !in cols[1..] by {
        forall j | 0 <= j < |cols[1..]| ensures cols[1..][j] != cols[0] { assert cols[1..][j] == cols[j + 1]; }
      }
      forall i | 1 <= i < |cols|
        ensures Convert(cols[i], vals[i]) == Some(CellOf(AssignAll(r, cols, vals).value, cols[i]))
      {
        assert cols[i] == cols[1..][i - 1] && vals[i] == vals[1..][i - 1];
      }
    }
  }

  /**
   * The UPDATE: `keys` are the columns of the SET list (the placeholders
   * before the last) and the last value is the id of the WHERE clause.
   */
  function UpdateMeaning(st: State, keys: seq<string>, params: seq<Value>): (r: Result<(State, Header), DbError>)
    ensures Consistent(st) && r.Ok? ==> Consistent(r.value.0)
    ensures r.Ok? ==> r.value.1.affectedRows <= 1
  {
    if keys == [] then Err(SyntaxError)
    else if |params| != |keys| + 1 then Err(ArgumentCount)
    else match Columns(keys)
      case Err(e) => Err(e)
      case Ok(cols) =>
        var target := IntOf(params[|keys|]);
        if target.None? || target.value !in st.rows then Ok((st, Header(0, 0)))
        else
          var k := target.value;
          match AssignAll(st.rows[k], cols, params)
          case Err(e) => Err(e)
          case Ok(row) =>
            if row.id != k && row.id in st.rows then Err(DuplicateId(row.id))
            else
              var next := if row.id + 1 > st.nextId then row.id + 1 else st.nextId;
              Ok((State((st.rows - {k})[row.id := row], next), Header(1, 0)))
  }

  /** The DELETE: the row whose id is bound is removed; `affectedRows` counts it. */
  function DeleteMeaning(st: State, params: seq<Value>): (r: Result<(State, Header), DbError>)
    ensures r.Ok? <==> |params| == 1
    ensures r.Ok? ==> var (st', h) := r.value;
      && st'.nextId == st.nextId
      && st'.rows.Keys <= st.rows.Keys
      && (forall k :: k in st'.rows ==> st'.rows[k] == st.rows[k])
      && (forall k :: k in st.rows && k !in st'.rows ==> IntOf(params[0]) == Some(k))
      && (IntOf(params[0]).Some? ==> IntOf(params[0]).value !in st'.rows)
      && h.affectedRows == |st.rows.Keys - st'.rows.Keys|
      && (Consistent(st) ==> Consistent(st'))
  {
    if |params| != 1 then Err(ArgumentCount)
    else
      var target := IntOf(params[0]);
      if target.Some? && target.value in st.rows then
        var k := target.value;
        assert st.rows.Keys - (st.rows - {k}).Keys == {k};
        Ok((State(st.rows - {k}, st.nextId), Header(1, 0)))
      else
        assert st.rows.Keys - st.rows.Keys == {};
        Ok((st, Header(0, 0)))
  }

  /** The statement deleteSchool runs on the table, outcome written out. */
  lemma DeleteOutcome(st: State, id: int)
    ensures DeleteMeaning(st, DeleteStatement(id).params)
         == if id in st.rows then Ok((State(st.rows - {id}, st.nextId), Header(1, 0))) else Ok((st, Header(0, 0)))
  {
    var params := DeleteStatement(id).params;
    assert IntOf(params[0]) == Some(id);
  }

  /** deleteSchool's statement removes exactly the row with that id, and reports it iff it was there. */
  lemma DeleteRemovesExactlyThatRow(st: State, id: int)
    ensures var r := DeleteMeaning(st, DeleteStatement(id).params);
      && r.Ok? && r.value.0.rows.Keys == st.rows.Keys - {id} && r.value.0.nextId == st.nextId
      && (forall k :: k in r.value.0.rows ==> r.value.0.rows[k] == st.rows[k])
      && (r.value.1.affectedRows == 1 <==> id in st.rows)
      && (r.value.1.affectedRows == 0 <==> id !in st.rows)
  {
    DeleteOutcome(st, id);
  }

  /** Where the updated row is filed afterwards: under the body's `id` when it sets one. */
  function IdAfter(updateData: Body, id: int): Option<int>
  {
    var v := Get(updateData, "id");
    if v.Absent? then Some(id) else IntOf(v)
  }

  /** The row an update of an existing id produces, and the table it leaves. */
  lemma UpdateUnfold(st: State, updateData: Body, id: int)
    requires WellFormed(updateData) && id in st.rows
    requires UpdateMeaning(st, Keys(updateData), UpdateParams(updateData, id)).Ok?
    ensures var params := UpdateParams(updateData, id);
            var cols := Columns(Keys(updateData));
            var (st', h) := UpdateMeaning(st, Keys(updateData), params).value;
      && cols.Ok? && (forall i, j :: 0 <= i < j < |cols.value| ==> cols.value[i] != cols.value[j])
      && AssignAll(st.rows[id], cols.value, params).Ok?
      && var row := AssignAll(st.rows[id], cols.value, params).value;
         && st'.rows == (st.rows - {id})[row.id := row]
         && h.affectedRows == 1
  {
    var keys := Keys(updateData);
    var params := UpdateParams(updateData, id);
    assert IntOf(params[|keys|]) == Some(id);
    var cols := Columns(keys).value;
    forall i, j | 0 <= i < j < |cols| ensures cols[i] != cols[j] {
      assert ColumnName(cols[i]) == updateData[i].0 && ColumnName(cols[j]) == updateData[j].0;
    }
  }

  /** Updating a missing id changes nothing and reports no row. */
  lemma UpdateOfMissingRow(st: State, updateData: Body, id: int)
    requires id !in st.rows
    requires UpdateMeaning(st, Keys(updateData), UpdateParams(updateData, id)).Ok?
    ensures UpdateMeaning(st, Keys(updateData), UpdateParams(updateData, id)).value == (st, Header(0, 0))
  {
    assert IntOf(UpdateParams(updateData, id)[|updateData|]) == Some(id);
  }

  /** Updating an existing id reports one row and leaves every other row as it was. */
  lemma UpdateKeepsOtherRows(st: State, updateData: Body, id: int)
    requires WellFormed(updateData) && id in st.rows
    requires UpdateMeaning(st, Keys(updateData), UpdateParams(updateData, id)).Ok?
    ensures var (st', h) := UpdateMeaning(st, Keys(updateData), UpdateParams(updateData, id)).value;
      && h.affectedRows == 1
      && forall k :: k in st.rows && k != id ==> k in st'.rows && st'.rows[k] == st.rows[k]
  {
    UpdateUnfold(st, updateData, id);
  }

  /** The columns of the row the SET list produces: the named ones get their values, the others stay. */
  lemma UpdatedRowColumns(r: School, updateData: Body, id: int)
    requires WellFormed(updateData)
    requires Columns(Keys(updateData)).Ok?
    requires var cols := Columns(Keys(updateData)).value;
      && (forall i, j :: 0 <= i < j < |cols| ==> cols[i] != cols[j])
      && AssignAll(r, cols, UpdateParams(updateData, id)).Ok?
    ensures var row := AssignAll(r, Columns(Keys(updateData)).value, UpdateParams(updateData, id)).value;
      && (forall c :: ColumnName(c) !in Keys(updateData) ==> CellOf(row, c) == CellOf(r, c))
      && (forall i, c :: 0 <= i < |updateData| && ColumnName(c) == updateData[i].0 ==>
            Convert(c, updateData[i].1) == Some(CellOf(row, c)))
  {
    var keys := Keys(updateData);
    var params := UpdateParams(updateData, id);
    var cols := Columns(keys).value;
    AssignAllEffect(r, cols, params);
    var row := AssignAll(r, cols, params).value;
    forall c | ColumnName(c) !in keys ensures CellOf(row, c) == CellOf(r, c) {
      assert c !in cols;
    }
    forall i, c | 0 <= i < |updateData| && ColumnName(c) == updateData[i].0
      ensures Convert(c, updateData[i].1) == Some(CellOf(row, c))
    {
      assert ColumnName(cols[i]) == ColumnName(c);
      assert params[i] == updateData[i].1;
    }
  }

  /**
   * The updated row is filed under the id the body sets (its own id if the
   * body sets none); in it only the named columns change, each to its own value.
   */
  lemma UpdateTouchesOnlyNamedColumns(st: State, updateData: Body, id: int)
    requires Consistent(st) && WellFormed(updateData) && id in st.rows
    requires UpdateMeaning(st, Keys(updateData), UpdateParams(updateData, id)).Ok?
    ensures IdAfter(updateData, id).Some?
    ensures var st' := UpdateMeaning(st, Keys(updateData), UpdateParams(updateData, id)).value.0;
            var newId := IdAfter(updateData, id).value;
      && st'.rows.Keys == st.rows.Keys - {id} + {newId}
      && (forall c :: ColumnName(c) !in Keys(updateData) ==> CellOf(st'.rows[newId], c) == CellOf(st.rows[id], c))
      && (forall i, c :: 0 <= i < |updateData| && ColumnName(c) == updateData[i].0 ==>
            Convert(c, updateData[i].1) == Some(CellOf(st'.rows[newId], c)))
  {
    UpdateUnfold(st, updateData, id);
    UpdatedRowColumns(st.rows[id], updateData, id);
    var row := AssignAll(st.rows[id], Columns(Keys(updateData)).value, UpdateParams(updateData, id)).value;
    var v := Get(updateData, "id");
    if v.Absent? {
      assert ColumnName(Id) !in Keys(updateData);
      assert CellOf(row, Id) == CellOf(st.rows[id], Id);
    } else {
      var j :| 0 <= j < |updateData| && updateData[j] == ("id", v);
      assert Convert(Id, v) == Some(CellOf(row, Id));
    }
    assert IdAfter(updateData, id) == Some(row.id);
  }

  /** An update whose keys all name columns never fails for a missing id: it reports no row. */
  lemma UpdateOfMissingIdFindsNothing(st: State, updateData: Body, id: int)
    requires id !in st.rows && updateData != []
    requires forall i :: 0 <= i < |updateData| ==> ColumnNamed(updateData[i].0).Some?
    ensures UpdateMeaning(st, Keys(updateData), UpdateParams(updateData, id)) == Ok((st, Header(0, 0)))
  {
    assert IntOf(UpdateParams(updateData, id)[|updateData|]) == Some(id);
  }

  // ---------------------------------------------------------------------------
  // The table (the database behind the pool) and the repository functions

  /** Executing a statement: a pool error is passed on as it is and changes nothing. */
  function Run(st: State, fault: Option<DbError>, m: Result<(State, Header), DbError>): (State, Result<Header, DbError>)
  {
    if fault.Some? then (st, Err(fault.value))
    else match m
      case Ok((st', h)) => (st', Ok(h))
      case Err(e) => (st, Err(e))
  }

  /** The ids of a list of rows. */
  function IdsOf(list: seq<School>): set<int>
  {
    set i | 0 <= i < |list| :: list[i].id
  }

  lemma IdsOfAppend(list: seq<School>, s: School)
    ensures IdsOf(list + [s]) == IdsOf(list) + {s.id}
  {
    var l' := list + [s];
    forall x | x in IdsOf(list) ensures x in IdsOf(l') {
      var i :| 0 <= i < |list| && list[i].id == x;
      assert l'[i].id == x;
    }
    assert l'[|list|].id == s.id;
  }

  class Table {
    var rows: map<int, School>
    var nextId: int

    ghost predicate Valid()
      reads this
    {
      Consistent(State(rows, nextId))
    }

    function Snapshot(): State
      reads this
    {
      State(rows, nextId)
    }

    /** A freshly created, empty table (`id SERIAL` starts at 1). */
    constructor ()
      ensures Valid() && rows == map[] && nextId == 1
    {
      rows := map[];
      nextId := 1;
    }

    method Execute(fault: Option<DbError>, m: Result<(State, Header), DbError>) returns (r: Result<Header, DbError>)
      requires Valid()
      requires m.Ok? ==> Consistent(m.value.0)
      modifies this
      ensures Valid()
      ensures (Snapshot(), r) == Run(old(Snapshot()), fault, m)
    {
      if fault.Some? {
        return Err(fault.value);
      }
      match m {
        case Ok((st', h)) =>
          rows, nextId := st'.rows, st'.nextId;
          r := Ok(h);
        case Err(e) =>
          r := Err(e);
      }
    }

    /** `SELECT * FROM schools`: every row once, in an order the table chooses. */
    method SelectAll() returns (list: seq<School>)
      requires Valid()
      ensures IdsOf(list) == rows.Keys
      ensures forall i :: 0 <= i < |list| ==> list[i].id in rows && rows[list[i].id] == list[i]
      ensures forall i, j :: 0 <= i < j < |list| ==> list[i].id != list[j].id
    {
      list := [];
      var left := rows.Items;
      while left != {}
        invariant left <= rows.Items
        invariant forall k :: k in rows ==> ((k, rows[k]) in left <==> k !in IdsOf(list))
        invariant forall i :: 0 <= i < |list| ==> list[i].id in rows && rows[list[i].id] == list[i]
        invariant forall i, j :: 0 <= i < j < |list| ==> list[i].id != list[j].id
        decreases left
      {
        var kv :| kv in left;
        var s := kv.1;
        assert kv.0 in rows && rows[kv.0] == s && s.id == kv.0;
        IdsOfAppend(list, s);
        list := list + [s];
        left := left - {kv};
      }
      forall k | k in rows ensures k in IdsOf(list) {
        assert (k, rows[k]) in rows.Items;
      }
    }
  }

  /** addSchool: insert the four values; a pool error is rethrown unchanged. */
  method AddSchool(db: Table, school: SchoolFields, fault: Option<DbError>) returns (r: Result<Header, DbError>)
    requires db.Valid()
    modifies db
    ensures db.Valid()
    ensures (db.Snapshot(), r) == Run(old(db.Snapshot()), fault, InsertMeaning(old(db.Snapshot()), InsertStatement(school).params))
  {
    var st := InsertStatement(school);
    r := db.Execute(fault, InsertMeaning(db.Snapshot(), st.params));
  }

  /** getAllSchools: every row; a pool error is rethrown unchanged. */
  method GetAllSchools(db: Table, fault: Option<DbError>) returns (r: Result<seq<School>, DbError>)
    requires db.Valid()
    ensures fault.Some? ==> r == Err(fault.value)
    ensures fault.None? ==> r.Ok? && IdsOf(r.value) == db.rows.Keys
    ensures r.Ok? ==> forall i :: 0 <= i < |r.value| ==> r.value[i] in db.rows.Values
    ensures r.Ok? ==> forall i, j :: 0 <= i < j < |r.value| ==> r.value[i].id != r.value[j].id
  {
    if fault.Some? {
      return Err(fault.value);
    }
    var list := db.SelectAll();
    r := Ok(list);
  }

  /** updateSchool: build the SET list and values, then execute; a pool error is rethrown unchanged. */
  method UpdateSchool(db: Table, id: int, updateData: Body, fault: Option<DbError>) returns (r: Result<Header, DbError>)
    requires db.Valid()
    modifies db
    ensures db.Valid()
    ensures (db.Snapshot(), r)
         == Run(old(db.Snapshot()), fault, UpdateMeaning(old(db.Snapshot()), Keys(updateData), UpdateParams(updateData, id)))
  {
    var query, values := BuildUpdate(id, updateData);
    assert values == UpdateParams(updateData, id);
    r := db.Execute(fault, UpdateMeaning(db.Snapshot(), Keys(updateData), values));
  }

  /** deleteSchool: delete by id; a pool error is rethrown unchanged. */
  method DeleteSchool(db: Table, id: int, fault: Option<DbError>) returns (r: Result<Header, DbError>)
    requires db.Valid()
    modifies db
    ensures db.Valid()
    ensures (db.Snapshot(), r) == Run(old(db.Snapshot()), fault, DeleteMeaning(old(db.Snapshot()), DeleteStatement(id).params))
  {
    var st := DeleteStatement(id);
    r := db.Execute(fault, DeleteMeaning(db.Snapshot(), st.params));
  }
}
