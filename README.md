# School management back end: a Dafny model

This project models the core of a small Express/MySQL service that stores schools and lists them by distance. A school has a name, an address, a latitude and a longitude. There are four routes:

- `POST /addSchool` validates four body fields and inserts a row.
- `GET /listSchools` validates a query point, fetches every row and sorts the rows by their distance from the point.
- `PUT /updateSchool/:id` validates the path id and the optional body fields. It rejects a body id that disagrees with the path. Then it runs an `UPDATE` whose `SET` list is built from the body's keys.
- `DELETE /deleteSchool/:id` validates the path id and deletes that row.

A repository failure becomes 500 and zero affected rows becomes 404.

The modules follow the program:

- `Values` (values.dfy): the JSON values a request carries, with `undefined` as `Absent` and a body as its members in key order. It also has `Object.keys`, `Object.values`, truthiness, `Number()`, the float reading used by `isFloat`/`parseFloat`, and `String.prototype.trim`.
- `SqlText` (sql_text.dfy): `join`, counting `?` placeholders, and the text pieces between placeholders.
- `SchoolModel` (school_model.dfy): the repository in the models file.
  - The three statements, their texts and their bound values.
  - The database table as a class over `map<int, School>` with an AUTO_INCREMENT counter.
  - What each statement does to the table: which rows it touches and what `affectedRows` is.
- `Validation` (validation.dfy): each express-validator chain as the list of violations it produces, with the exact messages. It also has the `trim()` sanitizer's write-back into the body.
- `Proximity` (proximity.dfy): the comparator `Math.hypot(...) - Math.hypot(...)`, the stable sort it drives, and an in-place insertion sort on an array proved equal to a functional `Sort`. `Sort` is proved sorted, a permutation of its input and stable. Any sorted, stable permutation is proved to be `Sort`'s output, so the model does not depend on which stable algorithm the runtime uses.
- `Router` (router.dfy): the four handlers.
  - Each handler is split into the decision it takes before the repository call (its plan), the answer it builds from the repository's outcome, and a `Serve*` method that runs it against the table.
  - Lemmas show that, in the model's table (column names matched exactly, text of any length), rows stored through the handlers stay trimmed, non-empty and in range. The real database does not keep this invariant; see `Router.UpdateKeepsRowsStored` under "## Left out".
  - One lemma shows what a falsy body `id` does.

Inputs the program takes from its environment are parameters:

- A pool failure is `fault: Option<DbError>`. A failure passes through unchanged and leaves the table alone.
- The path parameter is `Option<int>`: the integer the segment spells, if any. The program passes `Number(id)`, a double, to the repository; see "## Left out".
- A numeric string carries its numeric reading (`Str(s, num)`).

An update with an empty body is not rejected by validation. It runs `UPDATE schools SET  WHERE id = ?`, which does not parse, so the client gets 500 (`SchoolModel.EmptyUpdateIsRejected`). Validation applies `trim()` before `notEmpty()`, so a name of spaces is rejected, and the row stores the trimmed text.

## Model

| member | source | states |
|---|---|---|
| Values.Get | src/router/school-router.ts:44 | `body[key]` is `undefined` exactly when no member has that key; otherwise it is a member's value |
| Values.GetReplace | src/router/school-router.ts:9-10 | Writing a sanitized value back under a present key changes that key only |
| Values.TrimIsSlice | src/router/school-router.ts:9-10 | `trim()` returns a contiguous slice of the input with no space at either end |
| Values.TrimEmptyIffAllSpace | src/router/school-router.ts:9-10 | `trim()` gives the empty string exactly when the input is all white space |
| SqlText.SegmentsCutAtMarks | src/models/school.ts:41-48 | The pieces contain no `?`, and joining them with `?` gives the statement back, so piece i is the text before placeholder i |
| SqlText.SegmentsCount | src/models/school.ts:48 | A statement text with n placeholders splits into n + 1 plain pieces |
| SchoolModel.ColumnNamed | src/models/school.ts:42 | A key names a column exactly when it spells that column's name |
| SchoolModel.InsertStatement | src/models/school.ts:13-20 | The INSERT has four placeholders, bound in order to name, address, latitude and longitude |
| SchoolModel.DeleteStatement | src/models/school.ts:61-64 | The DELETE has one placeholder, bound to the id |
| SchoolModel.UpdatePlaceholdersMatchValues | src/models/school.ts:41-48 | Placeholder i of the UPDATE follows `key_i = `, is bound to `value_i`, and the last one is bound to the id |
| SchoolModel.BuildUpdate | src/models/school.ts:41-48 | The built text is the SET/WHERE statement over the keys; the values are the body's values followed by the id; placeholder and value counts agree |
| SchoolModel.EmptyUpdateIsRejected | src/models/school.ts:41-51 | An empty body gives `UPDATE schools SET  WHERE id = ?`, which the database rejects |
| SchoolModel.InsertMeaning | src/models/school.ts:13-21 | The INSERT succeeds exactly when name and address are text and both coordinates are numbers; it adds one row under the next id and leaves the other rows alone |
| SchoolModel.Columns | src/models/school.ts:41-43 | The SET list is accepted exactly when every key names a column |
| SchoolModel.UpdatedRowColumns | src/models/school.ts:41-48 | The row the body's SET list produces has each named column set to its value and the others unchanged |
| SchoolModel.AssignAllEffect | src/models/school.ts:41-48 | A SET list with distinct columns stores each value in its own column and leaves the unnamed columns alone |
| SchoolModel.UpdateMeaning | src/models/school.ts:48-52 | The UPDATE keeps the table consistent and reports at most one row |
| SchoolModel.UpdateOfMissingRow | src/models/school.ts:48-52 | Updating an id that is not there changes nothing and reports zero rows |
| SchoolModel.UpdateOfMissingIdFindsNothing | src/models/school.ts:41-52 | With valid keys, an update of an absent id always gives zero rows (the router's 404) |
| SchoolModel.UpdateKeepsOtherRows | src/models/school.ts:48-52 | Updating an existing id reports one row and leaves every other row as it was |
| SchoolModel.UpdateTouchesOnlyNamedColumns | src/models/school.ts:40-52 | The updated row is filed under the body's id (or its own); only the named columns change, each to its value |
| SchoolModel.DeleteMeaning | src/models/school.ts:61-65 | The DELETE removes at most the row with the bound id, and `affectedRows` counts the removed rows |
| SchoolModel.DeleteOutcome | src/models/school.ts:61-64 | deleteSchool's statement removes the row when it is there (one row reported) and changes nothing otherwise (zero) |
| SchoolModel.DeleteRemovesExactlyThatRow | src/models/school.ts:60-65 | deleteSchool's statement leaves exactly the other rows, and reports 1 when the id was there and 0 when it was not |
| SchoolModel.Table.Execute | src/models/school.ts:50-56 | Running a statement applies its meaning, or passes on the pool's error and changes nothing |
| SchoolModel.Table.SelectAll | src/models/school.ts:31-32 | `SELECT *` returns every row once, each as stored |
| SchoolModel.AddSchool | src/models/school.ts:12-26 | addSchool runs the INSERT on the table and returns its header, or rethrows the pool error |
| SchoolModel.GetAllSchools | src/models/school.ts:29-37 | getAllSchools returns every stored row exactly once (every stored id, each element a stored row, no id twice), or rethrows the pool error |
| SchoolModel.UpdateSchool | src/models/school.ts:40-57 | updateSchool runs the statement it built on the table and returns its header, or rethrows |
| SchoolModel.DeleteSchool | src/models/school.ts:60-70 | deleteSchool runs the DELETE on the table and returns its header, or rethrows |
| Validation.BlankAfterTrimIsBlank | src/router/school-router.ts:9 | `trim().notEmpty()` fails exactly on a string that is all white space |
| Validation.StringRule | src/router/school-router.ts:9-10 | `isString().trim().notEmpty()` passes exactly on a string with a non-space character; it reports the default message for a non-string and the chain's message for a blank value |
| Validation.AddErrors | src/router/school-router.ts:8-13 | The add chains report nothing exactly when name and address have text and the coordinates are in range; every violation is on one of the four body fields |
| Validation.AddReportsEachField | src/router/school-router.ts:9-12 | Each blank text field and each out-of-range coordinate is reported with its chain's message |
| Validation.ListErrors | src/router/school-router.ts:16-19 | The list chains pass exactly when both query coordinates are in range; a bad one is reported with its message |
| Validation.UpdateErrors | src/router/school-router.ts:22-28 | The update chains pass exactly when the id is an integer and each present field is valid; every violation is on the path id or a body field |
| Validation.UpdateReportsBadIdFirst | src/router/school-router.ts:22-23 | A path id that is not an integer is the first violation |
| Validation.UpdateReportsNullText | src/router/school-router.ts:24-25 | A `null` name or address is reported with its chain's message |
| Validation.UpdateReportsBadCoordinate | src/router/school-router.ts:26-27 | A present coordinate out of range is reported with its chain's message |
| Validation.TrimMember | src/router/school-router.ts:9-10 | The sanitizer writes a trimmed string back under the same key and leaves all other members alone |
| Validation.NonTextIsRejected | src/router/school-router.ts:9-25 | A name or address that is not a string fails the add chains, and fails the update chains unless it is missing |
| Validation.Sanitized | src/router/school-router.ts:24-25 | Both sanitizers keep the body's keys and well-formedness and leave the members other than name and address unchanged |
| Validation.SanitizedTrims | src/router/school-router.ts:24-25 | After both sanitizers, a string name or address is read back trimmed and any other value as it was |
| Validation.SanitizedKeepsOthers | src/router/school-router.ts:24-25 | Sanitizing leaves every member other than name and address as it was |
| Validation.SanitizedText | src/router/school-router.ts:9-10 | A text field that passed validation is read back trimmed and still non-empty |
| Proximity.Dist2 | src/router/school-router.ts:68-69 | The squared distance is non-negative and zero at the point itself |
| Proximity.HypotOrder | src/router/school-router.ts:67-71 | When `distA` and `distB` are the non-negative roots of two schools' squared distances, `distA - distB` is negative or zero exactly when the squared distances compare so, so sorting by squared distance orders as the comparator does |
| Proximity.SortedIffAdjacent | src/router/school-router.ts:67-71 | Sorted by distance over all pairs is the same as over adjacent pairs |
| Proximity.SortPermutes | src/router/school-router.ts:67-71 | Sorting returns a permutation of the fetched rows |
| Proximity.SortSorted | src/router/school-router.ts:67-71 | Sorting returns the rows in non-decreasing distance |
| Proximity.SortKeepsClasses | src/router/school-router.ts:67-71 | The sort is stable: rows at the same distance keep their fetched order |
| Proximity.SortedStableUnique | src/router/school-router.ts:67-71 | Two sorted, stable permutations of the same rows are equal |
| Proximity.StableSortIsUnique | src/router/school-router.ts:67-71 | Any sorted, stable reordering of the rows is exactly `Sort`'s result |
| Proximity.AtThePointFirst | src/router/school-router.ts:67-71 | A school at the query point comes after only schools at distance zero, and the first school listed is at distance zero |
| Proximity.InsertAt | src/router/school-router.ts:67-71 | One insertion step on the array: the prefix becomes `Insert` of the old prefix and the element; the rest is untouched |
| Proximity.SortByDistance | src/router/school-router.ts:67-71 | Sorting the array in place leaves exactly `Sort` of its old contents |
| Router.AddPlan | src/router/school-router.ts:36-45 | POST is rejected with 400 and the violations exactly when validation fails; otherwise addSchool gets the four fields of the sanitized body |
| Router.AddPlanFields | src/router/school-router.ts:44-45 | addSchool gets the trimmed name and address and the coordinates as sent |
| Router.HandleAdd | src/router/school-router.ts:36-51 | POST gives 400 iff validation fails, 201 iff it passes and the insert succeeds, 500 iff it passes and the insert throws |
| Router.ListPlan | src/router/school-router.ts:54-65 | GET is rejected with 400 exactly when a coordinate is bad; otherwise the point is the parsed coordinates, in range |
| Router.ListAnswer | src/router/school-router.ts:61-77 | The answer is 200 with a sorted, stable permutation of the fetched rows, or 500 when the fetch throws |
| Router.HandleList | src/router/school-router.ts:54-78 | GET gives 400 iff the query is invalid, 200 iff it is valid and the fetch succeeds, 500 iff it is valid and the fetch throws |
| Router.UpdatePlan | src/router/school-router.ts:81-95 | PUT is rejected with the violations when validation fails, with the id message when a truthy body id differs from the path id, and otherwise calls updateSchool with the sanitized body |
| Router.HandleUpdate | src/router/school-router.ts:81-108 | PUT gives 400 iff it is invalid or mismatched, 404 iff no row matched, 200 iff a row matched, 500 iff the update throws |
| Router.HandleDelete | src/router/school-router.ts:111-132 | DELETE gives 400 with the id message iff the id is bad, 404 (not found) iff no row was removed, 200 iff one was, 500 iff it throws |
| Router.ServeAdd | src/router/school-router.ts:36-51 | Running POST leaves the table as the INSERT (or nothing) leaves it, and answers as `HandleAdd` |
| Router.ServeList | src/router/school-router.ts:54-78 | Running GET answers 200, sorted by distance, with every stored row exactly once (every stored id, each element a stored row, no id twice); the answer is `HandleList`'s for a listing of the table |
| Router.ServeUpdate | src/router/school-router.ts:81-108 | Running PUT leaves the table as the UPDATE (or nothing) leaves it, and answers as `HandleUpdate` |
| Router.ServeDelete | src/router/school-router.ts:111-132 | Running DELETE leaves the table as the DELETE (or nothing) leaves it, and answers as `HandleDelete` |
| Router.InsertKeepsRowsStored | src/models/school.ts:13-20 | Inserting validated fields always succeeds in the model's table and adds a trimmed, non-empty, in-range row |
| Router.AcceptedAddIsStorable | src/router/school-router.ts:8-13 | Fields the add chains accept are, once sanitized, non-empty trimmed texts and in-range coordinates |
| Router.AddKeepsRowsStored | src/router/school-router.ts:8-13 | An accepted POST always inserts in the model's table, and every row afterwards is trimmed, non-empty and in range |
| Router.AcceptedUpdateIsStorable | src/router/school-router.ts:22-28 | A body the update chains accept has, once sanitized, only non-empty trimmed texts and in-range coordinates among its present fields |
| Router.UpdatedRowStored | src/router/school-router.ts:22-28 | The row an accepted update writes keeps text non-empty and trimmed and coordinates in range |
| Router.UpdateKeepsRowsStored | src/router/school-router.ts:22-28 | A successful accepted PUT leaves only trimmed, non-empty, in-range rows when it started with only such rows |
| Router.ZeroBodyIdRenumbersRow | src/router/school-router.ts:92-97 | A body `{ "id": 0 }` passes the mismatch check, and the update moves the row to id 0 |

## Left out

- Floating point: coordinates are exact reals. `Math.hypot` is replaced by the squared distance, which orders rows the same way (`Proximity.HypotOrder`); rounding in `hypot` and in the subtraction is not modelled.
- Proximity.Dist2: states non-negativity and zero at the point; the converse (zero only at the point) is true but not stated.
- Number reading: `isFloat`, `parseFloat` and `Number()` share the one numeric reading a string carries. Differences between them (a trailing suffix such as `"10abc"`, hexadecimal, `Infinity`) are not modelled. After `trim()` the string keeps the reading it had.
- NaN and `-0` are not modelled. Arrays and objects are one `Obj` value. express-validator runs `isFloat` on each element of an array, so `GET /listSchools?latitude=10&latitude=20&longitude=5` passes in the program, `parseFloat` reads 10, and the answer is 200. The model reads the repeated parameter as `Obj` and answers 400.
- Column names are matched exactly. MySQL's case-insensitive matching and quoting are not modelled. A key that is not a column is an error. SQL injection through keys is not modelled.
- MySQL coercions: text goes only into text columns, and a number or numeric string goes into the coordinate columns; other implicit conversions are left out. `affectedRows` counts matched rows, not changed rows.
- The type and value members of the violation and error objects are not modelled; only the location, the field and the message are kept. An error's details are not modelled because the handlers only log them.
- Asynchrony, `console.error` logging and JSON serialisation are left out. Concurrency between requests is left out.
- Path ids beyond 2^53: `Number(id)` (src/router/school-router.ts:97, 121) rounds a digit string that `isInt()` accepts to the nearest double. So `DELETE /deleteSchool/9007199254740993` deletes row 9007199254740992 in the program, while the model deletes row 9007199254740993 (`Router.HandleDelete` and `Router.ServeDelete` use the exact integer). The same holds for the path id in PUT and its comparison with the body id.
- Router.UpdateKeepsRowsStored, Router.UpdatedRowStored: these hold only with exact column names and unbounded text; the program does not keep the invariant. The update chains check only the keys `name`, `address`, `latitude` and `longitude` (src/router/school-router.ts:24-27). MySQL resolves an unquoted column name regardless of case, so `PUT /updateSchool/1` with `{"Latitude": 500}` passes validation, runs `UPDATE schools SET Latitude = ? WHERE id = ?`, stores latitude 500 and answers 200. In the model the key names no column, and the answer is 500. `{"NAME": "  "}` stores a blank name the same way in the program. Truncation to 255 characters can also leave a stored name that ends in a space.
- Column widths: the table's `VARCHAR(255)` name and address columns and its single-precision `FLOAT` coordinates (src/config/db.ts:46-49) are not modelled; text columns hold strings of any length and coordinates are exact. A name or address longer than 255 characters passes validation, and MySQL then rejects the INSERT or UPDATE (500) or truncates the text, depending on its SQL mode; the model stores it whole. `SchoolModel.InsertMeaning`, `Router.InsertKeepsRowsStored` and `Router.AddKeepsRowsStored` hold in that model only.
- Validation.TrimMember, Validation.SanitizedTrims: a name or address that is not a string is kept as it was. The library first turns such a value into text (`null` becomes the empty string, `5` becomes `"5"`) and writes that text back into the body. No response shows the difference: every such request is answered 400 before the body is used (`Validation.NonTextIsRejected`). `isString()` fails on a present non-string, `notEmpty()` fails on a missing add field, and `optional()` leaves a missing update field alone.
- The connection pool, table creation, `/health` and server start-up (src/config/db.ts and src/index.ts) are not part of this model.
- SchoolModel.Table.SelectAll: states every row exactly once but no order, because `SELECT *` without `ORDER BY` promises none. The list answer is only stated up to that order (`Router.ServeList` says the answer is `HandleList` of some listing of the table).
