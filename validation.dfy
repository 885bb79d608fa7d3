/**
 * The validation chains in front of the four handlers. Each chain checks one
 * field (of the body, the query string or the path) and contributes its
 * violations to the request's list, chain after chain, in declaration order.
 * Every validator of a chain runs (none stops the chain), and `withMessage`
 * replaces the message of the validator just before it only; the others keep
 * the library's default message.
 */
module Validation {
  import opened Wrappers
  import opened Values

  datatype Location = BodyField | QueryField | PathParam

  /** One entry of `validationResult(req).array()`: where, which field, and the message. */
  datatype Violation = Violation(location: Location, path: string, msg: string)

  /** The message of a validator that was given no `withMessage`. */
  const DefaultMessage := "Invalid value"

  const AddNameMessage := "Name is required and must be a string"
  const AddAddressMessage := "Address is required and must be a string"
  const AddLatitudeMessage := "Latitude must be a valid number between -90 and 90"
  const AddLongitudeMessage := "Longitude must be a valid number between -180 and 180"
  const ListLatitudeMessage := "Latitude is required and must be a valid number"
  const ListLongitudeMessage := "Longitude is required and must be a valid number"
  const IdMessage := "School ID must be an integer"
  const UpdateNameMessage := "Name must be a string"
  const UpdateAddressMessage := "Address must be a string"
  const UpdateLatitudeMessage := "Latitude must be between -90 and 90"
  const UpdateLongitudeMessage := "Longitude must be between -180 and 180"

  /**
   * What `notEmpty` finds empty once `trim` has run. The sanitizer turns the
   * value into text first: `undefined` and `null` become the empty string,
   * numbers, booleans and objects print as some non-blank text.
   */
  predicate BlankAfterTrim(v: Value)
  {
    match v
    case Absent => true
    case Null => true
    case Str(s, _) => Trim(s) == []
    case _ => false
  }

  /** The same, stated through the characters of the text. */
  ghost predicate Blank(v: Value)
  {
    v.Absent? || v.Null? || (v.Str? && AllSpace(v.s))
  }

  lemma BlankAfterTrimIsBlank(v: Value)
    ensures BlankAfterTrim(v) <==> Blank(v)
  {
    if v.Str? {
      TrimEmptyIffAllSpace(v.s);
    }
  }

  /** `isFloat({ min: lo, max: hi })`. */
  predicate FloatIn(v: Value, lo: real, hi: real)
  {
    Reading(v).Some? && lo <= Reading(v).value <= hi
  }

  /** `isString().trim().notEmpty().withMessage(msg)` on the value `v` of field `path`. */
  function StringRule(loc: Location, path: string, v: Value, msg: string): (errs: seq<Violation>)
    ensures errs == [] <==> v.Str? && !AllSpace(v.s)
    ensures |errs| == (if v.Str? then 0 else 1) + (if Blank(v) then 1 else 0)
    ensures !v.Str? ==> errs[0] == Violation(loc, path, DefaultMessage)
    ensures Blank(v) ==> errs[|errs| - 1] == Violation(loc, path, msg)
  {
    BlankAfterTrimIsBlank(v);
    (if v.Str? then [] else [Violation(loc, path, DefaultMessage)])
    + (if BlankAfterTrim(v) then [Violation(loc, path, msg)] else [])
  }

  /** `isFloat({ min: lo, max: hi }).withMessage(msg)`. */
  function FloatRule(loc: Location, path: string, v: Value, lo: real, hi: real, msg: string): (errs: seq<Violation>)
  {
    if FloatIn(v, lo, hi) then [] else [Violation(loc, path, msg)]
  }

  /**
   * `param("id").isInt().withMessage(...)`. A path segment is always text;
   * `id` is the integer it spells (`None` when it spells none).
   */
  function IdRule(id: Option<int>): (errs: seq<Violation>)
  {
    if id.Some? then [] else [Violation(PathParam, "id", IdMessage)]
  }

  /** `optional()`: the rest of the chain is skipped when the field is not there. */
  function Optional(v: Value, errs: seq<Violation>): (r: seq<Violation>)
  {
    if v.Absent? then [] else errs
  }

  // ---------------------------------------------------------------------------
  // The four chains, and what each accepts

  /** A text field that must be there and hold a string with a non-blank character. */
  ghost predicate GoodText(v: Value)
  {
    v.Str? && exists i :: 0 <= i < |v.s| && !IsSpace(v.s[i])
  }

  ghost predicate AddAccepts(body: Body)
  {
    && GoodText(Get(body, "name"))
    && GoodText(Get(body, "address"))
    && FloatIn(Get(body, "latitude"), -90.0, 90.0)
    && FloatIn(Get(body, "longitude"), -180.0, 180.0)
  }

  /** The violations of `validateAddSchool`. */
  function AddErrors(body: Body): (errs: seq<Violation>)
    ensures errs == [] <==> AddAccepts(body)
    ensures forall e :: e in errs ==>
              e.location == BodyField && e.path in ["name", "address", "latitude", "longitude"]
  {
    var n := StringRule(BodyField, "name", Get(body, "name"), AddNameMessage);
    var a := StringRule(BodyField, "address", Get(body, "address"), AddAddressMessage);
    var la := FloatRule(BodyField, "latitude", Get(body, "latitude"), -90.0, 90.0, AddLatitudeMessage);
    var lo := FloatRule(BodyField, "longitude", Get(body, "longitude"), -180.0, 180.0, AddLongitudeMessage);
    AllInConcat4(n, a, la, lo);
    assert forall e :: e in n ==> e == Violation(BodyField, "name", DefaultMessage) || e == Violation(BodyField, "name", AddNameMessage);
    assert forall e :: e in a ==> e == Violation(BodyField, "address", DefaultMessage) || e == Violation(BodyField, "address", AddAddressMessage);
    n + a + la + lo
  }

  /** The violations of four chains, run one after the other. */
  lemma AllInConcat4(a: seq<Violation>, b: seq<Violation>, c: seq<Violation>, d: seq<Violation>)
    ensures a + b + c + d == [] <==> a == [] && b == [] && c == [] && d == []
    ensures forall e :: e in a + b + c + d <==> e in a || e in b || e in c || e in d
  {
  }

  /** A coordinate outside its range is reported with its chain's message. */
  lemma AddReportsEachField(body: Body)
    ensures !FloatIn(Get(body, "latitude"), -90.0, 90.0) ==>
              Violation(BodyField, "latitude", AddLatitudeMessage) in AddErrors(body)
    ensures !FloatIn(Get(body, "longitude"), -180.0, 180.0) ==>
              Violation(BodyField, "longitude", AddLongitudeMessage) in AddErrors(body)
    ensures Blank(Get(body, "name")) ==> Violation(BodyField, "name", AddNameMessage) in AddErrors(body)
    ensures Blank(Get(body, "address")) ==> Violation(BodyField, "address", AddAddressMessage) in AddErrors(body)
  {
    var n := StringRule(BodyField, "name", Get(body, "name"), AddNameMessage);
    var a := StringRule(BodyField, "address", Get(body, "address"), AddAddressMessage);
    var la := FloatRule(BodyField, "latitude", Get(body, "latitude"), -90.0, 90.0, AddLatitudeMessage);
    var lo := FloatRule(BodyField, "longitude", Get(body, "longitude"), -180.0, 180.0, AddLongitudeMessage);
    AllInConcat4(n, a, la, lo);
    if Blank(Get(body, "name")) {
      assert n[|n| - 1] in n;
    }
    if Blank(Get(body, "address")) {
      assert a[|a| - 1] in a;
    }
  }

  ghost predicate ListAccepts(query: Body)
  {
    FloatIn(Get(query, "latitude"), -90.0, 90.0) && FloatIn(Get(query, "longitude"), -180.0, 180.0)
  }

  /** The violations of `validateListSchools`. */
  function ListErrors(query: Body): (errs: seq<Violation>)
    ensures errs == [] <==> ListAccepts(query)
    ensures forall e :: e in errs ==> e.location == QueryField
    ensures !FloatIn(Get(query, "latitude"), -90.0, 90.0) ==>
              errs[0] == Violation(QueryField, "latitude", ListLatitudeMessage)
    ensures !FloatIn(Get(query, "longitude"), -180.0, 180.0) ==>
              errs[|errs| - 1] == Violation(QueryField, "longitude", ListLongitudeMessage)
  {
    FloatRule(QueryField, "latitude", Get(query, "latitude"), -90.0, 90.0, ListLatitudeMessage)
    + FloatRule(QueryField, "longitude", Get(query, "longitude"), -180.0, 180.0, ListLongitudeMessage)
  }

  /** An optional field is either not there or passes its rule. */
  ghost predicate UpdateAccepts(id: Option<int>, body: Body)
  {
    && id.Some?
    && (Get(body, "name").Absent? || GoodText(Get(body, "name")))
    && (Get(body, "address").Absent? || GoodText(Get(body, "address")))
    && (Get(body, "latitude").Absent? || FloatIn(Get(body, "latitude"), -90.0, 90.0))
    && (Get(body, "longitude").Absent? || FloatIn(Get(body, "longitude"), -180.0, 180.0))
  }

  /** The violations of `validateUpdateSchool`. */
  function UpdateErrors(id: Option<int>, body: Body): (errs: seq<Violation>)
    ensures errs == [] <==> UpdateAccepts(id, body)
    ensures forall e :: e in errs ==> e.location == PathParam || e.location == BodyField
  {
    var i := IdRule(id);
    var n := Optional(Get(body, "name"),
                      StringRule(BodyField, "name", Get(body, "name"), UpdateNameMessage));
    var a := Optional(Get(body, "address"),
                      StringRule(BodyField, "address", Get(body, "address"), UpdateAddressMessage));
    var la := Optional(Get(body, "latitude"),
                       FloatRule(BodyField, "latitude", Get(body, "latitude"), -90.0, 90.0, UpdateLatitudeMessage));
    var lo := Optional(Get(body, "longitude"),
                       FloatRule(BodyField, "longitude", Get(body, "longitude"), -180.0, 180.0, UpdateLongitudeMessage));
    assert forall e :: e in n || e in a || e in la || e in lo ==> e.location == BodyField;
    i + n + a + la + lo
  }

  /** A path id that is not an integer is the first violation reported. */
  lemma UpdateReportsBadIdFirst(id: Option<int>, body: Body)
    ensures id.None? ==> UpdateErrors(id, body)[0] == Violation(PathParam, "id", IdMessage)
  {
  }

  /** A `null` name or address is reported with its chain's message. */
  lemma UpdateReportsNullText(id: Option<int>, body: Body)
    ensures Get(body, "name").Null? ==> Violation(BodyField, "name", UpdateNameMessage) in UpdateErrors(id, body)
    ensures Get(body, "address").Null? ==> Violation(BodyField, "address", UpdateAddressMessage) in UpdateErrors(id, body)
  {
    var n := Optional(Get(body, "name"),
                      StringRule(BodyField, "name", Get(body, "name"), UpdateNameMessage));
    var a := Optional(Get(body, "address"),
                      StringRule(BodyField, "address", Get(body, "address"), UpdateAddressMessage));
    if Get(body, "name").Null? {
      assert n[|n| - 1] in n;
    }
    if Get(body, "address").Null? {
      assert a[|a| - 1] in a;
    }
  }

  /** A present coordinate out of range is reported with its chain's message. */
  lemma UpdateReportsBadCoordinate(id: Option<int>, body: Body)
    ensures !Get(body, "latitude").Absent? && !FloatIn(Get(body, "latitude"), -90.0, 90.0) ==>
              Violation(BodyField, "latitude", UpdateLatitudeMessage) in UpdateErrors(id, body)
    ensures !Get(body, "longitude").Absent? && !FloatIn(Get(body, "longitude"), -180.0, 180.0) ==>
              Violation(BodyField, "longitude", UpdateLongitudeMessage) in UpdateErrors(id, body)
  {
  }

  /** The violations of `validateDeleteSchool`. */
  function DeleteErrors(id: Option<int>): (errs: seq<Violation>)
  {
    IdRule(id)
  }

  // ---------------------------------------------------------------------------
  // The `trim` sanitizer's effect on the body the handlers read afterwards

  /** `trim()` on one member: a string member is stored back trimmed. */
  function TrimMember(body: Body, key: string): (r: Body)
    ensures Keys(r) == Keys(body)
    ensures Get(body, key).Str? ==> Get(r, key) == Str(Trim(Get(body, key).s), Get(body, key).num)
    ensures !Get(body, key).Str? ==> r == body
    ensures forall other :: other != key ==> Get(r, other) == Get(body, other)
    ensures WellFormed(body) ==> WellFormed(r)
  {
    var v := Get(body, key);
    if v.Str? then
      var r := Replace(body, key, Str(Trim(v.s), v.num));
      GetReplaceAll(body, key, Str(Trim(v.s), v.num));
      assert Keys(r) == Keys(body);
      r
    else body
  }

  lemma GetReplaceAll(body: Body, key: string, v: Value)
    requires !v.Absent? && !Get(body, key).Absent?
    ensures Get(Replace(body, key, v), key) == v
    ensures forall other :: other != key ==> Get(Replace(body, key, v), other) == Get(body, other)
  {
    GetReplace(body, key, v, key);
    forall other | other != key ensures Get(Replace(body, key, v), other) == Get(body, other) {
      GetReplace(body, key, v, other);
    }
  }

  /** The body after the `trim` of the name and address chains. */
  function Sanitized(body: Body): (r: Body)
    ensures Keys(r) == Keys(body)
    ensures forall k :: k != "name" && k != "address" ==> Get(r, k) == Get(body, k)
    ensures WellFormed(body) ==> WellFormed(r)
  {
    TrimMember(TrimMember(body, "name"), "address")
  }

  /**
   * A name or address that is not a string never reaches a handler: the add
   * chains reject it, and so do the update chains unless it is missing.
   */
  lemma NonTextIsRejected(id: Option<int>, body: Body, key: string)
    requires key == "name" || key == "address"
    ensures !Get(body, key).Str? ==> !AddAccepts(body)
    ensures !Get(body, key).Str? && !Get(body, key).Absent? ==> !UpdateAccepts(id, body)
  {
  }

  /** The name and the address are read back trimmed when they are strings, and as they were otherwise. */
  lemma SanitizedTrims(body: Body, key: string)
    requires key == "name" || key == "address"
    ensures Get(body, key).Str? ==> Get(Sanitized(body), key) == Str(Trim(Get(body, key).s), Get(body, key).num)
    ensures !Get(body, key).Str? ==> Get(Sanitized(body), key) == Get(body, key)
  {
    var once := TrimMember(body, "name");
    assert Get(once, "address") == Get(body, "address");
    assert Get(TrimMember(once, "address"), "name") == Get(once, "name");
  }

  lemma SanitizedKeepsOthers(body: Body, key: string)
    requires key != "name" && key != "address"
    ensures Get(Sanitized(body), key) == Get(body, key)
  {
  }

  /** A text field that passed validation is stored trimmed, and is still not empty. */
  lemma SanitizedText(body: Body, key: string)
    requires key == "name" || key == "address"
    requires GoodText(Get(body, key))
    ensures var v := Get(Sanitized(body), key);
      v.Str? && v.s == Trim(Get(body, key).s) && v.s != [] && !IsSpace(v.s[0]) && !IsSpace(v.s[|v.s| - 1])
  {
    var s := Get(body, key).s;
    SanitizedTrims(body, key);
    TrimEmptyIffAllSpace(s);
    TrimIsSlice(s);
  }
}
