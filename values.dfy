/**
 * Request values as the HTTP layer hands them to the handlers: the members of a
 * parsed JSON (or URL-encoded) body, query-string parameters, and the small set
 * of JavaScript conversions the handlers apply to them (truthiness, `Number()`,
 * the validator's `trim` sanitizer).
 */
module Values {
  import opened Wrappers

  /**
   * One request value. `Str` carries, besides the text, the number the text
   * spells (`None` when it spells no number), so that numeric rules are
   * predicates over already-parsed values.
   */
  datatype Value =
    | Absent                            // `undefined`: the member is not there
    | Null
    | Bool(b: bool)
    | Num(x: real)
    | Str(s: string, num: Option<real>)
    | Obj                               // any object or array

  /** A JSON object: its members in key order (`Object.keys` order). */
  type Body = seq<(string, Value)>

  /** JSON objects never repeat a key and never hold `undefined`. */
  ghost predicate WellFormed(body: Body)
  {
    && (forall i, j :: 0 <= i < j < |body| ==> body[i].0 != body[j].0)
    && (forall i :: 0 <= i < |body| ==> !body[i].1.Absent?)
  }

  /** `body[key]`. */
  function Get(body: Body, key: string): (v: Value)
    ensures v.Absent? <==> forall i :: 0 <= i < |body| ==> body[i].0 != key || body[i].1.Absent?
    ensures !v.Absent? ==> exists i :: 0 <= i < |body| && body[i] == (key, v)
  {
    if body == [] then Absent
    else if body[0].0 == key && !body[0].1.Absent? then body[0].1
    else Get(body[1..], key)
  }

  /** In a well-formed body each member is what `Get` finds under its key. */
  lemma GetAt(body: Body, i: int)
    requires WellFormed(body) && 0 <= i < |body|
    ensures Get(body, body[i].0) == body[i].1
  {
    var v := Get(body, body[i].0);
    var j :| 0 <= j < |body| && body[j] == (body[i].0, v);
    assert j == i;
  }

  /** `body[key] = v` for a key that is already present; other members keep their place. */
  function Replace(body: Body, key: string, v: Value): (r: Body)
    ensures |r| == |body|
    ensures forall i :: 0 <= i < |body| ==> r[i].0 == body[i].0
    ensures forall i :: 0 <= i < |body| ==> r[i].1 == if body[i].0 == key then v else body[i].1
  {
    if body == [] then []
    else [(body[0].0, if body[0].0 == key then v else body[0].1)] + Replace(body[1..], key, v)
  }

  /** `Object.keys(body)`. */
  function Keys(body: Body): (ks: seq<string>)
    ensures |ks| == |body| && forall i :: 0 <= i < |body| ==> ks[i] == body[i].0
  {
    seq(|body|, i requires 0 <= i < |body| => body[i].0)
  }

  /** `Object.values(body)`. */
  function ValuesOf(body: Body): (vs: seq<Value>)
    ensures |vs| == |body| && forall i :: 0 <= i < |body| ==> vs[i] == body[i].1
  {
    seq(|body|, i requires 0 <= i < |body| => body[i].1)
  }

  /** JavaScript truthiness (`if (v)`); `NaN` never arises from JSON. */
  predicate Truthy(v: Value)
  {
    match v
    case Absent => false
    case Null => false
    case Bool(b) => b
    case Num(x) => x != 0.0
    case Str(s, _) => s != ""
    case Obj => true
  }

  /** `Number(v)`: `None` stands for `NaN`. */
  function NumberOf(v: Value): Option<real>
  {
    match v
    case Absent => None
    case Null => Some(0.0)
    case Bool(b) => Some(if b then 1.0 else 0.0)
    case Num(x) => Some(x)
    case Str(s, n) => if s == [] then Some(0.0) else n
    case Obj => None
  }

  /**
   * The number a value spells as the float validator, `parseFloat` and the
   * driver read it; booleans, `null` and objects spell none.
   */
  function Reading(v: Value): (n: Option<real>)
  {
    match v
    case Num(x) => Some(x)
    case Str(_, n) => n
    case _ => None
  }

  /** Reading a member back after `Replace` gives the new value; other members are untouched. */
  lemma {:induction false} GetReplace(body: Body, key: string, v: Value, other: string)
    requires !v.Absent? && !Get(body, key).Absent?
    ensures Get(Replace(body, key, v), key) == v
    ensures other != key ==> Get(Replace(body, key, v), other) == Get(body, other)
  {
    if body != [] {
      var r := Replace(body, key, v);
      assert r[1..] == Replace(body[1..], key, v);
      if body[0].0 == key {
        assert r[0] == (key, v);
        if other != key {
          if !Get(body[1..], key).Absent? {
            GetReplace(body[1..], key, v, other);
          } else {
            ReplaceMissing(body[1..], key, v);
          }
        }
      } else {
        assert r[0] == body[0];
        GetReplace(body[1..], key, v, other);
      }
    }
  }

  /** `Replace` of a key that holds nothing present changes nothing a reader of another key sees. */
  lemma {:induction false} ReplaceMissing(body: Body, key: string, v: Value)
    requires Get(body, key).Absent?
    ensures forall other :: other != key ==> Get(Replace(body, key, v), other) == Get(body, other)
  {
    if body != [] {
      var r := Replace(body, key, v);
      assert r[1..] == Replace(body[1..], key, v);
      ReplaceMissing(body[1..], key, v);
    }
  }

  /** The characters JavaScript's `\s` matches, which the validator's `trim` removes. */
  predicate IsSpace(c: char)
  {
    || c == '\t' || c == '\n' || c == '\U{000B}' || c == '\U{000C}' || c == '\r' || c == ' '
    || c == '\U{00A0}' || c == '\U{1680}' || ('\U{2000}' <= c <= '\U{200A}')
    || c == '\U{2028}' || c == '\U{2029}' || c == '\U{202F}' || c == '\U{205F}'
    || c == '\U{3000}' || c == '\U{FEFF}'
  }

  ghost predicate AllSpace(s: string)
  {
    forall i :: 0 <= i < |s| ==> IsSpace(s[i])
  }

  /** How many white-space characters `s` starts with (what `ltrim` strips). */
  function LeadingSpace(s: string): (n: nat)
    ensures n <= |s|
    ensures forall i :: 0 <= i < n ==> IsSpace(s[i])
    ensures n < |s| ==> !IsSpace(s[n])
  {
    if s != [] && IsSpace(s[0]) then
      var m := LeadingSpace(s[1..]);
      assert forall i :: 1 <= i < m + 1 ==> s[i] == s[1..][i - 1];
      1 + m
    else 0
  }

  /** Where the white space `s` ends with begins (what `rtrim` strips). */
  function TrailingFrom(s: string): (n: nat)
    ensures n <= |s|
    ensures forall i :: n <= i < |s| ==> IsSpace(s[i])
    ensures 0 < n ==> !IsSpace(s[n - 1])
  {
    if s != [] && IsSpace(s[|s| - 1]) then TrailingFrom(s[..|s| - 1]) else |s|
  }

  /** The `trim()` sanitizer on a string. */
  function Trim(s: string): string
  {
    var t := s[LeadingSpace(s)..];
    t[..TrailingFrom(t)]
  }

  /**
   * What trim leaves is a slice of the input with no white space at either end,
   * and only white space was removed.
   */
  lemma TrimIsSlice(s: string)
    ensures exists i, j :: 0 <= i <= j <= |s| && Trim(s) == s[i..j] && AllSpace(s[..i]) && AllSpace(s[j..])
    ensures Trim(s) != [] ==> !IsSpace(Trim(s)[0]) && !IsSpace(Trim(s)[|Trim(s)| - 1])
  {
    var i := LeadingSpace(s);
    var t := s[i..];
    var j := i + TrailingFrom(t);
    assert Trim(s) == s[i..j];
    assert AllSpace(s[..i]);
    assert AllSpace(s[j..]) by {
      forall k | 0 <= k < |s[j..]| ensures IsSpace(s[j..][k]) {
        assert s[j..][k] == t[j - i + k];
      }
    }
  }

  /** A string is blank after trimming exactly when it is all white space. */
  lemma TrimEmptyIffAllSpace(s: string)
    ensures Trim(s) == [] <==> AllSpace(s)
  {
    var i := LeadingSpace(s);
    var t := s[i..];
    if Trim(s) == [] {
      assert TrailingFrom(t) == 0;
    }
  }
}
