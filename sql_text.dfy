/**
 * The text of SQL statements with `?` placeholders: how a statement is cut
 * into the pieces that stand between its placeholders, how many placeholders
 * it has, and `Array.prototype.join`.
 */
module SqlText {

  /** `parts.join(sep)`. */
  function Join(parts: seq<string>, sep: string): (r: string)
  {
    if |parts| == 0 then ""
    else if |parts| == 1 then parts[0]
    else parts[0] + sep + Join(parts[1..], sep)
  }

  /** The number of `?` placeholders in a statement. */
  function Placeholders(s: string): nat
  {
    if s == [] then 0 else (if s[0] == '?' then 1 else 0) + Placeholders(s[1..])
  }

  /**
   * The statement cut at every placeholder: element `i` is the text written
   * before placeholder `i`, and the last element is the text after the last one.
   */
  function Segments(s: string): (r: seq<string>)
    ensures |r| >= 1
  {
    if s == [] then [""]
    else if s[0] == '?' then [""] + Segments(s[1..])
    else
      var t := Segments(s[1..]);
      [[s[0]] + t[0]] + t[1..]
  }

  /** Cutting at the placeholders gives one piece more than there are placeholders. */
  lemma {:induction false} SegmentsCount(s: string)
    ensures |Segments(s)| == Placeholders(s) + 1
  {
    if s != [] {
      SegmentsCount(s[1..]);
    }
  }

  /** No piece contains a placeholder. */
  lemma {:induction false} SegmentsHaveNoMark(s: string)
    ensures forall i :: 0 <= i < |Segments(s)| ==> '?' !in Segments(s)[i]
  {
    if s != [] {
      SegmentsHaveNoMark(s[1..]);
    }
  }

  /** Prefixing a character to the first piece prefixes it to the joined text. */
  lemma JoinFirstPiece(c: char, t: seq<string>, sep: string)
    requires |t| >= 1
    ensures Join([[c] + t[0]] + t[1..], sep) == [c] + Join(t, sep)
  {
    var r := [[c] + t[0]] + t[1..];
    if |t| > 1 {
      assert r[1..] == t[1..];
    }
  }

  /**
   * The pieces are exactly the text between the placeholders: none contains
   * a `?`, and putting a `?` back between each two gives the statement again.
   */
  lemma {:induction false} SegmentsCutAtMarks(s: string)
    ensures Join(Segments(s), "?") == s
    ensures forall i :: 0 <= i < |Segments(s)| ==> '?' !in Segments(s)[i]
  {
    SegmentsHaveNoMark(s);
    if s != [] {
      SegmentsCutAtMarks(s[1..]);
      var t := Segments(s[1..]);
      if s[0] == '?' {
        assert Segments(s) == [""] + t;
        assert ([""] + t)[1..] == t;
        assert Join(Segments(s), "?") == "" + "?" + Join(t, "?");
        assert s == [s[0]] + s[1..];
      } else {
        JoinFirstPiece(s[0], t, "?");
        assert s == [s[0]] + s[1..];
      }
    }
  }

  /** Text without placeholders is a single piece. */
  lemma {:induction false} SegmentsOfPlainText(s: string)
    requires '?' !in s
    ensures Segments(s) == [s]
  {
    if s != [] {
      assert s[0] in s;
      assert '?' !in s[1..] by {
        forall c | c in s[1..] ensures c != '?' { assert c in s; }
      }
      SegmentsOfPlainText(s[1..]);
      assert [s[0]] + s[1..] == s;
    }
  }

  /** Plain text, then a placeholder: the text is the first piece, and the rest is cut on its own. */
  lemma {:induction false} PlainThenMark(a: string, rest: string)
    requires '?' !in a
    ensures Segments(a + "?" + rest) == [a] + Segments(rest)
  {
    if a == [] {
      assert a + "?" + rest == "?" + rest;
      assert ("?" + rest)[1..] == rest;
    } else {
      assert a[0] in a;
      assert '?' !in a[1..] by {
        forall c | c in a[1..] ensures c != '?' { assert c in a; }
      }
      assert (a + "?" + rest)[0] == a[0];
      assert (a + "?" + rest)[1..] == a[1..] + "?" + rest;
      PlainThenMark(a[1..], rest);
      assert [a[0]] + a[1..] == a;
    }
  }
}
