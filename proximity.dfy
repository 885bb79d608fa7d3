/**
 * The ordering of `listSchools`: the rows are sorted, in place, by their
 * distance from the caller's point. The comparator compares
 * `Math.hypot(dLat, dLng)`; the square root is increasing, so comparing the
 * squared distances orders the rows the same way, and that is what is kept
 * here. `Array.prototype.sort` is stable: rows at the same distance keep the
 * order the table returned them in.
 */
module Proximity {
  import opened SchoolModel

  /** The caller's coordinates. */
  datatype Point = Point(latitude: real, longitude: real)

  /** The squared distance, in degrees, from a school to the point; zero at the point itself. */
  function Dist2(s: School, p: Point): (d: real)
    ensures d >= 0.0
    ensures s.latitude == p.latitude && s.longitude == p.longitude ==> d == 0.0
  {
    var dl := s.latitude - p.latitude;
    var dg := s.longitude - p.longitude;
    assert dl * dl >= 0.0 && dg * dg >= 0.0;
    dl * dl + dg * dg
  }

  lemma SquareIncreasing(a: real, b: real)
    requires 0.0 <= a < b
    ensures a * a < b * b
  {
    var d := b - a;
    assert b * b == a * a + 2.0 * a * d + d * d;
    assert a * d >= 0.0;
    assert d * d > 0.0 * d;
  }

  /**
   * `da` and `db` are what `Math.hypot` returns for schools `a` and `b`: the
   * non-negative roots of their squared distances. Comparing non-negative
   * numbers is comparing their squares, so the
   * comparator's `distA - distB` is negative, zero or positive exactly when
   * the squared distances compare so.
   */
  lemma HypotOrder(a: School, b: School, p: Point, da: real, db: real)
    requires da >= 0.0 && db >= 0.0
    requires da * da == Dist2(a, p) && db * db == Dist2(b, p)
    ensures da - db < 0.0 <==> Dist2(a, p) < Dist2(b, p)
    ensures da - db == 0.0 <==> Dist2(a, p) == Dist2(b, p)
  {
    if da < db {
      SquareIncreasing(da, db);
    } else if db < da {
      SquareIncreasing(db, da);
    }
  }

  ghost predicate Sorted(xs: seq<School>, p: Point)
  {
    forall i, j :: 0 <= i < j < |xs| ==> Dist2(xs[i], p) <= Dist2(xs[j], p)
  }

  /** Sorted by distance means non-decreasing across every adjacent pair. */
  lemma SortedIffAdjacent(xs: seq<School>, p: Point)
    ensures Sorted(xs, p) <==> forall i :: 0 <= i < |xs| - 1 ==> Dist2(xs[i], p) <= Dist2(xs[i + 1], p)
  {
    if forall i :: 0 <= i < |xs| - 1 ==> Dist2(xs[i], p) <= Dist2(xs[i + 1], p) {
      forall i, j | 0 <= i < j < |xs| ensures Dist2(xs[i], p) <= Dist2(xs[j], p) {
        AdjacentChain(xs, p, i, j);
      }
    }
  }

  lemma {:induction false} AdjacentChain(xs: seq<School>, p: Point, i: int, j: int)
    requires 0 <= i <= j < |xs|
    requires forall k :: 0 <= k < |xs| - 1 ==> Dist2(xs[k], p) <= Dist2(xs[k + 1], p)
    ensures Dist2(xs[i], p) <= Dist2(xs[j], p)
    decreases j - i
  {
    if i < j {
      AdjacentChain(xs, p, i + 1, j);
    }
  }

  /**
   * `x` placed into `s` behind every element not farther away than `x`,
   * scanning from the back: one step of insertion sort.
   */
  function Insert(s: seq<School>, x: School, p: Point): (r: seq<School>)
    ensures |r| == |s| + 1
  {
    if s == [] then [x]
    else if Dist2(s[|s| - 1], p) <= Dist2(x, p) then s + [x]
    else Insert(s[..|s| - 1], x, p) + [s[|s| - 1]]
  }

  /** Insertion sort, the prefix first and then the last element inserted into it. */
  function Sort(xs: seq<School>, p: Point): (r: seq<School>)
    ensures |r| == |xs|
  {
    if xs == [] then []
    else Insert(Sort(xs[..|xs| - 1], p), xs[|xs| - 1], p)
  }

  lemma {:induction false} InsertPermutes(s: seq<School>, x: School, p: Point)
    ensures multiset(Insert(s, x, p)) == multiset(s) + multiset{x}
  {
    if s != [] && Dist2(s[|s| - 1], p) > Dist2(x, p) {
      var init := s[..|s| - 1];
      assert s == init + [s[|s| - 1]];
      InsertPermutes(init, x, p);
    }
  }

  /** `Sort` returns a permutation of its input. */
  lemma {:induction false} SortPermutes(xs: seq<School>, p: Point)
    ensures multiset(Sort(xs, p)) == multiset(xs)
  {
    if xs != [] {
      var init := xs[..|xs| - 1];
      assert xs == init + [xs[|xs| - 1]];
      SortPermutes(init, p);
      InsertPermutes(Sort(init, p), xs[|xs| - 1], p);
    }
  }

  /** Every element of `Insert(s, x)` is `x` or an element of `s`. */
  lemma {:induction false} InsertFrom(s: seq<School>, x: School, p: Point)
    ensures forall e :: e in Insert(s, x, p) ==> e == x || e in s
  {
    if s != [] && Dist2(s[|s| - 1], p) > Dist2(x, p) {
      var init := s[..|s| - 1];
      InsertFrom(init, x, p);
      assert forall e :: e in init ==> e in s;
    }
  }

  lemma SortedSnoc(r: seq<School>, y: School, p: Point)
    requires Sorted(r, p)
    requires forall i :: 0 <= i < |r| ==> Dist2(r[i], p) <= Dist2(y, p)
    ensures Sorted(r + [y], p)
  {
  }

  lemma {:induction false} InsertSorted(s: seq<School>, x: School, p: Point)
    requires Sorted(s, p)
    ensures Sorted(Insert(s, x, p), p)
  {
    if s == [] {
    } else if Dist2(s[|s| - 1], p) <= Dist2(x, p) {
      SortedSnoc(s, x, p);
    } else {
      var init := s[..|s| - 1];
      var last := s[|s| - 1];
      assert Sorted(init, p);
      InsertSorted(init, x, p);
      InsertFrom(init, x, p);
      var r := Insert(init, x, p);
      forall i | 0 <= i < |r| ensures Dist2(r[i], p) <= Dist2(last, p) {
        assert r[i] in r;
        if r[i] != x {
          var k :| 0 <= k < |init| && init[k] == r[i];
          assert s[k] == r[i];
        }
      }
      SortedSnoc(r, last, p);
    }
  }

  /** The result of `Sort` is ordered by distance (and, by its contract, a permutation). */
  lemma {:induction false} SortSorted(xs: seq<School>, p: Point)
    ensures Sorted(Sort(xs, p), p)
  {
    if xs != [] {
      SortSorted(xs[..|xs| - 1], p);
      InsertSorted(Sort(xs[..|xs| - 1], p), xs[|xs| - 1], p);
    }
  }

  /** The elements of `xs` at squared distance `d`, in their order in `xs`. */
  function Class(xs: seq<School>, p: Point, d: real): (r: seq<School>)
    ensures |r| <= |xs|
    ensures forall i :: 0 <= i < |r| ==> Dist2(r[i], p) == d
  {
    if xs == [] then []
    else Class(xs[..|xs| - 1], p, d) + (if Dist2(xs[|xs| - 1], p) == d then [xs[|xs| - 1]] else [])
  }

  lemma ClassSnoc(xs: seq<School>, x: School, p: Point, d: real)
    ensures Class(xs + [x], p, d) == Class(xs, p, d) + (if Dist2(x, p) == d then [x] else [])
  {
    assert (xs + [x])[..|xs|] == xs;
  }

  /** Inserting `x` adds it at the end of its own class and leaves every other class alone. */
  lemma {:induction false} ClassInsert(s: seq<School>, x: School, p: Point, d: real)
    ensures Class(Insert(s, x, p), p, d) == Class(s, p, d) + (if Dist2(x, p) == d then [x] else [])
  {
    if s == [] {
      ClassSnoc([], x, p, d);
    } else if Dist2(s[|s| - 1], p) <= Dist2(x, p) {
      ClassSnoc(s, x, p, d);
    } else {
      var init := s[..|s| - 1];
      var last := s[|s| - 1];
      ClassInsert(init, x, p, d);
      ClassSnoc(Insert(init, x, p), last, p, d);
      ClassSnoc(init, last, p, d);
      assert s == init + [last];
    }
  }

  /** Stability: within each distance, `Sort` keeps the input's order. */
  lemma {:induction false} SortKeepsClasses(xs: seq<School>, p: Point, d: real)
    ensures Class(Sort(xs, p), p, d) == Class(xs, p, d)
  {
    if xs != [] {
      var init := xs[..|xs| - 1];
      SortKeepsClasses(init, p, d);
      ClassInsert(Sort(init, p), xs[|xs| - 1], p, d);
    }
  }

  /** The last element is the last of its class; the rest of the class comes before it. */
  lemma LastOfClass(ys: seq<School>, p: Point)
    requires ys != []
    ensures var c := Class(ys, p, Dist2(ys[|ys| - 1], p));
      c != [] && c[|c| - 1] == ys[|ys| - 1] && c[..|c| - 1] == Class(ys[..|ys| - 1], p, Dist2(ys[|ys| - 1], p))
  {
    var d := Dist2(ys[|ys| - 1], p);
    assert Class(ys, p, d) == Class(ys[..|ys| - 1], p, d) + [ys[|ys| - 1]];
  }

  /** Sorted permutations of each other end in elements at the same distance. */
  lemma SameLastDistance(ys: seq<School>, zs: seq<School>, p: Point)
    requires ys != [] && Sorted(ys, p) && Sorted(zs, p)
    requires multiset(ys) == multiset(zs)
    ensures |zs| == |ys| && Dist2(ys[|ys| - 1], p) == Dist2(zs[|zs| - 1], p)
  {
    assert |ys| == |multiset(ys)| == |zs|;
    var n := |ys| - 1;
    assert ys[n] in multiset(zs) && zs[n] in multiset(ys);
    var i :| 0 <= i < |zs| && zs[i] == ys[n];
    var j :| 0 <= j < |ys| && ys[j] == zs[n];
  }

  /** With the same classes, two such sequences end in the same element. */
  lemma SameLast(ys: seq<School>, zs: seq<School>, p: Point)
    requires ys != [] && Sorted(ys, p) && Sorted(zs, p)
    requires multiset(ys) == multiset(zs)
    requires forall d :: Class(ys, p, d) == Class(zs, p, d)
    ensures |zs| == |ys| && ys[|ys| - 1] == zs[|zs| - 1]
  {
    SameLastDistance(ys, zs, p);
    LastOfClass(ys, p);
    LastOfClass(zs, p);
    assert Class(ys, p, Dist2(ys[|ys| - 1], p)) == Class(zs, p, Dist2(ys[|ys| - 1], p));
  }

  /** Dropping the same last element from both keeps the classes equal. */
  lemma SameClassesOfInit(ys: seq<School>, ys': seq<School>, zs: seq<School>, zs': seq<School>, y: School, p: Point)
    requires ys == ys' + [y] && zs == zs' + [y]
    requires forall d :: Class(ys, p, d) == Class(zs, p, d)
    ensures forall d :: Class(ys', p, d) == Class(zs', p, d)
  {
    forall e ensures Class(ys', p, e) == Class(zs', p, e) {
      ClassSnoc(ys', y, p, e);
      ClassSnoc(zs', y, p, e);
      var c := Class(ys, p, e);
      assert c == Class(zs, p, e);
      var m := |c| - (if Dist2(y, p) == e then 1 else 0);
      assert Class(ys', p, e) == c[..m];
      assert Class(zs', p, e) == c[..m];
    }
  }

  lemma SameMultisetOfInit(ys: seq<School>, zs: seq<School>)
    requires ys != [] && |ys| == |zs| && ys[|ys| - 1] == zs[|zs| - 1]
    requires multiset(ys) == multiset(zs)
    ensures multiset(ys[..|ys| - 1]) == multiset(zs[..|zs| - 1])
  {
    var n := |ys| - 1;
    assert ys == ys[..n] + [ys[n]] && zs == zs[..n] + [ys[n]];
    assert multiset(ys) == multiset(ys[..n]) + multiset{ys[n]};
    assert multiset(zs) == multiset(zs[..n]) + multiset{ys[n]};
    assert multiset(ys[..n]) == multiset(ys) - multiset{ys[n]};
    assert multiset(zs[..n]) == multiset(zs) - multiset{ys[n]};
  }

  lemma SortedInit(ys: seq<School>, p: Point)
    requires ys != [] && Sorted(ys, p)
    ensures Sorted(ys[..|ys| - 1], p)
  {
  }

  /**
   * Two sequences that are sorted, hold the same elements and list each
   * class in the same order are equal: being sorted, a permutation and
   * stable determines the result.
   */
  lemma {:induction false} SortedStableUnique(ys: seq<School>, zs: seq<School>, p: Point)
    requires Sorted(ys, p) && Sorted(zs, p)
    requires multiset(ys) == multiset(zs)
    requires forall d :: Class(ys, p, d) == Class(zs, p, d)
    ensures ys == zs
    decreases |ys|
  {
    if ys == [] {
      assert |zs| == |multiset(zs)| == 0;
    } else {
      SameLast(ys, zs, p);
      var n := |ys| - 1;
      SameMultisetOfInit(ys, zs);
      SortedInit(ys, p);
      SortedInit(zs, p);
      SameClassesOfInit(ys, ys[..n], zs, zs[..n], ys[n], p);
      SortedStableUnique(ys[..n], zs[..n], p);
      assert ys == ys[..n] + [ys[n]] && zs == zs[..n] + [zs[n]];
    }
  }

  /** Any ordering that is sorted, a permutation of the input and stable is `Sort`'s. */
  lemma StableSortIsUnique(xs: seq<School>, ys: seq<School>, p: Point)
    requires Sorted(ys, p) && multiset(ys) == multiset(xs)
    requires forall d :: Class(ys, p, d) == Class(xs, p, d)
    ensures ys == Sort(xs, p)
  {
    SortSorted(xs, p);
    SortPermutes(xs, p);
    forall d | true ensures Class(ys, p, d) == Class(Sort(xs, p), p, d) {
      SortKeepsClasses(xs, p, d);
    }
    SortedStableUnique(ys, Sort(xs, p), p);
  }

  /**
   * A school standing on the caller's point is at distance 0, so in the sorted
   * list only schools at distance 0 can come before it.
   */
  lemma AtThePointFirst(xs: seq<School>, p: Point, s: School)
    requires s in xs && s.latitude == p.latitude && s.longitude == p.longitude
    ensures var r := Sort(xs, p);
      forall i, k :: 0 <= i < k < |r| && r[k] == s ==> Dist2(r[i], p) == 0.0
    ensures Dist2(Sort(xs, p)[0], p) == 0.0
  {
    SortSorted(xs, p);
    SortPermutes(xs, p);
    var r := Sort(xs, p);
    assert s in multiset(r);
    var k :| 0 <= k < |r| && r[k] == s;
    assert Dist2(r[0], p) <= Dist2(s, p);
  }

  /** One step of the inner loop: `x` moves in front of a farther element. */
  lemma InsertStep(done: seq<School>, j: int, x: School, p: Point)
    requires 0 < j <= |done| && Dist2(done[j - 1], p) > Dist2(x, p)
    ensures Insert(done[..j], x, p) + done[j..] == Insert(done[..j - 1], x, p) + done[j - 1..]
  {
    assert done[..j][..j - 1] == done[..j - 1];
    assert done[j - 1..] == [done[j - 1]] + done[j..];
  }

  /** The inner loop stops: `x` goes right here. */
  lemma InsertStop(done: seq<School>, j: int, x: School, p: Point)
    requires 0 <= j <= |done| && (j == 0 || Dist2(done[j - 1], p) <= Dist2(x, p))
    ensures Insert(done[..j], x, p) == done[..j] + [x]
  {
  }

  /** Sorting one more element of the input. */
  lemma SortStep(input: seq<School>, i: int, p: Point)
    requires 0 <= i < |input|
    ensures Sort(input[..i + 1], p) == Insert(Sort(input[..i], p), input[i], p)
  {
    assert input[..i + 1][..i] == input[..i];
  }

  /** The array after the inner loop and the final store, read as a sequence. */
  lemma Assemble(r: seq<School>, orig: seq<School>, i: int, j: int, x: School)
    requires 0 <= j <= i < |orig| == |r|
    requires forall k :: 0 <= k < j ==> r[k] == orig[k]
    requires r[j] == x
    requires forall k :: j < k <= i ==> r[k] == orig[k - 1]
    requires forall k :: i < k < |r| ==> r[k] == orig[k]
    ensures r[..i + 1] == orig[..i][..j] + [x] + orig[..i][j..]
    ensures r[i + 1..] == orig[i + 1..]
  {
  }

  /**
   * The inner loop of the insertion sort: `a[i]` moves back past the strictly
   * farther elements of the sorted prefix `a[..i]`.
   */
  method InsertAt(a: array<School>, i: int, p: Point)
    requires 0 <= i < a.Length
    modifies a
    ensures a[..i + 1] == Insert(old(a[..i]), old(a[i]), p)
    ensures a[i + 1..] == old(a[i + 1..])
  {
    ghost var orig := a[..];
    ghost var done := orig[..i];
    var x := a[i];
    var j := i;
    assert done[..j] == done && done[j..] == [];
    while j > 0 && Dist2(a[j - 1], p) > Dist2(x, p)
      invariant 0 <= j <= i
      invariant forall k :: 0 <= k < j ==> a[k] == orig[k]
      invariant forall k :: j < k <= i ==> a[k] == orig[k - 1]
      invariant forall k :: i < k < a.Length ==> a[k] == orig[k]
      invariant Insert(done, x, p) == Insert(done[..j], x, p) + done[j..]
    {
      assert a[j - 1] == done[j - 1];
      InsertStep(done, j, x, p);
      a[j] := a[j - 1];
      j := j - 1;
    }
    assert j > 0 ==> a[j - 1] == done[j - 1];
    InsertStop(done, j, x, p);
    a[j] := x;
    Assemble(a[..], orig, i, j, x);
  }

  /**
   * `schools.sort(...)`: insertion sort in place, with a comparison that moves
   * an element back only past strictly farther ones, so equal distances keep
   * their order.
   */
  method SortByDistance(a: array<School>, p: Point)
    modifies a
    ensures a[..] == Sort(old(a[..]), p)
  {
    ghost var input := a[..];
    var i := 0;
    while i < a.Length
      invariant 0 <= i <= a.Length
      invariant a[..i] == Sort(input[..i], p)
      invariant a[i..] == input[i..]
    {
      InsertAt(a, i, p);
      assert a[i + 1..] == input[i + 1..];
      SortStep(input, i, p);
      i := i + 1;
    }
    assert input[..a.Length] == input;
  }
}
