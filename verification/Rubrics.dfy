/**
 * fn_upload_rubrics
 * (src/database/migrations/1781701447802-add-program-code-to-rubrics-upload.ts).
 * The rows of one rubric: the overlap sweep, the total of the maxima, and the questions and criteria
 * that are stored. A minimum or maximum that is absent or an empty string stands for 0.
 */
module Rubrics {
  import opened Wrappers

  /** Absent: no such key. Empty: the empty string, which cannot be cast to a number. */
  datatype Cell = Absent | Empty | Number(value: real)

  datatype Criterion = Criterion(row: int, outcome: Option<string>, question: Option<string>, min: Cell, max: Cell)

  /** Questions are grouped by the pair. */
  datatype Group = Group(outcome: Option<string>, question: Option<string>)

  datatype Code = MinGreaterThanMax | OutcomeRequired | QuestionRequired | Overlap | TotalNot20

  datatype Finding = Finding(row: int, code: Code)

  function ValueOf(c: Cell): real {
    if c.Number? then c.value else 0.0
  }

  function Low(c: Criterion): real { ValueOf(c.min) }

  function High(c: Criterion): real { ValueOf(c.max) }

  function GroupOf(c: Criterion): Group { Group(c.outcome, c.question) }

  /** Criteria are selected by question OR outcome. */
  predicate Picks(g: Group, c: Criterion) {
    (g.question.Some? && c.question == g.question) || (g.outcome.Some? && c.outcome == g.outcome)
  }

  function Picked(rows: seq<Criterion>, g: Group): (cs: seq<Criterion>)
    ensures forall c :: c in cs <==> c in rows && Picks(g, c)
  {
    if rows == [] then []
    else Picked(rows[..|rows| - 1], g) + (if Picks(g, rows[|rows| - 1]) then [rows[|rows| - 1]] else [])
  }

  function Members(rows: seq<Criterion>, g: Group): (cs: seq<Criterion>)
    ensures forall c :: c in cs <==> c in rows && GroupOf(c) == g
  {
    if rows == [] then []
    else Members(rows[..|rows| - 1], g) + (if GroupOf(rows[|rows| - 1]) == g then [rows[|rows| - 1]] else [])
  }

  /** The check of each row: a minimum above the maximum is refused when both are numbers. */
  predicate RowOk(c: Criterion) {
    c.min.Number? && c.max.Number? ==> c.min.value <= c.max.value
  }

  /** GROUP BY in some order. */
  ghost predicate Enumerates(groups: seq<Group>, rows: seq<Criterion>) {
    && (forall i, j :: 0 <= i < j < |groups| ==> groups[i] != groups[j])
    && (forall g :: g in groups <==> exists c :: c in rows && GroupOf(c) == g)
  }

  /** ORDER BY the bare minimum, ascending: absent ones come last. */
  predicate Before(a: Criterion, b: Criterion) {
    && (a.min.Number? && b.min.Number? ==> a.min.value <= b.min.value)
    && (a.min.Absent? ==> !b.min.Number?)
  }

  ghost predicate Ordered(scan: seq<Criterion>) {
    forall i, j :: 0 <= i < j < |scan| ==> Before(scan[i], scan[j])
  }

  /** The query of one question may come back in any such order. */
  ghost predicate IsScan(scan: seq<Criterion>, rows: seq<Criterion>, g: Group) {
    multiset(scan) == multiset(Picked(rows, g)) && Ordered(scan)
  }

  ghost predicate AreScans(scans: map<Group, seq<Criterion>>, groups: seq<Group>, rows: seq<Criterion>) {
    forall g :: g in groups ==> g in scans && IsScan(scans[g], rows, g)
  }

  // ---------------------------------------------------------------- the sweep

  function Overlaps(scan: seq<Criterion>): seq<Finding> {
    if |scan| < 2 then []
    else
      var n := |scan| - 1;
      Overlaps(scan[..n]) + (if Low(scan[n]) <= High(scan[n - 1]) then [Finding(scan[n].row, Overlap)] else [])
  }

  method Sweep(scan: seq<Criterion>) returns (found: seq<Finding>)
    ensures found == Overlaps(scan)
  {
    found := [];
    var maxPrev: Option<real> := None;
    for n := 0 to |scan|
      invariant found == Overlaps(scan[..n])
      invariant maxPrev == if n == 0 then None else Some(High(scan[n - 1]))
    {
      assert scan[..n + 1][..n] == scan[..n];
      if maxPrev.Some? && Low(scan[n]) <= maxPrev.value {
        found := found + [Finding(scan[n].row, Overlap)];
      }
      maxPrev := Some(High(scan[n]));
    }
    assert scan[..|scan|] == scan;
  }

  /** The closed interval of a criterion. */
  predicate Covers(c: Criterion, x: real) { Low(c) <= x <= High(c) }

  ghost predicate Disjoint(a: Criterion, b: Criterion) {
    forall x :: !(Covers(a, x) && Covers(b, x))
  }

  ghost predicate Apart(cs: multiset<Criterion>) {
    forall a, b :: a in cs && b in cs - multiset{a} ==> Disjoint(a, b)
  }

  lemma OtherPlace(s: seq<Criterion>, i: nat, j: nat)
    requires i < |s| && j < |s| && i != j
    ensures s[i] in multiset(s) && s[j] in multiset(s) - multiset{s[i]}
  {
    var others := s[..i] + s[i + 1..];
    assert s == s[..i] + [s[i]] + s[i + 1..];
    assert multiset(s) - multiset{s[i]} == multiset(others);
    assert s[j] == if j < i then others[j] else others[j - 1];
  }

  lemma ApartAt(s: seq<Criterion>, i: nat, j: nat)
    requires Apart(multiset(s)) && i < |s| && j < |s| && i != j
    ensures Disjoint(s[i], s[j])
  {
    OtherPlace(s, i, j);
  }

  lemma WithoutPlace(s: seq<Criterion>, i: nat)
    requires i < |s|
    ensures multiset(s) - multiset{s[i]} == multiset(s[..i] + s[i + 1..])
  {
    assert s == s[..i] + [s[i]] + s[i + 1..];
  }

  lemma TwoPlaces(s: seq<Criterion>, a: Criterion, b: Criterion) returns (i: nat, j: nat)
    requires a in s && b in multiset(s) - multiset{a}
    ensures i < |s| && j < |s| && i != j && s[i] == a && s[j] == b
  {
    i :| i < |s| && s[i] == a;
    var others := s[..i] + s[i + 1..];
    WithoutPlace(s, i);
    assert b in multiset(others);
    var k :| 0 <= k < |others| && others[k] == b;
    j := if k < i then k else k + 1;
  }

  lemma ApartFrom(s: seq<Criterion>)
    requires forall i, j :: 0 <= i < j < |s| ==> Disjoint(s[i], s[j])
    ensures Apart(multiset(s))
  {
    hide Disjoint, Low, High;
    forall a, b | a in multiset(s) && b in multiset(s) - multiset{a} ensures Disjoint(a, b) {
      var i, j := TwoPlaces(s, a, b);
      DisjointCommutes(a, b);
    }
  }

  lemma DisjointCommutes(a: Criterion, b: Criterion)
    ensures Disjoint(a, b) <==> Disjoint(b, a)
  {}

  lemma {:induction false} NoOverlapAt(scan: seq<Criterion>, i: nat)
    requires i + 1 < |scan| && Overlaps(scan) == []
    ensures High(scan[i]) < Low(scan[i + 1])
  {
    var n := |scan| - 1;
    if i + 1 < n {
      NoOverlapAt(scan[..n], i);
    }
  }

  lemma {:induction false} SomeOverlap(scan: seq<Criterion>) returns (i: nat)
    requires Overlaps(scan) != []
    ensures i + 1 < |scan| && Low(scan[i + 1]) <= High(scan[i])
  {
    var n := |scan| - 1;
    if Low(scan[n]) <= High(scan[n - 1]) {
      i := n - 1;
    } else {
      i := SomeOverlap(scan[..n]);
    }
  }

  ghost predicate Castable(cs: seq<Criterion>) {
    forall c :: c in cs ==> !c.min.Empty?
  }

  /** Before a row without a minimum, which counts as 0, an accepted scan only has negative maxima. */
  lemma {:induction false} NegativeBefore(scan: seq<Criterion>, i: nat, j: nat)
    requires Ordered(scan) && Castable(scan) && Overlaps(scan) == [] && forall c :: c in scan ==> RowOk(c)
    requires i < j < |scan| && scan[i].min.Number? && scan[j].min.Absent?
    ensures High(scan[i]) < 0.0
    decreases j
  {
    assert scan[j - 1] in scan && scan[i + 1] in scan;
    NoOverlapAt(scan, j - 1);
    NoOverlapAt(scan, i);
    if scan[j - 1].min.Absent? {
      NegativeBefore(scan, i, j - 1);
    } else if i < j - 1 {
      assert Before(scan[i + 1], scan[j - 1]) || i + 1 == j - 1;
    }
  }

  /** A scan without a finding has pairwise disjoint intervals, whatever bounds are missing. */
  lemma SweepSound(scan: seq<Criterion>)
    requires Ordered(scan) && Castable(scan) && forall c :: c in scan ==> RowOk(c)
    requires Overlaps(scan) == []
    ensures Apart(multiset(scan))
  {
    forall i, j | 0 <= i < j < |scan| ensures Disjoint(scan[i], scan[j]) {
      assert scan[i] in scan && scan[j] in scan && scan[i + 1] in scan;
      assert Before(scan[i], scan[j]);
      assert i + 1 < j ==> Before(scan[i + 1], scan[j]);
      NoOverlapAt(scan, i);
      if scan[i].min.Number? && scan[j].min.Absent? {
        NegativeBefore(scan, i, j);
      }
    }
    ApartFrom(scan);
  }

  /** Every criterion ends before each of the later ones begins. */
  ghost predicate Clear(scan: seq<Criterion>) {
    forall i, j :: 0 <= i < j < |scan| ==> High(scan[i]) < Low(scan[j])
  }

  lemma ClearPair(scan: seq<Criterion>, i: nat, j: nat)
    requires Ordered(scan) && Castable(scan) && (forall c :: c in scan ==> RowOk(c)) && Overlaps(scan) == []
    requires i < j < |scan|
    ensures High(scan[i]) < Low(scan[j])
  {
    assert scan[i] in scan && scan[j] in scan && scan[i + 1] in scan && scan[j - 1] in scan;
    NoOverlapAt(scan, i);
    NoOverlapAt(scan, j - 1);
    if scan[i].min.Number? && scan[j].min.Absent? {
      NegativeBefore(scan, i, j);
    } else {
      assert i + 1 < j ==> Before(scan[i + 1], scan[j]);
      assert Before(scan[i], scan[j]);
    }
  }

  /**
   * For all rows that pass the row check, whatever bounds are missing: comparing neighbours only finds
   * nothing exactly when every criterion of the scan ends before each of the later ones begins.
   */
  lemma {:induction false} SweepExact(scan: seq<Criterion>)
    requires Ordered(scan) && Castable(scan) && forall c :: c in scan ==> RowOk(c)
    ensures Overlaps(scan) == [] <==> Clear(scan)
  {
    if Overlaps(scan) == [] {
      forall i, j | 0 <= i < j < |scan| ensures High(scan[i]) < Low(scan[j]) {
        ClearPair(scan, i, j);
      }
    } else {
      var i := SomeOverlap(scan);
      assert High(scan[i]) >= Low(scan[i + 1]);
    }
  }

  /** An interval that ends before it begins, and so holds no score, once a missing bound counts as 0. */
  predicate Hollow(c: Criterion) { High(c) < Low(c) }

  /** The earlier row reaches up to where the later one begins, although no score lies in both. */
  ghost predicate WronglyReported(a: Criterion, b: Criterion) {
    Disjoint(a, b) && Low(b) <= High(a)
  }

  /** Exactly three kinds of pairs: either of the two is hollow, or the later one lacks its minimum and lies below. */
  lemma WronglyReportedExactly(a: Criterion, b: Criterion)
    requires Before(a, b) && !a.min.Empty? && !b.min.Empty?
    ensures WronglyReported(a, b) <==>
            Low(b) <= High(a) && (Hollow(a) || Hollow(b) || (a.min.Number? && b.min.Absent? && High(b) < Low(a)))
  {
    var x := if Low(a) < Low(b) then Low(b) else Low(a);
    if Low(b) <= High(a) && !Hollow(a) && !Hollow(b) && !(a.min.Number? && b.min.Absent? && High(b) < Low(a)) {
      assert Covers(a, x) && Covers(b, x);
    }
  }

  /** A scan of disjoint intervals is refused exactly when it has such a pair. */
  lemma DisjointRefused(scan: seq<Criterion>)
    requires Ordered(scan) && Castable(scan) && (forall c :: c in scan ==> RowOk(c)) && Apart(multiset(scan))
    ensures Overlaps(scan) != [] <==> exists i, j :: 0 <= i < j < |scan| && WronglyReported(scan[i], scan[j])
  {
    hide Overlaps, Ordered, Low, High;
    SweepExact(scan);
    forall i, j | 0 <= i < j < |scan| ensures WronglyReported(scan[i], scan[j]) <==> Low(scan[j]) <= High(scan[i]) {
      ApartAt(scan, i, j);
    }
    if Overlaps(scan) != [] {
      var i, j :| 0 <= i < j < |scan| && !(High(scan[i]) < Low(scan[j]));
      assert WronglyReported(scan[i], scan[j]);
    }
  }

  predicate Tidy(c: Criterion) {
    c.min.Number? && Low(c) <= High(c)
  }

  /** With every minimum given and no hollow interval, nothing is refused wrongly, in any order. */
  lemma SweepOfTidy(scan: seq<Criterion>)
    requires Ordered(scan) && forall c :: c in scan ==> Tidy(c)
    ensures Overlaps(scan) == [] <==> Apart(multiset(scan))
  {
    if Overlaps(scan) == [] {
      SweepSound(scan);
    } else if Apart(multiset(scan)) {
      DisjointRefused(scan);
      var i, j :| 0 <= i < j < |scan| && WronglyReported(scan[i], scan[j]);
      assert scan[i] in scan && scan[j] in scan && Before(scan[i], scan[j]);
      WronglyReportedExactly(scan[i], scan[j]);
      assert false;
    }
  }

  // ---------------------------------------------------------------- the order of the query

  /** Rows that the query may return in either order. */
  predicate Tied(a: Criterion, b: Criterion) {
    Before(a, b) && Before(b, a)
  }

  /** Rows that may change places are hollow. */
  ghost predicate TiesHollow(scan: seq<Criterion>) {
    forall i, j :: 0 <= i < j < |scan| && Tied(scan[i], scan[j]) ==> Hollow(scan[j])
  }

  /** Another order of the same rows. */
  ghost predicate Reordered(scan: seq<Criterion>, other: seq<Criterion>) {
    multiset(scan) == multiset(other) && Ordered(other)
  }

  lemma ReorderedPlaces(scan: seq<Criterion>, other: seq<Criterion>, p: nat, q: nat) returns (i: nat, j: nat)
    requires Reordered(scan, other) && p < q < |other|
    ensures i < |scan| && j < |scan| && i != j && scan[i] == other[p] && scan[j] == other[q]
  {
    hide Ordered;
    OtherPlace(other, p, q);
    assert other[p] in multiset(scan);
    i, j := TwoPlaces(scan, other[p], other[q]);
  }

  lemma OtherOrderClear(scan: seq<Criterion>, other: seq<Criterion>)
    requires Ordered(scan) && Castable(scan) && Clear(scan) && TiesHollow(scan) && Reordered(scan, other)
    ensures Clear(other)
  {
    forall p, q | 0 <= p < q < |other| ensures High(other[p]) < Low(other[q]) {
      var i, j := ReorderedPlaces(scan, other, p, q);
      assert scan[i] in scan && scan[j] in scan;
      if j < i {
        assert Before(scan[j], scan[i]) && Before(other[p], other[q]);
        assert Tied(scan[j], scan[i]) && Hollow(scan[i]);
      }
    }
  }

  /** A tied row that is not hollow, moved to the front of its tie, is reported with the next one. */
  lemma SwapTied(scan: seq<Criterion>, i: nat, j: nat)
    requires Ordered(scan) && Castable(scan) && i < j < |scan| && Tied(scan[i], scan[j]) && !Hollow(scan[j])
    ensures var other := scan[i := scan[j]][j := scan[i]];
            Reordered(scan, other) && !Clear(other)
  {
    var other := scan[i := scan[j]][j := scan[i]];
    assert multiset(scan) == multiset(other);
    assert scan[i] in scan && scan[j] in scan;
    forall p, q | 0 <= p < q < |other| ensures Before(other[p], other[q]) {
      assert scan[p] in scan && scan[q] in scan;
      assert i < q ==> Before(scan[i], scan[q]);
      assert p < j ==> Before(scan[p], scan[j]);
      assert p < i ==> Before(scan[p], scan[i]);
      assert j < q ==> Before(scan[j], scan[q]);
      assert Before(scan[p], scan[q]);
    }
    assert High(other[i]) >= Low(other[j]);
  }

  /**
   * An accepted scan would be accepted in every order that the query may choose if and only if each row
   * that shares its minimum, or the lack of one, with another row is hollow.
   */
  lemma OrderIndependent(scan: seq<Criterion>)
    requires Ordered(scan) && Castable(scan) && (forall c :: c in scan ==> RowOk(c)) && Overlaps(scan) == []
    ensures (forall other :: Reordered(scan, other) ==> Overlaps(other) == []) <==> TiesHollow(scan)
  {
    hide Overlaps, Ordered, Castable, Clear, TiesHollow, Reordered, RowOk;
    SweepExact(scan);
    forall other | Reordered(scan, other) ensures Overlaps(other) == [] <==> Clear(other) {
      ReorderedExact(scan, other);
    }
    if TiesHollow(scan) {
      forall other | Reordered(scan, other) ensures Clear(other) {
        OtherOrderClear(scan, other);
      }
    } else {
      var i, j := SolidTie(scan);
      SwapTied(scan, i, j);
    }
  }

  lemma SolidTie(scan: seq<Criterion>) returns (i: nat, j: nat)
    requires !TiesHollow(scan)
    ensures i < j < |scan| && Tied(scan[i], scan[j]) && !Hollow(scan[j])
  {
    hide Tied, Hollow;
    i, j :| 0 <= i < j < |scan| && Tied(scan[i], scan[j]) && !Hollow(scan[j]);
  }

  lemma ReorderedExact(scan: seq<Criterion>, other: seq<Criterion>)
    requires Castable(scan) && (forall c :: c in scan ==> RowOk(c)) && Reordered(scan, other)
    ensures Overlaps(other) == [] <==> Clear(other)
  {
    hide Overlaps, Ordered, Clear, RowOk;
    forall c ensures c in other <==> c in scan {
      assert c in multiset(other) <==> c in multiset(scan);
    }
    SweepExact(other);
  }

  /** Two rows without a minimum, with maxima -1 and 3: the order that the query picks decides. */
  lemma OrderDecides()
    ensures var a := Criterion(1, None, Some("q"), Absent, Number(-1.0));
            var b := Criterion(2, None, Some("q"), Absent, Number(3.0));
            RowOk(a) && RowOk(b) && Ordered([a, b]) && Reordered([a, b], [b, a]) &&
            Overlaps([a, b]) == [] && Overlaps([b, a]) == [Finding(1, Overlap)]
  {
    var a := Criterion(1, None, Some("q"), Absent, Number(-1.0));
    var b := Criterion(2, None, Some("q"), Absent, Number(3.0));
    assert [a, b][..1] == [a] && [b, a][..1] == [b];
    assert multiset([a, b]) == multiset([b, a]);
  }

  /** A missing minimum sorts last but counts as 0: [1,20] and [0,0] are disjoint, and reported. */
  lemma MissingMinimumMisjudged()
    ensures var a := Criterion(1, None, Some("q"), Number(1.0), Number(20.0));
            var b := Criterion(2, None, Some("q"), Absent, Number(0.0));
            IsScan([a, b], [a, b], GroupOf(a)) && RowOk(a) && RowOk(b) && Disjoint(a, b) &&
            Overlaps([a, b]) == [Finding(2, Overlap)]
  {
    var a := Criterion(1, None, Some("q"), Number(1.0), Number(20.0));
    var b := Criterion(2, None, Some("q"), Absent, Number(0.0));
    assert [a, b][..1] == [a];
    assert Picked([a, b], GroupOf(a)) == [a, b] by {
      assert Picked([a], GroupOf(a)) == [a] by { assert [a][..0] == []; }
    }
  }

  /** A missing maximum counts as 0 and makes an empty interval, which meets nothing and is reported. */
  lemma MissingMaximumMisjudged()
    ensures var a := Criterion(1, None, Some("q"), Number(1.0), Number(20.0));
            var b := Criterion(2, None, Some("q"), Number(5.0), Absent);
            RowOk(a) && RowOk(b) && Ordered([a, b]) && Disjoint(a, b) && Overlaps([a, b]) == [Finding(2, Overlap)]
  {
    var a := Criterion(1, None, Some("q"), Number(1.0), Number(20.0));
    var b := Criterion(2, None, Some("q"), Number(5.0), Absent);
    assert [a, b][..1] == [a];
  }

  // ---------------------------------------------------------------- the total

  function MaxOf(cs: seq<Criterion>): (m: real)
    requires cs != []
    ensures forall c :: c in cs ==> High(c) <= m
    ensures exists c :: c in cs && High(c) == m
  {
    var last := cs[|cs| - 1];
    if |cs| == 1 then
      assert last in cs; High(last)
    else
      var init := cs[..|cs| - 1];
      var m := MaxOf(init);
      assert forall c :: c in cs ==> c in init || c == last;
      assert last in cs && forall c :: c in init ==> c in cs;
      if m < High(last) then High(last) else m
  }

  ghost predicate Inhabited(groups: seq<Group>, rows: seq<Criterion>) {
    forall g :: g in groups ==> Members(rows, g) != []
  }

  lemma GroupsInhabited(groups: seq<Group>, rows: seq<Criterion>)
    requires Enumerates(groups, rows)
    ensures Inhabited(groups, rows)
  {
    forall g | g in groups ensures Members(rows, g) != [] {
      var c :| c in rows && GroupOf(c) == g;
      assert c in Members(rows, g);
    }
  }

  /** SUM over the questions of the MAX of their maxima. */
  function Total(rows: seq<Criterion>, groups: seq<Group>): real
    requires Inhabited(groups, rows)
  {
    if groups == [] then 0.0
    else
      var g := groups[|groups| - 1];
      Total(rows, groups[..|groups| - 1]) + MaxOf(Members(rows, g))
  }

  /** One criterion awarded for each question. */
  ghost predicate IsChoice(choice: map<Group, Criterion>, rows: seq<Criterion>, groups: seq<Group>) {
    forall g :: g in groups ==> g in choice && choice[g] in rows && GroupOf(choice[g]) == g
  }

  /** The most an evaluation can score with that choice. */
  ghost function Score(choice: map<Group, Criterion>, groups: seq<Group>): real
    requires forall g :: g in groups ==> g in choice
  {
    if groups == [] then 0.0
    else Score(choice, groups[..|groups| - 1]) + High(choice[groups[|groups| - 1]])
  }

  lemma {:induction false} ChoiceBounded(choice: map<Group, Criterion>, rows: seq<Criterion>, groups: seq<Group>)
    requires Inhabited(groups, rows) && IsChoice(choice, rows, groups)
    ensures Score(choice, groups) <= Total(rows, groups)
  {
    if groups != [] {
      var g := groups[|groups| - 1];
      ChoiceBounded(choice, rows, groups[..|groups| - 1]);
      assert choice[g] in Members(rows, g);
    }
  }

  ghost function Top(cs: seq<Criterion>): (c: Criterion)
    requires cs != []
    ensures c in cs && High(c) == MaxOf(cs)
  {
    var m := MaxOf(cs);
    var c :| c in cs && High(c) == m; c
  }

  lemma {:induction false} TopScore(choice: map<Group, Criterion>, rows: seq<Criterion>, groups: seq<Group>)
    requires Inhabited(groups, rows)
    requires forall g :: g in groups ==> g in choice && choice[g] == Top(Members(rows, g))
    ensures Score(choice, groups) == Total(rows, groups)
  {
    if groups != [] {
      TopScore(choice, rows, groups[..|groups| - 1]);
    }
  }

  lemma BestChoice(rows: seq<Criterion>, groups: seq<Group>) returns (choice: map<Group, Criterion>)
    requires Inhabited(groups, rows)
    ensures IsChoice(choice, rows, groups) && Score(choice, groups) == Total(rows, groups)
  {
    choice := map g | g in groups :: Top(Members(rows, g));
    TopScore(choice, rows, groups);
    forall g | g in groups ensures choice[g] in rows && GroupOf(choice[g]) == g {
      assert choice[g] in Members(rows, g);
    }
  }

  /** ROUND(x, 6) of a numeric: half away from zero. */
  function Round6(x: real): real {
    if x >= 0.0 then (x * 1000000.0 + 0.5).Floor as real / 1000000.0
    else -((-x * 1000000.0 + 0.5).Floor as real / 1000000.0)
  }

  lemma RoundsTo20(x: real)
    ensures Round6(x) == 20.0 <==> 19.9999995 <= x < 20.0000005
  {
    if x >= 0.0 {
      var n := (x * 1000000.0 + 0.5).Floor;
      assert Round6(x) == 20.0 <==> n == 20000000;
    } else {
      assert (-x * 1000000.0 + 0.5).Floor >= 0;
    }
  }

  predicate SixDecimals(x: real) {
    (x * 1000000.0).Floor as real == x * 1000000.0
  }

  lemma SixDecimalsAdd(x: real, y: real)
    requires SixDecimals(x) && SixDecimals(y)
    ensures SixDecimals(x + y)
  {
    var n := (x * 1000000.0).Floor + (y * 1000000.0).Floor;
    assert (x + y) * 1000000.0 == n as real;
  }

  lemma MaxSixDecimals(rows: seq<Criterion>, g: Group)
    requires Members(rows, g) != [] && forall c :: c in rows ==> SixDecimals(High(c))
    ensures SixDecimals(MaxOf(Members(rows, g)))
  {
    hide SixDecimals, High;
    assert Top(Members(rows, g)) in rows;
  }

  lemma ZeroSixDecimals()
    ensures SixDecimals(0.0)
  {}

  lemma {:induction false} TotalSixDecimals(rows: seq<Criterion>, groups: seq<Group>)
    requires Inhabited(groups, rows) && forall c :: c in rows ==> SixDecimals(High(c))
    ensures SixDecimals(Total(rows, groups))
  {
    hide SixDecimals, MaxOf, Members, High;
    ZeroSixDecimals();
    if groups != [] {
      var init, g := groups[..|groups| - 1], groups[|groups| - 1];
      TotalSixDecimals(rows, init);
      MaxSixDecimals(rows, g);
      SixDecimalsAdd(Total(rows, init), MaxOf(Members(rows, g)));
    }
  }

  lemma RoundingIsExact(x: real)
    requires SixDecimals(x)
    ensures Round6(x) == 20.0 <==> x == 20.0
  {
    RoundsTo20(x);
    var n := (x * 1000000.0).Floor;
    assert 19.9999995 <= x < 20.0000005 ==> 19999999.5 <= n as real < 20000000.5;
    assert 19.9999995 <= x < 20.0000005 ==> n == 20000000;
  }

  ghost predicate BestIs20(rows: seq<Criterion>, groups: seq<Group>) {
    && (forall choice :: IsChoice(choice, rows, groups) ==> Score(choice, groups) <= 20.0)
    && (exists choice :: IsChoice(choice, rows, groups) && Score(choice, groups) == 20.0)
  }

  /** The best possible score is 20 after rounding to six places. */
  ghost predicate BestRoundsTo20(rows: seq<Criterion>, groups: seq<Group>) {
    && (forall choice :: IsChoice(choice, rows, groups) ==> Score(choice, groups) < 20.0000005)
    && (exists choice :: IsChoice(choice, rows, groups) && Score(choice, groups) >= 19.9999995)
  }

  /** The total passes exactly when the best possible score rounds to 20. */
  lemma TotalExact(rows: seq<Criterion>, groups: seq<Group>)
    requires Inhabited(groups, rows)
    ensures Round6(Total(rows, groups)) == 20.0 <==> BestRoundsTo20(rows, groups)
  {
    hide Round6, Total, Score;
    var total := Total(rows, groups);
    RoundsTo20(total);
    var best := BestChoice(rows, groups);
    forall choice | IsChoice(choice, rows, groups) ensures Score(choice, groups) <= total {
      ChoiceBounded(choice, rows, groups);
    }
  }

  /** With at most six decimals, the best score that rounds to 20 is 20. */
  lemma SixDecimalsExact(rows: seq<Criterion>, groups: seq<Group>)
    requires Inhabited(groups, rows) && forall c :: c in rows ==> SixDecimals(High(c))
    ensures BestRoundsTo20(rows, groups) <==> BestIs20(rows, groups)
  {
    hide Round6, SixDecimals, Total, Score, BestRoundsTo20;
    var total := Total(rows, groups);
    TotalExact(rows, groups);
    TotalSixDecimals(rows, groups);
    RoundingIsExact(total);
    var best := BestChoice(rows, groups);
    forall choice | IsChoice(choice, rows, groups) ensures Score(choice, groups) <= total {
      ChoiceBounded(choice, rows, groups);
    }
  }

  // ---------------------------------------------------------------- validation of one rubric

  function FirstRow(rows: seq<Criterion>): (row: int)
    requires rows != []
    ensures forall c :: c in rows ==> row <= c.row
    ensures exists c :: c in rows && c.row == row
  {
    var last := rows[|rows| - 1];
    if |rows| == 1 then
      assert last in rows; last.row
    else
      var init := rows[..|rows| - 1];
      assert forall c :: c in rows ==> c in init || c == last;
      assert last in rows && forall c :: c in init ==> c in rows;
      var row := FirstRow(init);
      if last.row < row then last.row else row
  }

  function AllOverlaps(groups: seq<Group>, scans: map<Group, seq<Criterion>>): seq<Finding>
    requires forall g :: g in groups ==> g in scans
  {
    if groups == [] then []
    else AllOverlaps(groups[..|groups| - 1], scans) + Overlaps(scans[groups[|groups| - 1]])
  }

  /** Raised: the cast of an empty minimum in ORDER BY aborts the whole upload. */
  datatype Verdict = Found(findings: seq<Finding>) | Raised

  predicate NoOutcome(c: Criterion) { c.outcome.None? }
  predicate NoQuestion(c: Criterion) { c.question.None? }

  function Misordered(rows: seq<Criterion>): seq<Finding> {
    if rows == [] then []
    else
      var c := rows[|rows| - 1];
      Misordered(rows[..|rows| - 1]) + (if RowOk(c) then [] else [Finding(c.row, MinGreaterThanMax)])
  }

  function Judged(rows: seq<Criterion>, capstoneEb: bool, groups: seq<Group>,
                  scans: map<Group, seq<Criterion>>): Verdict
    requires rows != [] && Inhabited(groups, rows) && forall g :: g in groups ==> g in scans
  {
    if Misordered(rows) != [] then Found(Misordered(rows))
    else if capstoneEb && exists c :: c in rows && NoOutcome(c) then Found([Finding(FirstRow(rows), OutcomeRequired)])
    else if !capstoneEb && exists c :: c in rows && NoQuestion(c)
    then Found([Finding(FirstRow(rows), QuestionRequired)])
    else if exists c :: c in rows && c.min.Empty? then Raised
    else if capstoneEb then Found([])
    else
      Found(AllOverlaps(groups, scans) +
            (if Round6(Total(rows, groups)) == 20.0 then [] else [Finding(FirstRow(rows), TotalNot20)]))
  }

  // ---------------------------------------------------------------- stored questions and criteria

  datatype Question = Question(group: Group, criteria: seq<Criterion>, uploadLogId: nat)

  function Stored(groups: seq<Group>, scans: map<Group, seq<Criterion>>, id: nat): seq<Question>
    requires forall g :: g in groups ==> g in scans
  {
    if groups == [] then []
    else
      var g := groups[|groups| - 1];
      Stored(groups[..|groups| - 1], scans, id) + [Question(g, scans[g], id)]
  }

  /** The tables evaluation.rubric_questions and evaluation.rubric_question_criterias. */
  class RubricTables {
    var questions: seq<Question>

    constructor ()
      ensures questions == []
    {
      questions := [];
    }

    /** One rubric of the file: everything is stored, or nothing. */
    method Upload(rows: seq<Criterion>, capstoneEb: bool, groups: seq<Group>, scans: map<Group, seq<Criterion>>,
                  id: nat)
      returns (verdict: Verdict)
      requires rows != [] && Enumerates(groups, rows) && AreScans(scans, groups, rows) && Inhabited(groups, rows)
      modifies this
      ensures verdict == Judged(rows, capstoneEb, groups, scans)
      ensures questions == old(questions) + (if verdict == Found([]) then Stored(groups, scans, id) else [])
    {
      hide Judged, Enumerates, Ordered, Stored;
      verdict := Judge(rows, capstoneEb, groups, scans);
      if verdict == Found([]) {
        Insert(groups, scans, id);
      }
    }

    method Insert(groups: seq<Group>, scans: map<Group, seq<Criterion>>, id: nat)
      requires forall g :: g in groups ==> g in scans
      modifies this
      ensures questions == old(questions) + Stored(groups, scans, id)
    {
      for n := 0 to |groups|
        invariant questions == old(questions) + Stored(groups[..n], scans, id)
      {
        assert groups[..n + 1][..n] == groups[..n];
        var criteria: seq<Criterion> := [];
        var scan := scans[groups[n]];
        for m := 0 to |scan|
          invariant criteria == scan[..m]
        {
          criteria := criteria + [scan[m]];
        }
        assert scan[..|scan|] == scan;
        questions := questions + [Question(groups[n], criteria, id)];
      }
      assert groups[..|groups|] == groups;
    }
  }

  method CheckRows(rows: seq<Criterion>) returns (found: seq<Finding>)
    ensures found == Misordered(rows)
  {
    found := [];
    for n := 0 to |rows|
      invariant found == Misordered(rows[..n])
    {
      assert rows[..n + 1][..n] == rows[..n];
      if rows[n].min.Number? && rows[n].max.Number? && rows[n].min.value > rows[n].max.value {
        found := found + [Finding(rows[n].row, MinGreaterThanMax)];
      }
    }
    assert rows[..|rows|] == rows;
  }

  method SweepAll(groups: seq<Group>, scans: map<Group, seq<Criterion>>) returns (found: seq<Finding>)
    requires forall g :: g in groups ==> g in scans
    ensures found == AllOverlaps(groups, scans)
  {
    found := [];
    for n := 0 to |groups|
      invariant found == AllOverlaps(groups[..n], scans)
    {
      assert groups[..n + 1][..n] == groups[..n];
      var more := Sweep(scans[groups[n]]);
      found := found + more;
    }
    assert groups[..|groups|] == groups;
  }

  method Judge(rows: seq<Criterion>, capstoneEb: bool, groups: seq<Group>, scans: map<Group, seq<Criterion>>)
    returns (verdict: Verdict)
    requires rows != [] && Inhabited(groups, rows) && forall g :: g in groups ==> g in scans
    ensures verdict == Judged(rows, capstoneEb, groups, scans)
  {
    hide RowOk, Round6, Total, Overlaps, AllOverlaps, Misordered, FirstRow, Inhabited;
    var found := CheckRows(rows);
    if found != [] {
      return Found(found);
    }
    if capstoneEb && exists c :: c in rows && NoOutcome(c) {
      return Found([Finding(FirstRow(rows), OutcomeRequired)]);
    }
    if !capstoneEb && exists c :: c in rows && NoQuestion(c) {
      return Found([Finding(FirstRow(rows), QuestionRequired)]);
    }
    if exists c :: c in rows && c.min.Empty? {
      return Raised;
    }
    if !capstoneEb {
      found := SweepAll(groups, scans);
      if Round6(Total(rows, groups)) != 20.0 {
        found := found + [Finding(FirstRow(rows), TotalNot20)];
      }
    }
    return Found(found);
  }

  // ---------------------------------------------------------------- what acceptance means

  lemma {:induction false} NoMisordered(rows: seq<Criterion>)
    ensures Misordered(rows) == [] <==> forall c :: c in rows ==> RowOk(c)
  {
    if rows != [] {
      var init, last := rows[..|rows| - 1], rows[|rows| - 1];
      NoMisordered(init);
      assert last in rows && forall c :: c in rows <==> c in init || c == last;
    }
  }

  lemma {:induction false} NoOverlaps(groups: seq<Group>, scans: map<Group, seq<Criterion>>)
    requires forall g :: g in groups ==> g in scans
    ensures AllOverlaps(groups, scans) == [] <==> forall g :: g in groups ==> Overlaps(scans[g]) == []
  {
    if groups != [] {
      var init, last := groups[..|groups| - 1], groups[|groups| - 1];
      NoOverlaps(init, scans);
      assert last in groups && forall g :: g in groups <==> g in init || g == last;
    }
  }

  ghost predicate AllApart(rows: seq<Criterion>, groups: seq<Group>) {
    forall g :: g in groups ==> Apart(multiset(Picked(rows, g)))
  }

  lemma ScanMembers(scan: seq<Criterion>, rows: seq<Criterion>, g: Group)
    requires IsScan(scan, rows, g)
    ensures forall c :: c in scan <==> c in rows && Picks(g, c)
  {
    forall c ensures c in scan <==> c in Picked(rows, g) {
      assert c in scan <==> c in multiset(scan);
    }
  }

  /** No file with overlapping intervals under one question or outcome is accepted. */
  lemma AcceptedSound(rows: seq<Criterion>, groups: seq<Group>, scans: map<Group, seq<Criterion>>)
    requires rows != [] && Inhabited(groups, rows) && AreScans(scans, groups, rows)
    ensures Judged(rows, false, groups, scans) == Found([]) ==>
              (forall c :: c in rows ==> RowOk(c) && c.question.Some?) && AllApart(rows, groups)
  {
    hide Apart, Overlaps, RowOk, Ordered;
    NoMisordered(rows);
    NoOverlaps(groups, scans);
    if Judged(rows, false, groups, scans) == Found([]) {
      forall c | c in rows ensures c.question.Some? { assert !NoQuestion(c); }
      forall g | g in groups ensures Apart(multiset(Picked(rows, g))) {
        ScanMembers(scans[g], rows, g);
        SweepSound(scans[g]);
      }
    }
  }

  /** What a row needs on its own: ordered bounds, a minimum that can be cast, and a question. */
  predicate Presentable(c: Criterion) {
    RowOk(c) && !c.min.Empty? && c.question.Some?
  }

  ghost predicate AllClear(groups: seq<Group>, scans: map<Group, seq<Criterion>>)
    requires forall g :: g in groups ==> g in scans
  {
    forall g :: g in groups ==> Clear(scans[g])
  }

  lemma PresentableRows(rows: seq<Criterion>)
    ensures (forall c :: c in rows ==> Presentable(c)) <==>
            Misordered(rows) == [] && !(exists c :: c in rows && NoQuestion(c)) &&
            !(exists c :: c in rows && c.min.Empty?)
  {
    NoMisordered(rows);
    hide RowOk, Misordered;
    if (forall c :: c in rows ==> RowOk(c)) && !(exists c :: c in rows && NoQuestion(c)) &&
       !(exists c :: c in rows && c.min.Empty?) {
      forall c | c in rows ensures Presentable(c) { assert !NoQuestion(c); }
    }
  }

  lemma ClearScans(rows: seq<Criterion>, groups: seq<Group>, scans: map<Group, seq<Criterion>>)
    requires AreScans(scans, groups, rows) && forall c :: c in rows ==> Presentable(c)
    ensures AllOverlaps(groups, scans) == [] <==> AllClear(groups, scans)
  {
    hide Overlaps, Ordered, RowOk, Clear;
    NoOverlaps(groups, scans);
    forall g | g in groups ensures Clear(scans[g]) <==> Overlaps(scans[g]) == [] {
      ScanMembers(scans[g], rows, g);
      SweepExact(scans[g]);
    }
  }

  /**
   * A rubric is accepted exactly when every row is presentable, no scan has a criterion that reaches to
   * where a later one begins, and the best score rounds to 20. Whatever bounds are missing count as 0.
   */
  lemma AcceptedExactly(rows: seq<Criterion>, groups: seq<Group>, scans: map<Group, seq<Criterion>>)
    requires rows != [] && Enumerates(groups, rows) && Inhabited(groups, rows) && AreScans(scans, groups, rows)
    ensures Judged(rows, false, groups, scans) == Found([]) <==>
            (forall c :: c in rows ==> Presentable(c)) && AllClear(groups, scans) && BestRoundsTo20(rows, groups)
  {
    hide Overlaps, Ordered, AllClear, BestRoundsTo20, Enumerates, Round6, Total, Presentable, NoQuestion, Misordered,
         AllOverlaps;
    PresentableRows(rows);
    TotalExact(rows, groups);
    if forall c :: c in rows ==> Presentable(c) {
      ClearScans(rows, groups, scans);
    }
  }

  lemma TidyScans(rows: seq<Criterion>, groups: seq<Group>, scans: map<Group, seq<Criterion>>)
    requires AreScans(scans, groups, rows) && forall c :: c in rows ==> Tidy(c)
    ensures AllClear(groups, scans) <==> AllApart(rows, groups)
  {
    hide Ordered, Clear, Apart;
    forall g | g in groups ensures Clear(scans[g]) <==> Apart(multiset(Picked(rows, g))) {
      ScanMembers(scans[g], rows, g);
      SweepExact(scans[g]);
      SweepOfTidy(scans[g]);
    }
  }

  /**
   * With every minimum given, no hollow interval and at most six decimals: exactly when every row has a
   * question, no two intervals picked for one question meet, and 20 is the best score - in any order.
   */
  lemma AcceptedTidy(rows: seq<Criterion>, groups: seq<Group>, scans: map<Group, seq<Criterion>>)
    requires rows != [] && Enumerates(groups, rows) && Inhabited(groups, rows) && AreScans(scans, groups, rows)
    requires forall c :: c in rows ==> Tidy(c) && SixDecimals(High(c))
    ensures Judged(rows, false, groups, scans) == Found([]) <==>
            (forall c :: c in rows ==> c.question.Some?) && AllApart(rows, groups) && BestIs20(rows, groups)
  {
    hide Judged, AllApart, AllClear, BestIs20, BestRoundsTo20, SixDecimals, Enumerates, IsScan;
    AcceptedExactly(rows, groups, scans);
    TidyScans(rows, groups, scans);
    SixDecimalsExact(rows, groups);
    assert (forall c :: c in rows ==> Presentable(c)) <==> forall c :: c in rows ==> c.question.Some?;
  }

  // ---------------------------------------------------------------- the total of what is stored

  function StoredTotal(questions: seq<Question>): real
    requires forall q :: q in questions ==> q.criteria != []
  {
    if questions == [] then 0.0
    else StoredTotal(questions[..|questions| - 1]) + MaxOf(questions[|questions| - 1].criteria)
  }

  /** Rows that share a question or an outcome are in the same group. */
  ghost predicate Isolated(rows: seq<Criterion>) {
    forall a, b :: a in rows && b in rows && Picks(GroupOf(a), b) ==> GroupOf(b) == GroupOf(a)
  }

  lemma MaxOfMore(few: seq<Criterion>, many: seq<Criterion>)
    requires few != [] && forall c :: c in few ==> c in many
    ensures many != [] && MaxOf(few) <= MaxOf(many)
  {
    assert few[0] in many;
    var m := MaxOf(few);
    var c :| c in few && High(c) == m;
  }

  ghost predicate Covered(groups: seq<Group>, rows: seq<Criterion>, scans: map<Group, seq<Criterion>>) {
    forall g :: g in groups ==>
      g in scans && Members(rows, g) != [] && forall c :: c in Members(rows, g) ==> c in scans[g]
  }

  lemma {:induction false} StoredAtLeast(rows: seq<Criterion>, groups: seq<Group>, scans: map<Group, seq<Criterion>>,
                                         id: nat)
    requires Inhabited(groups, rows) && Covered(groups, rows, scans)
    ensures forall q :: q in Stored(groups, scans, id) ==> q.criteria != []
    ensures StoredTotal(Stored(groups, scans, id)) >= Total(rows, groups)
    ensures StoredTotal(Stored(groups, scans, id)) == Total(rows, groups) <==>
            forall g :: g in groups ==> scans[g] != [] && MaxOf(scans[g]) == MaxOf(Members(rows, g))
  {
    if groups != [] {
      var init, g := groups[..|groups| - 1], groups[|groups| - 1];
      var before := Stored(init, scans, id);
      StoredAtLeast(rows, init, scans, id);
      MaxOfMore(Members(rows, g), scans[g]);
      assert (before + [Question(g, scans[g], id)])[..|before|] == before;
      assert g in groups && forall h :: h in groups <==> h in init || h == g;
    }
  }

  /** Two groups that pick each other's rows cannot both keep their own maximum. */
  lemma CrossPick(a: seq<Criterion>, b: seq<Criterion>, pickedA: seq<Criterion>, pickedB: seq<Criterion>)
    requires a != [] && b != [] && forall c :: !(c in a && c in b)
    requires forall c :: c in a || c in b ==> c in pickedA && c in pickedB && Tidy(c)
    requires Apart(multiset(pickedA))
    ensures pickedA != [] && pickedB != [] && (MaxOf(pickedA) != MaxOf(a) || MaxOf(pickedB) != MaxOf(b))
  {
    var x, y := Top(a), Top(b);
    assert x != y && x in multiset(pickedA) && y in multiset(pickedA) - multiset{x};
    assert Disjoint(x, y);
    assert Covers(x, High(x)) && Covers(y, High(y));
    MaxOfMore(b, pickedA);
    MaxOfMore(a, pickedB);
  }

  lemma Connected(rows: seq<Criterion>, groups: seq<Group>, scans: map<Group, seq<Criterion>>, a: Criterion,
                  b: Criterion)
    requires Enumerates(groups, rows) && AreScans(scans, groups, rows) && AllApart(rows, groups)
    requires forall c :: c in rows ==> Tidy(c) && c.question.Some?
    requires a in rows && b in rows && Picks(GroupOf(a), b) && GroupOf(b) != GroupOf(a)
    ensures exists g ::
              g in groups && scans[g] != [] && Members(rows, g) != [] && MaxOf(scans[g]) != MaxOf(Members(rows, g))
  {
    hide Apart, Ordered, Tidy;
    var g, h := GroupOf(a), GroupOf(b);
    assert g in groups && h in groups;
    ScanMembers(scans[g], rows, g);
    ScanMembers(scans[h], rows, h);
    assert a in Members(rows, g) && b in Members(rows, h);
    CrossPick(Members(rows, g), Members(rows, h), scans[g], scans[h]);
  }

  lemma ScansCover(rows: seq<Criterion>, groups: seq<Group>, scans: map<Group, seq<Criterion>>)
    requires Inhabited(groups, rows) && AreScans(scans, groups, rows) && forall c :: c in rows ==> c.question.Some?
    ensures Covered(groups, rows, scans)
  {
    forall g | g in groups ensures forall c :: c in Members(rows, g) ==> c in scans[g] {
      ScanMembers(scans[g], rows, g);
    }
  }

  /** No row is picked for a question whose own rows all end lower. */
  ghost predicate NoHigherGuest(rows: seq<Criterion>, groups: seq<Group>)
    requires Inhabited(groups, rows)
  {
    forall g, c :: g in groups && c in rows && Picks(g, c) ==> High(c) <= MaxOf(Members(rows, g))
  }

  lemma GuestsDecide(rows: seq<Criterion>, groups: seq<Group>, scans: map<Group, seq<Criterion>>)
    requires Inhabited(groups, rows) && AreScans(scans, groups, rows) && Covered(groups, rows, scans)
    ensures NoHigherGuest(rows, groups) <==>
            forall g :: g in groups ==> scans[g] != [] && MaxOf(scans[g]) == MaxOf(Members(rows, g))
  {
    hide Ordered, High;
    forall g | g in groups
      ensures scans[g] != []
      ensures MaxOf(scans[g]) == MaxOf(Members(rows, g)) <==>
              forall c :: c in rows && Picks(g, c) ==> High(c) <= MaxOf(Members(rows, g))
    {
      ScanMembers(scans[g], rows, g);
      MaxOfMore(Members(rows, g), scans[g]);
      var top := Top(scans[g]);
    }
  }

  /**
   * The maxima that are stored add up to at least the total that was checked, and to exactly it if and
   * only if no question picks a row that ends above all of its own.
   */
  lemma StoredTotalExact(rows: seq<Criterion>, groups: seq<Group>, scans: map<Group, seq<Criterion>>, id: nat)
    requires rows != [] && Enumerates(groups, rows) && Inhabited(groups, rows) && AreScans(scans, groups, rows)
    ensures Judged(rows, false, groups, scans) == Found([]) ==>
              var stored := Stored(groups, scans, id);
              && (forall q :: q in stored ==> q.criteria != [])
              && StoredTotal(stored) >= Total(rows, groups)
              && (StoredTotal(stored) == Total(rows, groups) <==> NoHigherGuest(rows, groups))
  {
    hide Judged, AllApart, Total, StoredTotal, Stored, Ordered, NoHigherGuest, IsScan;
    AcceptedSound(rows, groups, scans);
    if Judged(rows, false, groups, scans) == Found([]) {
      ScansCover(rows, groups, scans);
      StoredAtLeast(rows, groups, scans, id);
      GuestsDecide(rows, groups, scans);
    }
  }

  /** Without guests, a scan has the members of its group and no other row. */
  lemma SameTop(rows: seq<Criterion>, scan: seq<Criterion>, r: Criterion)
    requires Isolated(rows) && r in rows && IsScan(scan, rows, GroupOf(r)) && r.question.Some?
    ensures scan != [] && MaxOf(scan) == MaxOf(Members(rows, GroupOf(r)))
  {
    hide MaxOf, Ordered;
    var g := GroupOf(r);
    ScanMembers(scan, rows, g);
    assert r in Members(rows, g);
    MaxOfMore(Members(rows, g), scan);
    forall c | c in scan ensures c in Members(rows, g) {
      assert Picks(GroupOf(r), c);
    }
    MaxOfMore(scan, Members(rows, g));
  }

  /** With no hollow interval and every minimum given, that is when no two questions share an outcome or a text. */
  lemma GuestsOfTidy(rows: seq<Criterion>, groups: seq<Group>, scans: map<Group, seq<Criterion>>)
    requires Enumerates(groups, rows) && Inhabited(groups, rows) && AreScans(scans, groups, rows)
    requires AllApart(rows, groups) && forall c :: c in rows ==> Tidy(c) && c.question.Some?
    ensures NoHigherGuest(rows, groups) <==> Isolated(rows)
  {
    hide Tidy, AllApart, Ordered, High, NoHigherGuest;
    ScansCover(rows, groups, scans);
    GuestsDecide(rows, groups, scans);
    if Isolated(rows) {
      forall g | g in groups ensures scans[g] != [] && MaxOf(scans[g]) == MaxOf(Members(rows, g)) {
        var r :| r in rows && GroupOf(r) == g;
        SameTop(rows, scans[g], r);
      }
    } else {
      var a, b :| a in rows && b in rows && Picks(GroupOf(a), b) && GroupOf(b) != GroupOf(a);
      Connected(rows, groups, scans, a, b);
    }
  }

  // Two questions under one outcome, [0,8] and [9,12].

  function LowQuestion(): Criterion { Criterion(1, Some("o"), Some("q1"), Number(0.0), Number(8.0)) }

  function HighQuestion(): Criterion { Criterion(2, Some("o"), Some("q2"), Number(9.0), Number(12.0)) }

  function TwoGroups(): seq<Group> { [GroupOf(LowQuestion()), GroupOf(HighQuestion())] }

  function TwoRows(): seq<Criterion> { [LowQuestion(), HighQuestion()] }

  function TwoScans(): (scans: map<Group, seq<Criterion>>)
    ensures forall g :: g in TwoGroups() ==> g in scans
  {
    map[GroupOf(LowQuestion()) := TwoRows(), GroupOf(HighQuestion()) := TwoRows()]
  }

  lemma TwoFilters()
    ensures GroupOf(LowQuestion()) != GroupOf(HighQuestion())
    ensures forall g :: g in TwoGroups() ==> Picked(TwoRows(), g) == TwoRows()
    ensures Members(TwoRows(), GroupOf(LowQuestion())) == [LowQuestion()]
    ensures Members(TwoRows(), GroupOf(HighQuestion())) == [HighQuestion()]
  {
    var a, b, rows := LowQuestion(), HighQuestion(), TwoRows();
    assert "q1"[1] != "q2"[1];
    assert rows[..1] == [a] && [a][..0] == [];
    assert forall g :: g in TwoGroups() ==> Picked([a], g) == [a];
    assert Members([a], GroupOf(a)) == [a] && Members([a], GroupOf(b)) == [];
  }

  lemma TwoGroupsListed()
    ensures Enumerates(TwoGroups(), TwoRows()) && Inhabited(TwoGroups(), TwoRows())
  {
    TwoFilters();
    var a, b, rows := LowQuestion(), HighQuestion(), TwoRows();
    assert rows[0] == a && rows[1] == b && a in rows && b in rows;
    assert forall g :: g in TwoGroups() <==> g == GroupOf(a) || g == GroupOf(b);
    GroupsInhabited(TwoGroups(), rows);
  }

  lemma TwoScansListed()
    ensures AreScans(TwoScans(), TwoGroups(), TwoRows())
  {
    hide Picked, Members;
    TwoFilters();
    assert Ordered(TwoRows());
  }

  lemma TwoTotals()
    requires Inhabited(TwoGroups(), TwoRows())
    ensures Total(TwoRows(), TwoGroups()) == 20.0
    ensures Overlaps(TwoRows()) == [] && Misordered(TwoRows()) == []
  {
    TwoFilters();
    hide Picked, Members;
    var a, b, rows, groups := LowQuestion(), HighQuestion(), TwoRows(), TwoGroups();
    assert groups[..1] == [GroupOf(a)] && [GroupOf(a)][..0] == [] && rows[..1] == [a] && [a][..0] == [];
    assert Total(rows, [GroupOf(a)]) == 8.0;
    assert Misordered([a]) == [];
  }

  lemma TwoStored(id: nat)
    ensures forall q :: q in Stored(TwoGroups(), TwoScans(), id) ==> q.criteria != []
    ensures StoredTotal(Stored(TwoGroups(), TwoScans(), id)) == 24.0
  {
    var a, b, rows := LowQuestion(), HighQuestion(), TwoRows();
    var one, two := Question(GroupOf(a), rows, id), Question(GroupOf(b), rows, id);
    assert Stored(TwoGroups(), TwoScans(), id) == [one, two] by {
      hide MaxOf;
      assert "q1"[1] != "q2"[1];
      assert TwoGroups()[..1] == [GroupOf(a)] && [GroupOf(a)][..0] == [];
      assert Stored([GroupOf(a)], TwoScans(), id) == [one];
    }
    hide Stored, TwoGroups, TwoScans;
    assert MaxOf(rows) == 12.0 by { assert rows[..1] == [a]; }
    assert [one, two][..1] == [one] && [one][..0] == [];
    assert StoredTotal([one]) == 12.0;
  }

  /** That file passes with a total of 20, and its stored questions add up to 24. */
  lemma StoredTotalCanExceed20(id: nat)
    ensures Enumerates(TwoGroups(), TwoRows()) && Inhabited(TwoGroups(), TwoRows())
    ensures AreScans(TwoScans(), TwoGroups(), TwoRows())
    ensures Judged(TwoRows(), false, TwoGroups(), TwoScans()) == Found([])
    ensures forall q :: q in Stored(TwoGroups(), TwoScans(), id) ==> q.criteria != []
    ensures StoredTotal(Stored(TwoGroups(), TwoScans(), id)) == 24.0
  {
    hide Enumerates, Inhabited, AreScans, Stored, StoredTotal, Total, Overlaps, AllOverlaps;
    TwoGroupsListed();
    TwoScansListed();
    TwoTotals();
    TwoStored(id);
    NoOverlaps(TwoGroups(), TwoScans());
    RoundsTo20(20.0);
  }
}
