/**
 * What each verdict on a rubric means, for capstone EB rubrics and for the others, and what is stored of
 * an accepted one.
 */
module RubricVerdicts {
  import opened Wrappers
  import opened Rubrics

  /** Both bounds are numbers, and the minimum is above the maximum. */
  predicate Inverted(c: Criterion) {
    c.min.Number? && c.max.Number? && c.min.value > c.max.value
  }

  /** The smallest row number. */
  ghost predicate IsFirst(row: int, rows: seq<Criterion>) {
    (exists c :: c in rows && c.row == row) && forall c :: c in rows ==> row <= c.row
  }

  ghost predicate SomeInverted(rows: seq<Criterion>) { exists c :: c in rows && Inverted(c) }

  /** What the file has to name: an outcome for a capstone EB rubric, a question for any other. */
  ghost predicate SomeNameless(rows: seq<Criterion>, capstoneEb: bool) {
    exists c :: c in rows && (if capstoneEb then c.outcome == None else c.question == None)
  }

  ghost predicate SomeEmpty(rows: seq<Criterion>) { exists c :: c in rows && c.min == Empty }

  lemma {:induction false} MisorderedMeans(rows: seq<Criterion>, f: Finding)
    ensures f in Misordered(rows) <==>
            f.code == MinGreaterThanMax && exists c :: c in rows && c.row == f.row && Inverted(c)
  {
    if rows != [] {
      var init, last := rows[..|rows| - 1], rows[|rows| - 1];
      MisorderedMeans(init, f);
      assert forall c :: c in rows <==> c in init || c == last;
    }
  }

  lemma MisorderedExact(rows: seq<Criterion>)
    ensures Misordered(rows) == [] <==> !SomeInverted(rows)
  {
    hide Misordered;
    if Misordered(rows) != [] {
      MisorderedMeans(rows, Misordered(rows)[0]);
    }
    if c :| c in rows && Inverted(c) {
      MisorderedMeans(rows, Finding(c.row, MinGreaterThanMax));
    }
  }

  lemma NamelessExact(rows: seq<Criterion>, capstoneEb: bool)
    ensures (if capstoneEb then exists c :: c in rows && NoOutcome(c) else exists c :: c in rows && NoQuestion(c)) <==>
            SomeNameless(rows, capstoneEb)
  {
    if c :| c in rows && (if capstoneEb then c.outcome == None else c.question == None) {
      assert if capstoneEb then NoOutcome(c) else NoQuestion(c);
    }
  }

  lemma FirstExact(rows: seq<Criterion>, row: int)
    requires rows != []
    ensures IsFirst(row, rows) <==> row == FirstRow(rows)
  {}

  /** A criterion of a scan that begins no higher than the one before it ends. */
  ghost predicate Meets(groups: seq<Group>, scans: map<Group, seq<Criterion>>, row: int) {
    exists g, i :: g in groups && g in scans && 0 <= i < |scans[g]| - 1 && scans[g][i + 1].row == row &&
                   Low(scans[g][i + 1]) <= High(scans[g][i])
  }

  lemma {:induction false} OverlapsMean(scan: seq<Criterion>, f: Finding)
    ensures f in Overlaps(scan) <==>
            f.code == Overlap &&
            exists i :: 0 <= i < |scan| - 1 && scan[i + 1].row == f.row && Low(scan[i + 1]) <= High(scan[i])
  {
    if |scan| >= 2 {
      hide Low, High;
      var n := |scan| - 1;
      var init := scan[..n];
      OverlapsMean(init, f);
      assert forall i :: 0 <= i < n ==> init[i] == scan[i];
      assert scan[(n - 1) + 1] == scan[n];
    }
  }

  lemma {:induction false} AllOverlapsMean(groups: seq<Group>, scans: map<Group, seq<Criterion>>, f: Finding)
    requires forall g :: g in groups ==> g in scans
    ensures f in AllOverlaps(groups, scans) <==> exists g :: g in groups && f in Overlaps(scans[g])
  {
    if groups != [] {
      hide Overlaps;
      var init, last := groups[..|groups| - 1], groups[|groups| - 1];
      AllOverlapsMean(init, scans, f);
      assert forall g :: g in groups <==> g in init || g == last;
    }
  }

  lemma OverlapFindings(groups: seq<Group>, scans: map<Group, seq<Criterion>>, f: Finding)
    requires forall g :: g in groups ==> g in scans
    ensures f in AllOverlaps(groups, scans) <==> f.code == Overlap && Meets(groups, scans, f.row)
  {
    hide Overlaps, AllOverlaps, Low, High;
    AllOverlapsMean(groups, scans, f);
    forall g | g in groups
      ensures f in Overlaps(scans[g]) <==>
              f.code == Overlap &&
              exists i :: 0 <= i < |scans[g]| - 1 && scans[g][i + 1].row == f.row &&
                          Low(scans[g][i + 1]) <= High(scans[g][i])
    {
      OverlapsMean(scans[g], f);
    }
  }

  /**
   * A capstone EB rubric is accepted exactly when no row has its minimum above its maximum, every row has an
   * outcome, and no minimum is the empty string - whatever the questions, the intervals and the total.
   */
  lemma CapstoneExactly(rows: seq<Criterion>, groups: seq<Group>, scans: map<Group, seq<Criterion>>)
    requires rows != [] && Inhabited(groups, rows) && forall g :: g in groups ==> g in scans
    ensures Judged(rows, true, groups, scans) == Found([]) <==>
            forall c :: c in rows ==> !Inverted(c) && c.outcome.Some? && c.min != Empty
  {
    hide Misordered, FirstRow, Total, AllOverlaps, Inhabited, Inverted, Round6;
    MisorderedExact(rows);
    NamelessExact(rows, true);
  }

  /** Raised: the casts are reached, and one of them fails. */
  lemma RaisedMeans(rows: seq<Criterion>, capstoneEb: bool, groups: seq<Group>, scans: map<Group, seq<Criterion>>)
    requires rows != [] && Inhabited(groups, rows) && forall g :: g in groups ==> g in scans
    ensures Judged(rows, capstoneEb, groups, scans) == Raised <==>
            !SomeInverted(rows) && !SomeNameless(rows, capstoneEb) && SomeEmpty(rows)
  {
    hide Misordered, FirstRow, Total, AllOverlaps, Inhabited, SomeInverted, Round6;
    MisorderedExact(rows);
    NamelessExact(rows, capstoneEb);
  }

  /** Each finding, for capstone EB rubrics and for the others. */
  ghost predicate Deserved(rows: seq<Criterion>, capstoneEb: bool, groups: seq<Group>,
                           scans: map<Group, seq<Criterion>>, f: Finding)
  {
    match f.code
    case MinGreaterThanMax => exists c :: c in rows && c.row == f.row && Inverted(c)
    case OutcomeRequired => capstoneEb && !SomeInverted(rows) && SomeNameless(rows, true) && IsFirst(f.row, rows)
    case QuestionRequired => !capstoneEb && !SomeInverted(rows) && SomeNameless(rows, false) && IsFirst(f.row, rows)
    case Overlap =>
      !capstoneEb && !SomeInverted(rows) && !SomeNameless(rows, false) && !SomeEmpty(rows) &&
      Meets(groups, scans, f.row)
    case TotalNot20 =>
      !capstoneEb && !SomeInverted(rows) && !SomeNameless(rows, false) && !SomeEmpty(rows) &&
      !BestRoundsTo20(rows, groups) && IsFirst(f.row, rows)
  }

  lemma EarlyFinding(rows: seq<Criterion>, capstoneEb: bool, groups: seq<Group>, scans: map<Group, seq<Criterion>>,
                     f: Finding)
    requires rows != [] && Inhabited(groups, rows) && forall g :: g in groups ==> g in scans
    requires SomeInverted(rows) || SomeNameless(rows, capstoneEb) || SomeEmpty(rows)
    ensures var verdict := Judged(rows, capstoneEb, groups, scans);
            verdict.Found? ==> (f in verdict.findings <==> Deserved(rows, capstoneEb, groups, scans, f))
  {
    hide Misordered, FirstRow, Total, AllOverlaps, Inhabited, Round6, Meets, BestRoundsTo20, Inverted, IsFirst;
    MisorderedExact(rows);
    MisorderedMeans(rows, f);
    NamelessExact(rows, capstoneEb);
    FirstExact(rows, f.row);
  }

  lemma LateFinding(rows: seq<Criterion>, groups: seq<Group>, scans: map<Group, seq<Criterion>>, f: Finding)
    requires rows != [] && Inhabited(groups, rows) && forall g :: g in groups ==> g in scans
    requires !SomeInverted(rows) && !SomeNameless(rows, false) && !SomeEmpty(rows)
    ensures var verdict := Judged(rows, false, groups, scans);
            verdict.Found? && (f in verdict.findings <==> Deserved(rows, false, groups, scans, f))
  {
    hide Misordered, FirstRow, Total, AllOverlaps, Inhabited, Round6, Meets, BestRoundsTo20, Inverted, IsFirst;
    MisorderedExact(rows);
    MisorderedMeans(rows, f);
    NamelessExact(rows, false);
    OverlapFindings(groups, scans, f);
    TotalExact(rows, groups);
    FirstExact(rows, f.row);
  }

  /** Unless a cast fails, a rubric gets exactly the findings it deserves. */
  lemma FindingsMean(rows: seq<Criterion>, capstoneEb: bool, groups: seq<Group>, scans: map<Group, seq<Criterion>>,
                     f: Finding)
    requires rows != [] && Inhabited(groups, rows) && forall g :: g in groups ==> g in scans
    ensures var verdict := Judged(rows, capstoneEb, groups, scans);
            verdict.Found? ==> (f in verdict.findings <==> Deserved(rows, capstoneEb, groups, scans, f))
  {
    if SomeInverted(rows) || SomeNameless(rows, capstoneEb) || SomeEmpty(rows) {
      hide Judged, Deserved;
      EarlyFinding(rows, capstoneEb, groups, scans, f);
    } else if capstoneEb {
      hide SomeInverted, SomeNameless, SomeEmpty, Inverted, Inhabited, Judged;
      CapstoneFinding(rows, groups, scans, f);
    } else {
      hide Judged, Deserved;
      LateFinding(rows, groups, scans, f);
    }
  }

  lemma CapstoneFinding(rows: seq<Criterion>, groups: seq<Group>, scans: map<Group, seq<Criterion>>, f: Finding)
    requires rows != [] && Inhabited(groups, rows) && forall g :: g in groups ==> g in scans
    requires !SomeInverted(rows) && !SomeNameless(rows, true) && !SomeEmpty(rows)
    ensures Judged(rows, true, groups, scans) == Found([]) && !Deserved(rows, true, groups, scans, f)
  {
    hide Judged, Inhabited, Inverted;
    CapstoneExactly(rows, groups, scans);
  }

  // ---------------------------------------------------------------- what is stored

  /** They have the same question, or the same outcome. */
  ghost predicate Shares(g: Group, c: Criterion) {
    (c.question.Some? && c.question == g.question) || (c.outcome.Some? && c.outcome == g.outcome)
  }

  /** One question for each group, in their order, with every row that shares its question or its outcome. */
  lemma {:induction false} StoredExact(rows: seq<Criterion>, groups: seq<Group>, scans: map<Group, seq<Criterion>>,
                                       id: nat, i: nat)
    requires AreScans(scans, groups, rows) && i < |groups|
    ensures var stored := Stored(groups, scans, id);
      && |stored| == |groups| && stored[i].group == groups[i] && stored[i].uploadLogId == id
      && (forall c :: c in stored[i].criteria <==> c in rows && Shares(groups[i], c))
      && multiset(stored[i].criteria) == multiset(Picked(rows, groups[i]))
  {
    hide Ordered, Picked;
    StoredLength(groups, scans, id);
    var n := |groups| - 1;
    if i < n {
      assert groups[..n][i] == groups[i];
      StoredExact(rows, groups[..n], scans, id, i);
    } else {
      ScanMembers(scans[groups[i]], rows, groups[i]);
    }
  }

  lemma {:induction false} StoredLength(groups: seq<Group>, scans: map<Group, seq<Criterion>>, id: nat)
    requires forall g :: g in groups ==> g in scans
    ensures |Stored(groups, scans, id)| == |groups|
  {
    if groups != [] {
      StoredLength(groups[..|groups| - 1], scans, id);
    }
  }
}
