/** What the passes of a chart upload write in each node, and what each finding means, said by the cells alone. */
module ChartColumns {
  import opened Charts
  import opened SqlText
  import opened Wrappers

  // ---------------------------------------------------------------- what a finding means

  /** The cell says this text, or nothing but spaces when the text is empty. */
  ghost predicate Reads(x: Option<string>, text: string) {
    x.Some? && Core(x.value, text)
  }

  /** The cell reads the parent code p, up to the case that lower() folds. */
  ghost predicate ReadsCode(x: Option<string>, p: string, locale: Locale) {
    exists d :: Reads(x, d) && locale.lower(d) == locale.lower(p)
  }

  ghost predicate Orphan(rows: seq<Row>, r: Row, locale: Locale) {
    exists p :: Says(r.parentCode, p) && forall j :: 0 <= j < |rows| ==> !ReadsCode(rows[j].code, p, locale)
  }

  ghost predicate Unknown(r: Row, s: Setting) {
    exists c :: Says(r.professorCode, c) && c !in s.professors
  }

  ghost predicate Faulty(rows: seq<Row>, r: Row, s: Setting, code: string) {
    || (code == "codeEmpty" && SaysNothing(r.code))
    || (code == "titleEmpty" && !r.titled)
    || (code == "professorCodeEmpty" && SaysNothing(r.professorCode))
    || (code == "professorNotFound" && Unknown(r, s))
    || code in r.faults
    || (code == "parentNotFound" && Orphan(rows, r, s.locale))
  }

  ghost predicate Repeated(rows: seq<Row>, i: nat, locale: Locale)
    requires i < |rows|
  {
    exists j :: 0 <= j < |rows| && j != i && SayAlike(rows[i].code, rows[j].code, locale)
  }

  lemma FoldedReads(x: Option<string>, p: string, locale: Locale)
    ensures Folded(x, locale) == Some(locale.lower(p)) <==> ReadsCode(x, p, locale)
  {
    hide Core;
    if x.Some? {
      forall d ensures Trim(x.value) == d <==> Reads(x, d) {
        TrimExact(x.value, d);
      }
      assert Reads(x, Trim(x.value));
    }
  }

  lemma ParentTrimmed(x: Option<string>, p: string, locale: Locale)
    requires Says(x, p)
    ensures Blank(x) == Some(p) && Folded(x, locale) == Some(locale.lower(p))
  {
    hide Says;
    BlankExact(x, p);
  }

  lemma OrphanExact(rows: seq<Row>, r: Row, locale: Locale)
    ensures Orphan(rows, r, locale) <==>
            HasParent(r) && forall j :: 0 <= j < |rows| ==> !Charts.Names(rows[j], r.parentCode, locale)
  {
    hide Says, Blank, Folded, ReadsCode;
    forall p ensures Blank(r.parentCode) == Some(p) <==> Says(r.parentCode, p) {
      BlankExact(r.parentCode, p);
    }
    if HasParent(r) {
      var p := Blank(r.parentCode).value;
      ParentTrimmed(r.parentCode, p, locale);
      forall j | 0 <= j < |rows|
        ensures Charts.Names(rows[j], r.parentCode, locale) <==> ReadsCode(rows[j].code, p, locale)
      {
        FoldedReads(rows[j].code, p, locale);
      }
    }
  }

  lemma UnknownExact(r: Row, s: Setting)
    ensures Unknown(r, s) <==> Blank(r.professorCode).Some? && !Known(r, s)
  {
    hide Says, Blank;
    forall c ensures Blank(r.professorCode) == Some(c) <==> Says(r.professorCode, c) {
      BlankExact(r.professorCode, c);
    }
  }

  lemma RowFindings(rows: seq<Row>, i: nat, s: Setting, f: Finding)
    requires i < |rows|
    ensures f in Findings(rows, i, s) <==> f.row == rows[i].number && Faulty(rows, rows[i], s, f.code)
  {
    hide Says, SaysNothing, Blank, Known, Unknown, Orphan, HasParent, Charts.Names;
    var r := rows[i];
    BlankExact(r.code, "");
    BlankExact(r.professorCode, "");
    UnknownExact(r, s);
    OrphanExact(rows, r, s.locale);
    var faults := seq(|r.faults|, k requires 0 <= k < |r.faults| => Finding(r.number, r.faults[k]));
    if f.code in r.faults {
      var k :| 0 <= k < |r.faults| && r.faults[k] == f.code;
      assert faults[k] == Finding(r.number, f.code);
    }
  }

  lemma {:induction false} AllMean(rows: seq<Row>, n: nat, s: Setting, f: Finding)
    requires n <= |rows|
    ensures f in AllFindings(rows, n, s) <==>
            exists i :: 0 <= i < n && f.row == rows[i].number && Faulty(rows, rows[i], s, f.code)
  {
    hide Findings, Faulty;
    if n > 0 {
      AllMean(rows, n - 1, s, f);
      RowFindings(rows, n - 1, s, f);
    }
  }

  lemma RepeatedExact(rows: seq<Row>, i: nat, locale: Locale)
    requires i < |rows|
    ensures HasTwin(rows, i, locale) <==> Repeated(rows, i, locale)
  {
    hide SameFolded, SayAlike;
    forall j | 0 <= j < |rows| && j != i
      ensures Twin(rows, i, j, locale) <==> SayAlike(rows[i].code, rows[j].code, locale)
    {
      SayAlikeExact(rows[i].code, rows[j].code, locale);
    }
  }

  lemma {:induction false} DuplicatesMean(rows: seq<Row>, n: nat, locale: Locale, f: Finding)
    requires n <= |rows|
    ensures f in Duplicates(rows, n, locale) <==>
            f.code == "duplicateCodeInFile" &&
            exists i :: 0 <= i < n && f.row == rows[i].number && Repeated(rows, i, locale)
  {
    hide HasTwin, Repeated;
    if n > 0 {
      DuplicatesMean(rows, n - 1, locale, f);
      RepeatedExact(rows, n - 1, locale);
    }
  }

  /** A file gets exactly the findings that its cells deserve. */
  lemma FindingsMean(rows: seq<Row>, emails: seq<Finding>, s: Setting, f: Finding)
    ensures f in Reported(rows, emails, s) <==>
      || f in emails
      || (f.code == "duplicateCodeInFile" &&
          exists i :: 0 <= i < |rows| && f.row == rows[i].number && Repeated(rows, i, s.locale))
      || exists i :: 0 <= i < |rows| && f.row == rows[i].number && Faulty(rows, rows[i], s, f.code)
  {
    hide Duplicates, AllFindings, Faulty, Repeated;
    DuplicatesMean(rows, |rows|, s.locale, f);
    AllMean(rows, |rows|, s, f);
  }

  // ---------------------------------------------------------------- what a node holds

  ghost predicate UnderParent(rows: seq<Row>, first: nat, p: string, root: Option<int>, locale: Locale) {
    exists j, d :: 0 <= j < |rows| && Says(rows[j].code, d) && locale.lower(d) == locale.lower(p) &&
                   root == Some(first + j)
  }

  ghost predicate StaffOf(x: Option<string>, professors: map<string, nat>, staff: nat) {
    exists c :: Says(x, c) && c in professors && professors[c] == staff
  }

  /**
   * Each row's node belongs to the staff of the professor that the row names, holds the row's content and the
   * upload, keeps no code, and hangs under the node of the row with the parent code that it reads, or under the
   * school when it reads none. Nodes from before are as they were.
   */
  lemma NodeColumns(base: map<int, Node>, rows: seq<Row>, first: nat, s: Setting, i: nat)
    requires ValidFile(rows, s) && i < |rows| && forall k :: k in base ==> k < first
    ensures var nodes := Charted(base, rows, first, s);
      && (forall k :: k in nodes <==> k in base || first <= k < first + |rows|)
      && (forall k :: k in base ==> nodes[k] == base[k])
      && StaffOf(rows[i].professorCode, s.professors, nodes[first + i].staff)
      && nodes[first + i].content == rows[i].content && nodes[first + i].uploadLogId == Some(s.id)
      && nodes[first + i].nodeCode == None
      && (SaysNothing(rows[i].parentCode) ==> nodes[first + i].root == s.school)
      && (forall p :: Says(rows[i].parentCode, p) ==>
                        UnderParent(rows, first, p, nodes[first + i].root, s.locale))
  {
    hide Says, SaysNothing, Blank, UnderParent, StaffOf;
    ChartedKeys(base, rows, first, s);
    var node := Placed(rows, first + i, first, s);
    assert Charted(base, rows, first, s)[first + i] == node;
    BlankExact(rows[i].parentCode, "");
    StaffPlaced(rows, first, s, i);
    forall p | Says(rows[i].parentCode, p) ensures UnderParent(rows, first, p, node.root, s.locale) {
      BlankExact(rows[i].parentCode, p);
      RootPlaced(rows, first, s, i, p);
    }
  }

  lemma StaffPlaced(rows: seq<Row>, first: nat, s: Setting, i: nat)
    requires ValidFile(rows, s) && i < |rows|
    ensures StaffOf(rows[i].professorCode, s.professors, Placed(rows, first + i, first, s).staff)
  {
    hide Says, Blank;
    assert RowValid(rows, i, s);
    var c := Blank(rows[i].professorCode).value;
    BlankExact(rows[i].professorCode, c);
  }

  lemma RootPlaced(rows: seq<Row>, first: nat, s: Setting, i: nat, p: string)
    requires ValidFile(rows, s) && i < |rows| && Says(rows[i].parentCode, p)
    ensures UnderParent(rows, first, p, Placed(rows, first + i, first, s).root, s.locale)
  {
    hide Says, Blank;
    BlankExact(rows[i].parentCode, p);
    ParentTrimmed(rows[i].parentCode, p, s.locale);
    var j := ParentRow(rows, i, s);
    CodeSaid(rows, j, s);
    var d :| Says(rows[j].code, d) && Folded(rows[j].code, s.locale) == Some(s.locale.lower(d));
    assert s.locale.lower(d) == s.locale.lower(p);
  }

  lemma CodeSaid(rows: seq<Row>, j: nat, s: Setting)
    requires ValidFile(rows, s) && j < |rows|
    ensures exists d :: Says(rows[j].code, d) && Folded(rows[j].code, s.locale) == Some(s.locale.lower(d))
  {
    hide Says;
    assert RowValid(rows, j, s);
    var d := Blank(rows[j].code).value;
    BlankExact(rows[j].code, d);
    assert Says(rows[j].code, d);
  }
}
