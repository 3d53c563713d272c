/**
 * The evaluator cells of a projects file. The checks look at one filled cell of a project, whichever
 * LIMIT 1 returns; the load takes MAX over the rows of the project and its course.
 */
module ProjectCells {
  import opened Wrappers
  import opened SqlText
  import opened EvaluatorLists

  /** Trimmed codes, and for each evaluator type the cell as it is written. */
  datatype FileRow = FileRow(project: string, course: string, cells: seq<Option<string>>)

  /** The order of MAX is that of the column's collation. */
  type Collation = (string, string) -> bool

  ghost predicate TotalOrder(leq: Collation) {
    && (forall a, b :: leq(a, b) || leq(b, a))
    && (forall a, b :: leq(a, b) && leq(b, a) ==> a == b)
    && (forall a, b, c :: leq(a, b) && leq(b, c) ==> leq(a, c))
  }

  /** Without a course, all rows of the project. */
  predicate InGroup(r: FileRow, project: string, course: Option<string>) {
    r.project == project && (course == None || course == Some(r.course))
  }

  function CellOf(r: FileRow, role: nat): Option<string> {
    if role < |r.cells| then Blank(r.cells[role]) else None
  }

  /** The filled cells of one evaluator type, in the order of the file. */
  function Filled(rows: seq<FileRow>, project: string, course: Option<string>, role: nat): seq<string> {
    if rows == [] then []
    else
      var before := Filled(rows[..|rows| - 1], project, course, role);
      var r := rows[|rows| - 1];
      match CellOf(r, role)
      case None => before
      case Some(c) => if InGroup(r, project, course) then before + [c] else before
  }

  /** A row of the project, and of the course if one is given, whose cell of this type says `c`. */
  ghost predicate SaysIn(r: FileRow, project: string, course: Option<string>, role: nat, c: string) {
    && r.project == project && (course.Some? ==> r.course == course.value)
    && role < |r.cells| && Says(r.cells[role], c)
  }

  predicate Fills(r: FileRow, project: string, course: Option<string>, role: nat, c: string) {
    InGroup(r, project, course) && CellOf(r, role) == Some(c)
  }

  lemma {:induction false} FilledBy(rows: seq<FileRow>, project: string, course: Option<string>, role: nat,
                                    c: string)
    ensures c in Filled(rows, project, course, role) <==> exists r :: r in rows && Fills(r, project, course, role, c)
  {
    if rows != [] {
      var init, last := rows[..|rows| - 1], rows[|rows| - 1];
      assert rows == init + [last];
      FilledBy(init, project, course, role, c);
      assert forall r :: r in rows <==> r in init || r == last;
      var fills := Fills(last, project, course, role, c);
    }
  }

  lemma FillsExact(r: FileRow, project: string, course: Option<string>, role: nat, c: string)
    ensures Fills(r, project, course, role, c) <==> SaysIn(r, project, course, role, c)
  {
    hide Blank, Says;
    if role < |r.cells| {
      BlankExact(r.cells[role], c);
    }
  }

  /** The filled cells are the texts that some row of the project, or of its course, says for this type. */
  lemma FilledExact(rows: seq<FileRow>, project: string, course: Option<string>, role: nat, c: string)
    ensures c in Filled(rows, project, course, role) <==> exists r :: r in rows && SaysIn(r, project, course, role, c)
  {
    hide Filled, Fills, SaysIn;
    FilledBy(rows, project, course, role, c);
    forall r ensures Fills(r, project, course, role, c) <==> SaysIn(r, project, course, role, c) {
      FillsExact(r, project, course, role, c);
    }
  }

  /** The rows of a group are rows of the project. */
  lemma GroupInProject(rows: seq<FileRow>, project: string, course: string, role: nat, c: string)
    requires c in Filled(rows, project, Some(course), role)
    ensures c in Filled(rows, project, None, role)
  {
    FilledBy(rows, project, Some(course), role, c);
    FilledBy(rows, project, None, role, c);
    var r :| r in rows && Fills(r, project, Some(course), role, c);
    assert Fills(r, project, None, role, c);
  }

  // ---------------------------------------------------------------- MAX

  function Max(cells: seq<string>, leq: Collation): Option<string> {
    if cells == [] then None
    else
      var c := cells[|cells| - 1];
      match Max(cells[..|cells| - 1], leq)
      case None => Some(c)
      case Some(m) => Some(if leq(m, c) then c else m)
  }

  /** MAX is NULL without filled cells, and otherwise the one filled cell that no other exceeds. */
  lemma {:induction false} MaxExact(cells: seq<string>, leq: Collation)
    requires TotalOrder(leq)
    ensures Max(cells, leq) == None <==> cells == []
    ensures forall c :: Max(cells, leq) == Some(c) <==> c in cells && forall d :: d in cells ==> leq(d, c)
  {
    if cells != [] {
      var init, last := cells[..|cells| - 1], cells[|cells| - 1];
      assert cells == init + [last];
      MaxExact(init, leq);
    }
  }

  /** What the load takes for a project and a course. */
  function LoadedCell(rows: seq<FileRow>, project: string, course: string, role: nat, leq: Collation): Option<string> {
    Max(Filled(rows, project, Some(course), role), leq)
  }

  // ---------------------------------------------------------------- what was checked and what is loaded

  /** LIMIT 1 without an order: any filled cell of the project, NULL if there is none. */
  predicate MayPick(rows: seq<FileRow>, project: string, role: nat, picked: Option<string>) {
    match picked
    case None => Filled(rows, project, None, role) == []
    case Some(c) => c in Filled(rows, project, None, role)
  }

  /** All filled cells of the project are equal, and one of them is in this group if there is any. */
  ghost predicate OneCell(rows: seq<FileRow>, project: string, course: string, role: nat) {
    && (forall c, d :: c in Filled(rows, project, None, role) && d in Filled(rows, project, None, role) ==> c == d)
    && (Filled(rows, project, None, role) != [] ==> Filled(rows, project, Some(course), role) != [])
  }

  /** The cell that is checked is the cell that is loaded, whichever is picked, exactly in this case. */
  lemma CheckedIsLoadedIff(rows: seq<FileRow>, project: string, course: string, role: nat, leq: Collation)
    requires TotalOrder(leq)
    ensures (forall picked :: MayPick(rows, project, role, picked) ==>
              picked == LoadedCell(rows, project, course, role, leq)) <==> OneCell(rows, project, course, role)
  {
    hide Filled, Max, TotalOrder;
    var all, group := Filled(rows, project, None, role), Filled(rows, project, Some(course), role);
    MaxExact(group, leq);
    forall c | c in group ensures c in all {
      GroupInProject(rows, project, course, role, c);
    }
    if OneCell(rows, project, course, role) {
      forall picked | MayPick(rows, project, role, picked) ensures picked == Max(group, leq) {
        if group != [] {
          assert group[0] in all;
          assert Max(group, leq).value in all;
        }
      }
    } else if all != [] && group == [] {
      assert MayPick(rows, project, role, Some(all[0]));
    } else {
      var c, d :| c in all && d in all && c != d;
      assert MayPick(rows, project, role, Some(c)) && MayPick(rows, project, role, Some(d));
    }
  }

  /** Not more codes than the type allows, and each of them the code of a professor. */
  predicate CellValid(cell: Option<string>, most: Option<nat>, professors: map<string, nat>) {
    && (most.Some? ==> |Codes(cell)| <= most.value)
    && (forall i :: 0 <= i < |Codes(cell)| ==> Codes(cell)[i] in professors)
  }

  // ---------------------------------------------------------------- whole files

  const TYPES := 5

  /** A type of evaluator, for a project and its course as some row has them. */
  predicate Due(rows: seq<FileRow>, project: string, course: string, role: nat) {
    role < TYPES && exists r | r in rows :: r.project == project && r.course == course
  }

  /** What the checks compare with: how many codes each type allows, and the professors. */
  datatype Rules = Rules(most: nat -> Option<nat>, professors: map<string, nat>)

  /** For each project, course and type, the cell that LIMIT 1 returns when it is their turn. */
  type Picks = (string, string, nat) -> Option<string>

  /** The checks of all evaluator cells pass with these picks. */
  ghost predicate Passes(rows: seq<FileRow>, rules: Rules, picks: Picks) {
    forall project, course, role :: Due(rows, project, course, role) ==>
      && MayPick(rows, project, role, picks(project, course, role))
      && CellValid(picks(project, course, role), rules.most(role), rules.professors)
  }

  /** Each row of a file that passes has had a valid cell checked for each of the five types. */
  lemma PassesMeans(rows: seq<FileRow>, rules: Rules, picks: Picks, r: FileRow, role: nat)
    requires Passes(rows, rules, picks) && r in rows && 0 <= role < 5
    ensures var cell := picks(r.project, r.course, role);
      && CellValid(cell, rules.most(role), rules.professors)
      && match cell
         case None => forall q, c :: q in rows ==> !SaysIn(q, r.project, None, role, c)
         case Some(c) => exists q :: q in rows && SaysIn(q, r.project, None, role, c)
  {
    hide CellValid, Filled, SaysIn;
    assert Due(rows, r.project, r.course, role);
    var cell := picks(r.project, r.course, role);
    if cell.Some? {
      FilledExact(rows, r.project, None, role, cell.value);
    } else {
      forall q, c | q in rows ensures !SaysIn(q, r.project, None, role, c) {
        FilledExact(rows, r.project, None, role, c);
      }
    }
  }

  /** A cell is loaded that would not pass. */
  ghost predicate LoadsInvalid(rows: seq<FileRow>, rules: Rules, leq: Collation) {
    exists project, course, role :: Due(rows, project, course, role) &&
      !CellValid(LoadedCell(rows, project, course, role, leq), rules.most(role), rules.professors)
  }

  /** Some filled cell of the project is valid, or none is filled. */
  ghost predicate MayPass(rows: seq<FileRow>, rules: Rules, project: string, role: nat) {
    exists cell :: MayPick(rows, project, role, cell) && CellValid(cell, rules.most(role), rules.professors)
  }

  ghost function Passing(rows: seq<FileRow>, rules: Rules, project: string, role: nat): Option<string> {
    if MayPass(rows, rules, project, role)
    then var cell :| MayPick(rows, project, role, cell) && CellValid(cell, rules.most(role), rules.professors); cell
    else None
  }

  lemma SomePicks(rows: seq<FileRow>, rules: Rules)
    requires forall project, course, role :: Due(rows, project, course, role) ==>
               MayPass(rows, rules, project, role)
    ensures exists picks :: Passes(rows, rules, picks)
  {
    hide MayPick, CellValid, Due;
    var picks: Picks := (project: string, course: string, role: nat) => Passing(rows, rules, project, role);
    assert Passes(rows, rules, picks);
  }

  /** The project fills cells of this type, and all of them are invalid. */
  ghost predicate NeverPasses(rows: seq<FileRow>, rules: Rules, project: string, role: nat) {
    Filled(rows, project, None, role) != [] &&
    forall c :: c in Filled(rows, project, None, role) ==> !CellValid(Some(c), rules.most(role), rules.professors)
  }

  ghost predicate Hopeless(rows: seq<FileRow>, rules: Rules) {
    exists project, course, role :: Due(rows, project, course, role) &&
      NeverPasses(rows, rules, project, role)
  }

  lemma PassesUnless(rows: seq<FileRow>, rules: Rules, project: string, role: nat)
    ensures MayPass(rows, rules, project, role) <==> !NeverPasses(rows, rules, project, role)
  {
    hide Filled, CellValid;
    var all := Filled(rows, project, None, role);
    if all == [] {
      EmptyCellValid(rules.most(role), rules.professors);
      assert MayPick(rows, project, role, None);
    } else if c :| c in all && CellValid(Some(c), rules.most(role), rules.professors) {
      assert MayPick(rows, project, role, Some(c));
    }
  }

  /**
   * Whatever rows the checks look at, a file that passes them loads valid cells only - exactly when all the
   * cells it loads are valid anyway, or some project has no valid cell of a type that it fills.
   */
  lemma PassingLoadsValidIff(rows: seq<FileRow>, rules: Rules, leq: Collation)
    ensures (forall picks :: Passes(rows, rules, picks) ==> !LoadsInvalid(rows, rules, leq)) <==>
            !LoadsInvalid(rows, rules, leq) || Hopeless(rows, rules)
  {
    hide MayPick, CellValid, Due, LoadsInvalid, NeverPasses, MayPass;
    forall project, role ensures MayPass(rows, rules, project, role) <==> !NeverPasses(rows, rules, project, role) {
      PassesUnless(rows, rules, project, role);
    }
    if Hopeless(rows, rules) {
      forall picks ensures !Passes(rows, rules, picks) {
        HopelessFails(rows, rules, picks);
      }
    } else {
      SomePicks(rows, rules);
    }
  }

  lemma HopelessFails(rows: seq<FileRow>, rules: Rules, picks: Picks)
    requires Hopeless(rows, rules)
    ensures !Passes(rows, rules, picks)
  {
    hide MayPick, CellValid, Due, NeverPasses, MayPass;
    var project, course, role :| Due(rows, project, course, role) &&
                                 NeverPasses(rows, rules, project, role);
    PassesUnless(rows, rules, project, role);
    var picked := picks(project, course, role);
    if Passes(rows, rules, picks) {
      assert MayPick(rows, project, role, picked) && CellValid(picked, rules.most(role), rules.professors);
      PickPasses(rows, rules, project, role, picked);
    }
  }

  lemma PickPasses(rows: seq<FileRow>, rules: Rules, project: string, role: nat, cell: Option<string>)
    requires MayPick(rows, project, role, cell) && CellValid(cell, rules.most(role), rules.professors)
    ensures MayPass(rows, rules, project, role)
  {}

  lemma EmptyCellValid(most: Option<nat>, professors: map<string, nat>)
    ensures CellValid(None, most, professors)
  {}

  /** A project with the code of a professor on one row and an unknown code on another. */
  function TwoCells(project: string, course: string, known: string, unknown: string): seq<FileRow> {
    [FileRow(project, course, [Some(known)]), FileRow(project, course, [Some(unknown)])]
  }

  lemma FilledOfTwo(project: string, course: string, known: string, unknown: string, group: Option<string>)
    requires Clean(known) && Clean(unknown) && group in {None, Some(course)}
    ensures Filled(TwoCells(project, course, known, unknown), project, group, 0) == [known, unknown]
  {
    var rows := TwoCells(project, course, known, unknown);
    assert rows[..1] == [rows[0]] && [rows[0]][..0] == [];
    assert CellOf(rows[0], 0) == Some(known) && CellOf(rows[1], 0) == Some(unknown);
    assert Filled([], project, group, 0) == [];
    assert Filled([rows[0]], project, group, 0) == [known];
  }

  lemma CodesOfClean(code: string)
    requires Clean(code)
    ensures Codes(Some(code)) == [code]
  {
    CodesOfJoin([code]);
    assert Join([code]) == code;
  }

  lemma {:induction false} OtherTypesBlank(rows: seq<FileRow>, project: string, role: nat)
    requires forall r :: r in rows ==> |r.cells| <= role
    ensures Filled(rows, project, None, role) == []
  {
    if rows != [] {
      OtherTypesBlank(rows[..|rows| - 1], project, role);
    }
  }

  /** The first of the two cells can be checked. */
  lemma TwoCellsPass(project: string, course: string, known: string, unknown: string, rules: Rules)
    requires Clean(known) && Clean(unknown) && known in rules.professors && rules.most(0) != Some(0)
    ensures exists picks :: Passes(TwoCells(project, course, known, unknown), rules, picks)
  {
    hide Filled, Codes, Clean, MayPick, CellValid;
    var rows := TwoCells(project, course, known, unknown);
    forall p, k, role | Due(rows, p, k, role) ensures MayPass(rows, rules, p, role) {
      if role == 0 {
        FilledOfTwo(project, course, known, unknown, None);
        KnownValid(known, rules);
        CellPasses(rows, rules, project, known);
      } else {
        OtherTypesBlank(rows, p, role);
        BlankPasses(rows, rules, p, role);
      }
    }
    SomePicks(rows, rules);
  }

  lemma KnownValid(known: string, rules: Rules)
    requires Clean(known) && known in rules.professors && rules.most(0) != Some(0)
    ensures CellValid(Some(known), rules.most(0), rules.professors)
  {
    hide Codes, Clean;
    CodesOfClean(known);
  }

  lemma CellPasses(rows: seq<FileRow>, rules: Rules, project: string, c: string)
    requires c in Filled(rows, project, None, 0) && CellValid(Some(c), rules.most(0), rules.professors)
    ensures MayPass(rows, rules, project, 0)
  {
    assert MayPick(rows, project, 0, Some(c));
  }

  lemma BlankPasses(rows: seq<FileRow>, rules: Rules, project: string, role: nat)
    requires Filled(rows, project, None, role) == []
    ensures MayPass(rows, rules, project, role)
  {
    EmptyCellValid(rules.most(role), rules.professors);
    assert MayPick(rows, project, role, None);
  }

  /**
   * The code that sorts first is checked and found; the other one is loaded. It names nobody, so the
   * file passes and leaves the project without an evaluator of this type.
   */
  lemma UnknownCodeLoaded(project: string, course: string, known: string, unknown: string, leq: Collation, rules: Rules)
    requires TotalOrder(leq) && leq(known, unknown) && Clean(known) && Clean(unknown)
    requires known in rules.professors && unknown !in rules.professors && rules.most(0) != Some(0)
    ensures var rows := TwoCells(project, course, known, unknown);
      && (exists picks :: Passes(rows, rules, picks))
      && LoadedCell(rows, project, course, 0, leq) == Some(unknown)
      && Listed(Codes(LoadedCell(rows, project, course, 0, leq)), rules.professors) == []
  {
    hide Filled, TwoCells, Codes, Clean, Passes;
    TwoCellsPass(project, course, known, unknown, rules);
    FilledOfTwo(project, course, known, unknown, Some(course));
    CodesOfClean(unknown);
    MaxExact([known, unknown], leq);
    assert leq(unknown, unknown);
    assert [unknown][..0] == [];
  }
}
