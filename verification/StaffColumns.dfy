/**
 * What one row of a staff file leaves in the two tables, from the texts of its cells, and what validation
 * demands of a file.
 */
module StaffColumns {
  import opened Wrappers
  import opened SqlText
  import opened UndoTable
  import opened Staff

  /** The cell's text, or NULL for a blank cell. */
  ghost predicate Holds(c: Cell, x: Option<string>) {
    if SaysNothing(x) then c == Null else exists t :: Says(x, t) && c == Text(t)
  }

  lemma HoldsExact(x: Option<string>)
    ensures Holds(TextCell(Blank(x)), x)
  {
    hide Blank, Says, SaysNothing;
    BlankExact(x, "");
    if Blank(x).Some? {
      BlankExact(x, Blank(x).value);
    }
  }

  /** The names of the file; the e-mail of the file, or the former one where the file leaves it blank. */
  ghost predicate UpdatedFrom(before: Row<Cell>, after: Row<Cell>, r: FileRow) {
    && after.columns.Keys == {"first_name", "last_name", "staff_email"} == before.columns.Keys
    && Holds(after.columns["first_name"], r.firstName) && Holds(after.columns["last_name"], r.lastName)
    && (if SaysNothing(r.email) then after.columns["staff_email"] == before.columns["staff_email"]
        else Holds(after.columns["staff_email"], r.email))
    && after.uploadLogId == before.uploadLogId
  }

  ghost predicate InsertedFrom(after: Row<Cell>, r: FileRow, id: nat) {
    && after.columns.Keys == {"first_name", "last_name", "staff_email"}
    && Holds(after.columns["first_name"], r.firstName) && Holds(after.columns["last_name"], r.lastName)
    && Holds(after.columns["staff_email"], r.email) && after.uploadLogId == Some(id) && Undo(after) == []
  }

  /** The new undo entry has the former columns. */
  ghost predicate Saved(before: Row<Cell>, after: Row<Cell>, id: nat) {
    Undo(after) == Undo(before) + [UndoEntry(id, before.columns)]
  }

  lemma EditHolds(before: Row<Cell>, r: FileRow, id: nat)
    requires RowOk(before, STAFF)
    ensures UpdatedFrom(before, Push(before, id, StaffEdit(r), STAFF), r)
    ensures Saved(before, Push(before, id, StaffEdit(r), STAFF), id)
    ensures InsertedFrom(Inserted(id, StaffEdit(r)), r, id)
  {
    hide Blank, SaysNothing, Holds;
    HoldsExact(r.firstName);
    HoldsExact(r.lastName);
    HoldsExact(r.email);
    BlankExact(r.email, "");
    assert before.columns.Keys == STAFF_COLUMNS;
    assert (map c | c in before.columns && c in STAFF.recorded :: before.columns[c]) == before.columns;
  }

  lemma TargetExact(w: Work, r: FileRow, code: string)
    requires Says(r.professorCode, code) && code in w.professors
    ensures Target(w.professors, r) == Some(StaffOf(w.professors[code]))
  {
    hide Blank, Says;
    BlankExact(r.professorCode, code);
  }

  /** A row whose professor is known updates that professor's staff row and nothing else. */
  lemma KnownProfessor(w: Work, id: nat, r: FileRow, code: string, s: nat)
    requires Linked(w) && TableOk(w.staff, STAFF)
    requires Says(r.professorCode, code) && code in w.professors
    requires w.professors[code].columns == map["staff_id" := StaffId(s)]
    ensures var after := RowStep(w, id, r);
      && s in w.staff && s in after.staff && UpdatedFrom(w.staff[s], after.staff[s], r)
      && Saved(w.staff[s], after.staff[s], id)
      && after.professors == w.professors && after.next == w.next
      && (forall k :: k in after.staff <==> k in w.staff)
      && (forall k :: k in w.staff && k != s ==> after.staff[k] == w.staff[k])
  {
    hide Push, StaffEdit, Says, UpdatedFrom, Saved;
    TargetExact(w, r, code);
    assert StaffOf(w.professors[code]) == s;
    EditHolds(w.staff[s], r, id);
  }

  /** Any other row inserts a staff row, and a professor who points at it if the row says a code. */
  lemma NewProfessor(w: Work, id: nat, r: FileRow, code: string)
    requires Linked(w) && (if SaysNothing(r.professorCode) then true else Says(r.professorCode, code))
    requires SaysNothing(r.professorCode) || code !in w.professors
    ensures var after := RowStep(w, id, r);
      && w.next !in w.staff && w.next in after.staff && InsertedFrom(after.staff[w.next], r, id)
      && after.next == w.next + 1
      && (forall k :: k in after.staff <==> k in w.staff || k == w.next)
      && (forall k :: k in w.staff ==> after.staff[k] == w.staff[k])
      && (if SaysNothing(r.professorCode) then after.professors == w.professors
          else code in after.professors
               && after.professors[code].columns == map["staff_id" := StaffId(w.next)]
               && after.professors[code].uploadLogId == Some(id) && Undo(after.professors[code]) == []
               && (forall c :: c in after.professors <==> c in w.professors || c == code)
               && (forall c :: c in w.professors ==> after.professors[c] == w.professors[c]))
  {
    hide StaffEdit, Says, SaysNothing, InsertedFrom, Blank;
    BlankExact(r.professorCode, code);
    EditHolds(AnyStaff(), r, id);
  }

  function AnyStaff(): Row<Cell> {
    Row(None, map c | c in STAFF_COLUMNS :: Null, Extra(map[], None))
  }

  // ---------------------------------------------------------------- what validation demands

  ghost predicate SaysNothingOrUpTo(x: Option<string>, n: nat) {
    SaysNothing(x) || SaysUpTo(x, n)
  }

  ghost predicate RowFits(r: FileRow) {
    && SaysUpTo(r.lastName, 255) && SaysUpTo(r.firstName, 255)
    && SaysNothingOrUpTo(r.professorCode, 50) && SaysNothingOrUpTo(r.email, 255)
  }

  lemma RowFitsExact(r: FileRow)
    ensures RowValid(r) <==> RowFits(r)
  {
    hide Blank, SaysUpTo, SaysNothing;
    SaysUpToExact(r.lastName, 255);
    SaysUpToExact(r.firstName, 255);
    SaysUpToExact(r.professorCode, 50);
    SaysUpToExact(r.email, 255);
    BlankExact(r.professorCode, "");
    BlankExact(r.email, "");
  }

  /** A file is valid exactly when its rows fit one by one and no two of them say one professor. */
  lemma ValidatedExactly(file: seq<FileRow>, locale: Locale)
    ensures Validated(file, locale) <==>
            (forall i :: 0 <= i < |file| ==> RowFits(file[i])) &&
            (forall i, j :: 0 <= i < j < |file| ==> !SayAlike(file[i].professorCode, file[j].professorCode, locale))
  {
    hide RowValid, RowFits, SayAlike, SameFolded;
    forall i | 0 <= i < |file| ensures RowValid(file[i]) <==> RowFits(file[i]) {
      RowFitsExact(file[i]);
    }
    forall i, j | 0 <= i < j < |file|
      ensures SameFolded(file[i].professorCode, file[j].professorCode, locale) <==>
              SayAlike(file[i].professorCode, file[j].professorCode, locale)
    {
      SayAlikeExact(file[i].professorCode, file[j].professorCode, locale);
    }
  }
}
