/**
 * audit.fn_upload_staff and audit.fn_rollback_staff: staff rows found through the professor code of a
 * file row, updated in place or inserted, one file row after the other.
 */
module Staff {
  import opened Wrappers
  import opened SqlText
  import opened UndoTable
  import opened UndoReplay
  import opened UndoLoad
  import opened TwoTables

  datatype Cell = Null | Text(text: string) | StaffId(id: nat)

  const STAFF_COLUMNS := {"first_name", "last_name", "staff_email"}
  const STAFF := Schema(STAFF_COLUMNS, STAFF_COLUMNS)
  const PROFESSORS := Schema({"staff_id"}, {"staff_id"})

  // ---------------------------------------------------------------- the file

  datatype FileRow = FileRow(professorCode: Option<string>, lastName: Option<string>,
                             firstName: Option<string>, email: Option<string>)

  predicate RowValid(r: FileRow) {
    && Blank(r.lastName).Some? && |Blank(r.lastName).value| <= 255
    && Blank(r.firstName).Some? && |Blank(r.firstName).value| <= 255
    && (Blank(r.professorCode).Some? ==> |Blank(r.professorCode).value| <= 50)
    && (Blank(r.email).Some? ==> |Blank(r.email).value| <= 255)
  }

  predicate Validated(file: seq<FileRow>, locale: Locale) {
    && (forall i :: 0 <= i < |file| ==> RowValid(file[i]))
    && (forall i, j :: 0 <= i < j < |file| ==> !SameFolded(file[i].professorCode, file[j].professorCode, locale))
  }

  predicate CodesApart(file: seq<FileRow>) {
    forall i, j :: 0 <= i < j < |file| && Blank(file[i].professorCode).Some? ==>
      Blank(file[i].professorCode) != Blank(file[j].professorCode)
  }

  lemma ValidatedApart(file: seq<FileRow>, locale: Locale)
    requires Validated(file, locale)
    ensures CodesApart(file)
  {
    forall i, j | 0 <= i < j < |file| && Blank(file[i].professorCode).Some?
      ensures Blank(file[i].professorCode) != Blank(file[j].professorCode)
    {
      assert !SameFolded(file[i].professorCode, file[j].professorCode, locale);
    }
  }

  function TextCell(x: Option<string>): Cell {
    match x
    case None => Null
    case Some(s) => Text(s)
  }

  /** A fresh staff row takes the e-mail as it is; an existing one keeps its own when the cell is blank. */
  function StaffEdit(r: FileRow): Edit<Cell> {
    var names := map["first_name" := TextCell(Blank(r.firstName)), "last_name" := TextCell(Blank(r.lastName))];
    Edit(names["staff_email" := TextCell(Blank(r.email))],
         if Blank(r.email) == None then names else names["staff_email" := TextCell(Blank(r.email))])
  }

  function ProfessorEdit(staffId: nat): Edit<Cell> {
    Edit(map["staff_id" := StaffId(staffId)], map[])
  }

  lemma EditsRecord(r: FileRow, staffId: nat)
    ensures Recording(StaffEdit(r), STAFF) && Recording(ProfessorEdit(staffId), PROFESSORS)
  {}

  // ---------------------------------------------------------------- the loop

  type StaffTable = Table<nat, Cell>
  type ProfessorTable = Table<string, Cell>

  /** The two tables and the next staff id of the sequence. */
  datatype Work = Work(staff: StaffTable, professors: ProfessorTable, next: nat)

  predicate PointsAt(p: Row<Cell>, staffId: nat) {
    p.columns == map["staff_id" := StaffId(staffId)]
  }

  /** professors.staff_id is NOT NULL and a foreign key; ids at or above `next` are still unused. */
  ghost predicate WorkOk(w: Work) {
    && (forall c :: c in w.professors ==> exists s :: s in w.staff && PointsAt(w.professors[c], s))
    && (forall s :: s in w.staff ==> s < w.next)
  }

  function StaffOf(p: Row<Cell>): nat {
    if "staff_id" in p.columns && p.columns["staff_id"].StaffId? then p.columns["staff_id"].id else 0
  }

  lemma StaffOfPoints(w: Work, c: string)
    requires WorkOk(w) && c in w.professors
    ensures StaffOf(w.professors[c]) in w.staff
  {
    var s :| s in w.staff && PointsAt(w.professors[c], s);
    assert "staff_id" in w.professors[c].columns;
  }

  /** The staff row that the loop finds for a file row through its professor code. */
  function Target(professors: ProfessorTable, r: FileRow): Option<nat> {
    var code := Blank(r.professorCode);
    if code.Some? && code.value in professors then Some(StaffOf(professors[code.value])) else None
  }

  function RowStep(w: Work, id: nat, r: FileRow): Work {
    match Target(w.professors, r)
    case Some(s) =>
      if s in w.staff then w.(staff := w.staff[s := Push(w.staff[s], id, StaffEdit(r), STAFF)]) else w
    case None =>
      var code := Blank(r.professorCode);
      Work(w.staff[w.next := Inserted(id, StaffEdit(r))],
           if code == None then w.professors
           else w.professors[code.value := Inserted(id, ProfessorEdit(w.next))],
           w.next + 1)
  }

  function LoadRows(w: Work, id: nat, file: seq<FileRow>): Work {
    if file == [] then w
    else RowStep(LoadRows(w, id, file[..|file| - 1]), id, file[|file| - 1])
  }

  // ---------------------------------------------------------------- the loop as one batch

  /** What the loop will do, read off the professors there are before it starts. */
  datatype Effect = Effect(staff: Batch<nat, Cell>, professors: Batch<string, Cell>, next: nat)

  function EffectStep(professors: ProfessorTable, e: Effect, r: FileRow): Effect {
    match Target(professors, r)
    case Some(s) => e.(staff := e.staff[s := StaffEdit(r)])
    case None =>
      var code := Blank(r.professorCode);
      Effect(e.staff[e.next := StaffEdit(r)],
             if code == None then e.professors else e.professors[code.value := ProfessorEdit(e.next)],
             e.next + 1)
  }

  function EffectOf(professors: ProfessorTable, next: nat, file: seq<FileRow>): Effect {
    if file == [] then Effect(map[], map[], next)
    else EffectStep(professors, EffectOf(professors, next, file[..|file| - 1]), file[|file| - 1])
  }

  /** No two rows of the file reach the same staff row through their professors. */
  ghost predicate TargetsApart(professors: ProfessorTable, file: seq<FileRow>) {
    forall i, j :: 0 <= i < j < |file| && Target(professors, file[i]).Some? ==>
      Target(professors, file[i]) != Target(professors, file[j])
  }

  lemma {:induction false} EffectRecords(professors: ProfessorTable, next: nat, file: seq<FileRow>)
    ensures var e := EffectOf(professors, next, file);
            next <= e.next && BatchOk(e.staff, STAFF) && BatchOk(e.professors, PROFESSORS)
  {
    if file != [] {
      hide StaffEdit, ProfessorEdit, Recording, Target, Blank;
      var n := |file| - 1;
      EffectRecords(professors, next, file[..n]);
      EditsRecord(file[n], EffectOf(professors, next, file[..n]).next);
    }
  }

  lemma {:induction false} EffectKeys(professors: ProfessorTable, next: nat, file: seq<FileRow>)
    ensures var e := EffectOf(professors, next, file);
      && next <= e.next
      && (forall s :: s in e.staff ==>
            next <= s < e.next || exists i :: 0 <= i < |file| && Target(professors, file[i]) == Some(s))
      && (forall c :: c in e.professors ==>
            c !in professors && exists i :: 0 <= i < |file| && Blank(file[i].professorCode) == Some(c))
  {
    if file != [] {
      hide StaffEdit, ProfessorEdit, StaffOf, Blank;
      var n := |file| - 1;
      assert forall i :: 0 <= i < n ==> file[..n][i] == file[i];
      EffectKeys(professors, next, file[..n]);
    }
  }

  lemma UploadExtend<K(!new), C(!new)>(t: Table<K, C>, id: nat, b: Batch<K, C>, k: K, e: Edit<C>, schema: Schema)
    requires k !in b
    ensures Upload(t, id, b[k := e], schema) ==
            Upload(t, id, b, schema)[k := UploadRow(Lookup(t, k), id, e, schema)]
    ensures k in t ==> k in Upload(t, id, b, schema) && Upload(t, id, b, schema)[k] == t[k]
    ensures k !in t ==> k !in Upload(t, id, b, schema)
  {}

  /** One upload over each table. */
  function Uploaded(w: Work, id: nat, e: Effect): Work {
    Work(Upload(w.staff, id, e.staff, STAFF), Upload(w.professors, id, e.professors, PROFESSORS), e.next)
  }

  /** A file row is new to an effect: nothing in it has the row's professor code or staff row. */
  ghost predicate NewTo(w: Work, e: Effect, r: FileRow) {
    && (Blank(r.professorCode).Some? ==> Blank(r.professorCode).value !in e.professors)
    && match Target(w.professors, r)
       case Some(s) => s !in e.staff && s in w.staff
       case None => e.next !in e.staff && e.next !in w.staff
  }

  lemma RowIsUpload(w: Work, id: nat, e: Effect, r: FileRow)
    requires NewTo(w, e, r)
    ensures RowStep(Uploaded(w, id, e), id, r) == Uploaded(w, id, EffectStep(w.professors, e, r))
  {
    hide Upload, StaffEdit, ProfessorEdit, Push, Inserted, StaffOf, Blank;
    var code := Blank(r.professorCode);
    if code.Some? {
      UploadExtend(w.professors, id, e.professors, code.value, ProfessorEdit(e.next), PROFESSORS);
    }
    match Target(w.professors, r)
    case Some(s) => UploadExtend(w.staff, id, e.staff, s, StaffEdit(r), STAFF);
    case None => UploadExtend(w.staff, id, e.staff, e.next, StaffEdit(r), STAFF);
  }

  lemma LastRowNew(w: Work, file: seq<FileRow>)
    requires WorkOk(w) && CodesApart(file) && TargetsApart(w.professors, file) && file != []
    ensures NewTo(w, EffectOf(w.professors, w.next, file[..|file| - 1]), file[|file| - 1])
  {
    hide EffectOf, StaffOf, Blank, BatchOk;
    var n := |file| - 1;
    assert forall i :: 0 <= i < n ==> file[..n][i] == file[i];
    EffectKeys(w.professors, w.next, file[..n]);
    forall i | 0 <= i <= n && Target(w.professors, file[i]).Some?
      ensures Target(w.professors, file[i]).value in w.staff
    {
      StaffOfPoints(w, Blank(file[i].professorCode).value);
    }
  }

  /** As long as its rows stay apart, the loop is one upload over each table. */
  lemma {:induction false} LoadRowsIsUpload(w: Work, id: nat, file: seq<FileRow>)
    requires WorkOk(w) && CodesApart(file) && TargetsApart(w.professors, file)
    ensures LoadRows(w, id, file) == Uploaded(w, id, EffectOf(w.professors, w.next, file))
  {
    if file != [] {
      hide Uploaded, RowStep, NewTo, EffectStep, WorkOk;
      var n := |file| - 1;
      assert forall i :: 0 <= i < n ==> file[..n][i] == file[i];
      LoadRowsIsUpload(w, id, file[..n]);
      LastRowNew(w, file);
      RowIsUpload(w, id, EffectOf(w.professors, w.next, file[..n]), file[n]);
    }
  }

  // ---------------------------------------------------------------- exactly when undo works

  /** How many file rows reach a staff row that is already there. */
  function Reaching(professors: ProfessorTable, file: seq<FileRow>, s: nat): nat {
    if file == [] then 0
    else Reaching(professors, file[..|file| - 1], s) +
         if Target(professors, file[|file| - 1]) == Some(s) then 1 else 0
  }

  /** Each of those rows pushes once. */
  lemma {:induction false} LoadRowsPushes(w: Work, id: nat, file: seq<FileRow>, s: nat)
    requires WorkOk(w) && CodesApart(file) && s in w.staff
    ensures var w' := LoadRows(w, id, file);
      && w.next <= w'.next && s in w'.staff && w'.staff[s].uploadLogId == w.staff[s].uploadLogId
      && |Undo(w'.staff[s])| == |Undo(w.staff[s])| + Reaching(w.professors, file, s)
      && (forall c :: c in w.professors ==> c in w'.professors && w'.professors[c] == w.professors[c])
      && (forall c :: c in w'.professors ==>
            c in w.professors || exists i :: 0 <= i < |file| && Blank(file[i].professorCode) == Some(c))
  {
    if file != [] {
      hide StaffEdit, ProfessorEdit, StaffOf, Blank;
      var n := |file| - 1;
      assert forall i :: 0 <= i < n ==> file[..n][i] == file[i];
      LoadRowsPushes(w, id, file[..n], s);
      var w1 := LoadRows(w, id, file[..n]);
      assert Target(w1.professors, file[n]) == Target(w.professors, file[n]);
    }
  }

  lemma {:induction false} ReachingTwice(professors: ProfessorTable, file: seq<FileRow>, i: nat, j: nat, s: nat)
    requires i < j < |file| && Target(professors, file[i]) == Target(professors, file[j]) == Some(s)
    ensures Reaching(professors, file, s) >= 2
  {
    var n := |file| - 1;
    if j < n {
      ReachingTwice(professors, file[..n], i, j, s);
    } else {
      ReachingOnce(professors, file[..n], i, s);
    }
  }

  lemma {:induction false} ReachingOnce(professors: ProfessorTable, file: seq<FileRow>, i: nat, s: nat)
    requires i < |file| && Target(professors, file[i]) == Some(s)
    ensures Reaching(professors, file, s) >= 1
  {
    var n := |file| - 1;
    if i < n {
      ReachingOnce(professors, file[..n], i, s);
    }
  }

  lemma UndoApart(w: Work, id: nat, file: seq<FileRow>)
    requires WorkOk(w) && CodesApart(file) && TargetsApart(w.professors, file)
    requires TableOk(w.staff, STAFF) && TableOk(w.professors, PROFESSORS)
    requires Unmentioned(w.staff, id) && Unmentioned(w.professors, id)
    ensures var w' := LoadRows(w, id, file);
            Rollback(w'.staff, id) == w.staff && Rollback(w'.professors, id) == w.professors
  {
    LoadRowsIsUpload(w, id, file);
    EffectRecords(w.professors, w.next, file);
    var e := EffectOf(w.professors, w.next, file);
    RollbackUndoesUpload(w.staff, Applied(id, e.staff), STAFF);
    RollbackUndoesUpload(w.professors, Applied(id, e.professors), PROFESSORS);
  }

  lemma RollbackPopsOnce<K(!new), C(!new)>(t: Table<K, C>, id: nat, k: K)
    requires k in t && t[k].uploadLogId != Some(id)
    ensures k in Rollback(t, id) && |Undo(Rollback(t, id)[k])| + 1 >= |Undo(t[k])|
  {}

  lemma UndoShared(w: Work, id: nat, file: seq<FileRow>, i: nat, j: nat, s: nat)
    requires WorkOk(w) && CodesApart(file) && Unmentioned(w.staff, id)
    requires i < j < |file| && Target(w.professors, file[i]) == Target(w.professors, file[j]) == Some(s)
    ensures Rollback(LoadRows(w, id, file).staff, id) != w.staff
  {
    StaffOfPoints(w, Blank(file[i].professorCode).value);
    LoadRowsPushes(w, id, file, s);
    ReachingTwice(w.professors, file, i, j, s);
    RollbackPopsOnce(LoadRows(w, id, file).staff, id, s);
  }

  /**
   * A rollback right after the upload restores both tables exactly when no two rows of the file reach
   * the same staff row: such a row is pushed twice, but a rollback pops one entry.
   */
  lemma UndoExact(w: Work, id: nat, file: seq<FileRow>)
    requires WorkOk(w) && CodesApart(file)
    requires TableOk(w.staff, STAFF) && TableOk(w.professors, PROFESSORS)
    requires Unmentioned(w.staff, id) && Unmentioned(w.professors, id)
    ensures Rollback(LoadRows(w, id, file).staff, id) == w.staff &&
            Rollback(LoadRows(w, id, file).professors, id) == w.professors <==>
            TargetsApart(w.professors, file)
  {
    if TargetsApart(w.professors, file) {
      UndoApart(w, id, file);
    } else {
      var i, j :| 0 <= i < j < |file| && Target(w.professors, file[i]).Some? &&
                  Target(w.professors, file[i]) == Target(w.professors, file[j]);
      UndoShared(w, id, file, i, j, Target(w.professors, file[i]).value);
    }
  }

  /** Professors "1" and "2" on the one staff row 0. */
  function SharedStaff(): Work {
    var p := Row(None, map["staff_id" := StaffId(0)], Extra(map[], None));
    Work(map[0 := Row(None, map["first_name" := Text("A"), "last_name" := Text("B"), "staff_email" := Null],
                      Extra(map[], None))],
         map["1" := p, "2" := p], 1)
  }

  const SHARED_FILE := [FileRow(Some("1"), Some("C"), Some("D"), None), FileRow(Some("2"), Some("E"), Some("F"), None)]

  lemma SharedStaffOk()
    ensures WorkOk(SharedStaff()) && Unmentioned(SharedStaff().staff, 1)
    ensures "1" in SharedStaff().professors && "2" in SharedStaff().professors
    ensures StaffOf(SharedStaff().professors["1"]) == StaffOf(SharedStaff().professors["2"]) == 0
  {
    var w := SharedStaff();
    assert PointsAt(w.professors["1"], 0) && PointsAt(w.professors["2"], 0);
  }

  lemma SharedStaffLinked()
    ensures Linked(SharedStaff())
  {
    assert PointsAt(SharedStaff().professors["1"], 0) && PointsAt(SharedStaff().professors["2"], 0);
  }

  lemma SharedFileOk()
    ensures CodesApart(SHARED_FILE) && forall i :: 0 <= i < 2 ==> RowValid(SHARED_FILE[i])
    ensures Blank(SHARED_FILE[0].professorCode) == Some("1") && Blank(SHARED_FILE[1].professorCode) == Some("2")
  {
    assert Trim("1") == "1" && Trim("2") == "2" && Trim("C") == "C" && Trim("D") == "D" && Trim("E") == "E" &&
           Trim("F") == "F";
    assert "1"[0] != "2"[0];
  }

  /** A file that names both is accepted and cannot be taken back in full. */
  lemma SharedStaffDecays(locale: Locale)
    requires locale.lower("1") != locale.lower("2")
    ensures WorkOk(SharedStaff()) && Linked(SharedStaff()) && Validated(SHARED_FILE, locale)
    ensures Rollback(LoadRows(SharedStaff(), 1, SHARED_FILE).staff, 1) != SharedStaff().staff
  {
    hide LoadRows, Rollback, WorkOk, SharedStaff, Blank, StaffOf, CodesApart, RowValid, Linked;
    SharedStaffOk();
    SharedStaffLinked();
    SharedFileOk();
    UndoShared(SharedStaff(), 1, SHARED_FILE, 0, 1, 0);
  }

  // ---------------------------------------------------------------- runs

  type Loaded = Both<nat, string, Cell>
  type Start = Pair<nat, string, Cell>

  datatype State = State(work: Work, nextId: nat, logs: set<nat>, survivors: seq<Loaded>)

  datatype Call =
    | LoadFile(file: seq<FileRow>)
    | RollBack(logId: nat, blocked: bool)
    | OtherType

  function StepStaff(db: State, ev: Call, locale: Locale): State {
    match ev
    case LoadFile(file) =>
      if !Validated(file, locale) then db
      else
        var e := EffectOf(db.work.professors, db.work.next, file);
        State(LoadRows(db.work, db.nextId, file), db.nextId + 1, db.logs + {db.nextId},
              db.survivors + [Both(db.nextId, e.staff, e.professors)])
    case RollBack(id, blocked) =>
      if id !in db.logs || blocked || !Newest(db.work.staff, id) || !Newest(db.work.professors, id) then db
      else db.(work := Work(Rollback(db.work.staff, id), Rollback(db.work.professors, id), db.work.next),
               survivors := WithoutBoth(db.survivors, id))
    case OtherType => db.(nextId := db.nextId + 1, logs := db.logs + {db.nextId})
  }

  function RunStaff(db: State, events: seq<Call>, locale: Locale): State {
    if events == [] then db
    else StepStaff(RunStaff(db, events[..|events| - 1], locale), events[|events| - 1], locale)
  }

  /**
   * A professor and its staff row were inserted by the same upload, or are both older than all uploads;
   * professors are never pushed.
   */
  ghost predicate Linked(w: Work) {
    && (forall c :: c in w.professors ==>
          && StaffOf(w.professors[c]) in w.staff
          && PointsAt(w.professors[c], StaffOf(w.professors[c]))
          && w.staff[StaffOf(w.professors[c])].uploadLogId == w.professors[c].uploadLogId
          && Undo(w.professors[c]) == [])
    && (forall s :: s in w.staff ==> s < w.next)
  }

  ghost predicate StateOk(base: Start, db: State) {
    && Linked(db.work)
    && (forall u :: u in db.survivors ==> u.logId in db.logs)
    && (forall id :: id in db.logs ==> id < db.nextId)
    && Replayed(base, db.survivors, Pair(db.work.staff, db.work.professors), STAFF, PROFESSORS)
  }

  lemma LinkedOk(w: Work)
    requires Linked(w)
    ensures WorkOk(w)
  {}

  /** An accepted file reaches no staff row twice. */
  ghost predicate CallApart(db: State, call: Call, locale: Locale) {
    call.LoadFile? && Validated(call.file, locale) ==> TargetsApart(db.work.professors, call.file)
  }

  lemma RowKeepsLinked(w: Work, id: nat, r: FileRow)
    requires Linked(w)
    ensures Linked(RowStep(w, id, r))
  {
    hide StaffEdit, Blank;
  }

  lemma {:induction false} RowsKeepLinked(w: Work, id: nat, file: seq<FileRow>)
    requires Linked(w)
    ensures Linked(LoadRows(w, id, file))
  {
    if file != [] {
      RowsKeepLinked(w, id, file[..|file| - 1]);
      RowKeepsLinked(LoadRows(w, id, file[..|file| - 1]), id, file[|file| - 1]);
    }
  }

  lemma RollbackKeepsLinked(w: Work, id: nat)
    requires Linked(w)
    ensures Linked(Work(Rollback(w.staff, id), Rollback(w.professors, id), w.next))
  {}

  lemma FreshId(base: Start, db: State)
    requires StateOk(base, db)
    ensures Unmentioned(db.work.staff, db.nextId) && Unmentioned(db.work.professors, db.nextId)
    ensures forall i :: 0 <= i < |db.survivors| ==> db.survivors[i].logId < db.nextId
  {
    forall i | 0 <= i < |db.survivors| ensures db.survivors[i].logId < db.nextId {
      assert db.survivors[i] in db.survivors;
    }
    ReplayedFresh(base, db.survivors, Pair(db.work.staff, db.work.professors), db.nextId, STAFF, PROFESSORS);
  }

  lemma LoadKeepsOk(base: Start, db: State, file: seq<FileRow>, locale: Locale)
    requires StateOk(base, db) && CallApart(db, LoadFile(file), locale)
    ensures StateOk(base, StepStaff(db, LoadFile(file), locale))
  {
    if Validated(file, locale) {
      var w := db.work;
      var e := EffectOf(w.professors, w.next, file);
      ValidatedApart(file, locale);
      LinkedOk(w);
      RowsKeepLinked(w, db.nextId, file);
      LoadRowsIsUpload(w, db.nextId, file);
      EffectRecords(w.professors, w.next, file);
      FreshId(base, db);
      ReplayedUpload(base, db.survivors, Pair(w.staff, w.professors), Both(db.nextId, e.staff, e.professors),
                     STAFF, PROFESSORS);
    }
  }

  lemma RollBackKeepsOk(base: Start, db: State, id: nat, blocked: bool, locale: Locale)
    requires StateOk(base, db)
    ensures StateOk(base, StepStaff(db, RollBack(id, blocked), locale))
  {
    if Newest(db.work.staff, id) && Newest(db.work.professors, id) {
      RollbackKeepsLinked(db.work, id);
      forall u | u in WithoutBoth(db.survivors, id) ensures u in db.survivors {
        WithoutBothMembers(db.survivors, id, u);
      }
      ReplayedRollback(base, db.survivors, Pair(db.work.staff, db.work.professors), id, STAFF, PROFESSORS);
    }
  }

  /** No accepted file of the run reaches a staff row twice. */
  ghost predicate AllApart(start: State, calls: seq<Call>, locale: Locale) {
    forall n :: 0 <= n < |calls| ==> CallApart(RunStaff(start, calls[..n], locale), calls[n], locale)
  }

  lemma AllApartInit(start: State, calls: seq<Call>, locale: Locale)
    requires calls != [] && AllApart(start, calls, locale)
    ensures var init := calls[..|calls| - 1];
            AllApart(start, init, locale) && CallApart(RunStaff(start, init, locale), calls[|calls| - 1], locale)
  {
    hide CallApart, RunStaff;
    var init := calls[..|calls| - 1];
    forall i | 0 <= i < |init| ensures CallApart(RunStaff(start, init[..i], locale), init[i], locale) {
      assert init[..i] == calls[..i];
    }
  }

  lemma StepKeepsLinked(db: State, call: Call, locale: Locale)
    requires Linked(db.work)
    ensures Linked(StepStaff(db, call, locale).work)
  {
    hide Linked, LoadRows, Rollback;
    match call
    case LoadFile(file) => RowsKeepLinked(db.work, db.nextId, file);
    case RollBack(id, blocked) => RollbackKeepsLinked(db.work, id);
    case OtherType =>
  }

  lemma StepKeepsOk(base: Start, db: State, call: Call, locale: Locale)
    requires StateOk(base, db) && CallApart(db, call, locale)
    ensures StateOk(base, StepStaff(db, call, locale))
  {
    match call
    case LoadFile(file) => LoadKeepsOk(base, db, file, locale);
    case RollBack(id, blocked) => RollBackKeepsOk(base, db, id, blocked, locale);
    case OtherType =>
  }

  /**
   * Over any run whose accepted files reach no staff row twice: both tables are the replay of the
   * surviving uploads, and every professor has its staff row.
   */
  lemma {:induction false} StaffReplay(base: Start, start: State, events: seq<Call>, locale: Locale)
    requires Seed(base.first, STAFF) && Seed(base.second, PROFESSORS)
    requires start == State(Work(base.first, base.second, start.work.next), start.nextId, {}, [])
    requires Linked(start.work)
    requires AllApart(start, events, locale)
    ensures StateOk(base, RunStaff(start, events, locale))
    decreases |events|
  {
    hide Linked, Seed, StepStaff, CallApart, AllApart;
    if events == [] {
      NothingReplayed(base, start);
    } else {
      var n := |events| - 1;
      AllApartInit(start, events, locale);
      StaffReplay(base, start, events[..n], locale);
      StepKeepsOk(base, RunStaff(start, events[..n], locale), events[n], locale);
    }
  }

  lemma NothingReplayed(base: Start, start: State)
    requires Seed(base.first, STAFF) && Seed(base.second, PROFESSORS) && Linked(start.work)
    requires start == State(Work(base.first, base.second, start.work.next), start.nextId, {}, [])
    ensures StateOk(base, start)
  {}

  // ---------------------------------------------------------------- the functions themselves

  class StaffStore {
    const staff: RowTable<nat, Cell>
    const professors: RowTable<string, Cell>
    const locale: Locale
    ghost const base: Start
    var nextStaff: nat
    var nextId: nat
    var logs: set<nat>
    ghost var survivors: seq<Loaded>

    ghost function Now(): State
      reads this, staff, professors
    {
      State(Work(staff.rows, professors.rows, nextStaff), nextId, logs, survivors)
    }

    /** Both tables are the replay of the surviving uploads. */
    ghost predicate Valid()
      reads this, staff, professors
    {
      StateOk(base, Now())
    }

    /** The foreign key, and who inserted what. */
    ghost predicate Wired()
      reads this, staff, professors
    {
      Linked(Tables())
    }

    constructor (base: Start, nextStaff: nat, locale: Locale)
      requires Seed(base.first, STAFF) && Seed(base.second, PROFESSORS)
      requires Linked(Work(base.first, base.second, nextStaff))
      ensures Valid() && Wired() && this.base == base && this.locale == locale
      ensures Now() == State(Work(base.first, base.second, nextStaff), 0, {}, [])
    {
      this.base, this.locale, this.nextStaff := base, locale, nextStaff;
      staff := new RowTable(base.first);
      professors := new RowTable(base.second);
      nextId, logs, survivors := 0, {}, [];
    }

    ghost function Tables(): Work
      reads this, staff, professors
    {
      Work(staff.rows, professors.rows, nextStaff)
    }

    /** One turn of the loop: v_staff_id and v_prof_id start out NULL and are looked up anew. */
    method LoadRow(r: FileRow, id: nat)
      requires Linked(Tables())
      modifies this`nextStaff, staff, professors
      ensures Tables() == RowStep(old(Tables()), id, r)
    {
      var code := Blank(r.professorCode);
      var staffId: Option<nat> := None;
      if code.Some? && code.value in professors.rows {
        staffId := Some(StaffOf(professors.rows[code.value]));
      }
      if staffId == None {
        staff.rows := staff.rows[nextStaff := Inserted(id, StaffEdit(r))];
        if code.Some? {
          professors.rows := professors.rows[code.value := Inserted(id, ProfessorEdit(nextStaff))];
        }
        nextStaff := nextStaff + 1;
      } else {
        var s := staffId.value;
        staff.rows := staff.rows[s := Push(staff.rows[s], id, StaffEdit(r), STAFF)];
      }
    }

    method LoadAll(file: seq<FileRow>, id: nat)
      requires Linked(Tables())
      modifies this`nextStaff, staff, professors
      ensures Tables() == LoadRows(old(Tables()), id, file)
    {
      ghost var w := Tables();
      for n := 0 to |file|
        invariant Tables() == LoadRows(w, id, file[..n])
      {
        assert file[..n + 1][..n] == file[..n];
        RowsKeepLinked(w, id, file[..n]);
        LoadRow(file[n], id);
      }
      assert file[..|file|] == file;
    }

    method UploadFile(file: seq<FileRow>) returns (logId: Option<nat>)
      requires Wired()
      modifies this, staff, professors
      ensures Wired() && Now() == StepStaff(old(Now()), LoadFile(file), locale)
      ensures old(Valid()) && CallApart(old(Now()), LoadFile(file), locale) ==> Valid()
      ensures logId == if Validated(file, locale) then Some(old(nextId)) else None
    {
      hide StateOk, Validated, EffectOf, LoadRows, Linked, TargetsApart;
      StepKeepsLinked(Now(), LoadFile(file), locale);
      if Valid() && CallApart(Now(), LoadFile(file), locale) {
        LoadKeepsOk(base, Now(), file, locale);
      }
      if !Validated(file, locale) {
        return None;
      }
      var id := nextId;
      nextId, logs := id + 1, logs + {id};
      ghost var e := EffectOf(professors.rows, nextStaff, file);
      LoadAll(file, id);
      survivors := survivors + [Both(id, e.staff, e.professors)];
      logId := Some(id);
    }

    method RollbackUpload(id: nat, blocked: bool) returns (done: Outcome<string>)
      requires Wired()
      modifies this, staff, professors
      ensures Wired() && Now() == StepStaff(old(Now()), RollBack(id, blocked), locale)
      ensures old(Valid()) ==> Valid()
      ensures done == Refused ==> Now() == old(Now())
      ensures done == Refused <==>
                id !in logs || blocked || !Newest(old(staff.rows), id) || !Newest(old(professors.rows), id)
    {
      hide StateOk, Newest, Rollback, WithoutBoth, Linked;
      StepKeepsLinked(Now(), RollBack(id, blocked), locale);
      if Valid() {
        RollBackKeepsOk(base, Now(), id, blocked, locale);
      }
      if id !in logs || blocked {
        return Refused;
      }
      var staffNewer := staff.BlockedByNewer(id);
      var professorsNewer := professors.BlockedByNewer(id);
      if staffNewer || professorsNewer {
        return Refused;
      }
      professors.Undo(id);
      staff.Undo(id);
      survivors := WithoutBoth(survivors, id);
      done := Ok("ok");
    }
  }
}
