/**
 * audit.fn_upload_enrolled_students and audit.fn_rollback_enrolled_students: one upload writes two
 * tables, students by code and enrollments by (student code, study plan offering).
 */
module Students {
  import opened Wrappers
  import opened SqlText
  import opened UndoTable
  import opened UndoReplay
  import opened UndoLoad
  import opened TwoTables

  datatype Cell = Null | Id(id: int) | Text(text: string)

  type EnrollmentKey = (string, int)

  const STUDENT_COLUMNS := {"email", "program_id", "graduation_modality_type_id", "first_name", "last_name"}
  const STUDENTS := Schema(STUDENT_COLUMNS, STUDENT_COLUMNS)
  const ENROLLMENT_COLUMNS := {"campus_id", "enrollement_modality_type_id"}
  const ENROLLMENTS := Schema(ENROLLMENT_COLUMNS, ENROLLMENT_COLUMNS)

  // ---------------------------------------------------------------- the file

  /** offerings: the study-plan offering that the period gives a program, by program id. */
  datatype Catalog = Catalog(programs: map<string, int>, campuses: map<string, int>,
                             modalities: map<string, int>, offerings: map<int, int>)

  datatype FileRow = FileRow(studentCode: Option<string>, lastName: Option<string>, firstName: Option<string>,
                             programCode: Option<string>, campusCode: Option<string>, modality: Option<string>)

  predicate RowValid(r: FileRow, cat: Catalog, locale: Locale) {
    && Blank(r.studentCode).Some? && |Blank(r.studentCode).value| <= 50
    && Blank(r.lastName).Some? && |Blank(r.lastName).value| <= 255
    && Blank(r.firstName).Some? && |Blank(r.firstName).value| <= 255
    && Find(cat.programs, Blank(r.programCode)).Some?
    && Find(cat.programs, Blank(r.programCode)).value in cat.offerings
    && Find(cat.campuses, Blank(r.campusCode)).Some?
    && ModalityCode(r.modality, locale).Some?
  }

  predicate Validated(file: seq<FileRow>, cat: Catalog, locale: Locale) {
    && (forall i :: 0 <= i < |file| ==> RowValid(file[i], cat, locale))
    && (forall i, j :: 0 <= i < j < |file| ==> !SameFolded(file[i].studentCode, file[j].studentCode, locale))
  }

  function TextCell(x: Option<string>): Cell {
    match x
    case None => Null
    case Some(s) => Text(Trim(s))
  }

  function StudentItem(r: FileRow, cat: Catalog, locale: Locale): Item<string, Cell> {
    var code := Blank(r.studentCode);
    var program := Find(cat.programs, Blank(r.programCode));
    var modality := Find(cat.modalities, ModalityCode(r.modality, locale));
    if code == None || program == None || modality == None then None
    else
      var columns := map["email" := Text("U" + code.value + "@upc.edu.pe"), "program_id" := Id(program.value),
                         "graduation_modality_type_id" := Id(modality.value),
                         "first_name" := TextCell(r.firstName), "last_name" := TextCell(r.lastName)];
      Some((code.value, Edit(columns, columns)))
  }

  function EnrollmentItem(r: FileRow, cat: Catalog, locale: Locale): Item<EnrollmentKey, Cell> {
    var campus := Find(cat.campuses, Blank(r.campusCode));
    var program := Find(cat.programs, Blank(r.programCode));
    var modality := Find(cat.modalities, ModalityCode(r.modality, locale));
    if StudentItem(r, cat, locale) == None || campus == None || program.value !in cat.offerings then None
    else
      var columns := map["campus_id" := Id(campus.value), "enrollement_modality_type_id" := Id(modality.value)];
      Some(((Blank(r.studentCode).value, cat.offerings[program.value]), Edit(columns, columns)))
  }

  function StudentItems(file: seq<FileRow>, cat: Catalog, locale: Locale): seq<Item<string, Cell>> {
    seq(|file|, i requires 0 <= i < |file| => StudentItem(file[i], cat, locale))
  }

  function EnrollmentItems(file: seq<FileRow>, cat: Catalog, locale: Locale): seq<Item<EnrollmentKey, Cell>> {
    seq(|file|, i requires 0 <= i < |file| => EnrollmentItem(file[i], cat, locale))
  }

  // ---------------------------------------------------------------- two-table histories

  type Loaded = Both<string, EnrollmentKey, Cell>

  type Start = Pair<string, EnrollmentKey, Cell>

  /** An upload writes an enrollment only together with the student it hangs off. */
  ghost predicate LoadedOk(u: Loaded) {
    && BatchOk(u.first, STUDENTS) && BatchOk(u.second, ENROLLMENTS)
    && (forall key :: key in u.second ==> key.0 in u.first)
  }

  function FileBatch(logId: nat, file: seq<FileRow>, cat: Catalog, locale: Locale): Loaded {
    Both(logId, BatchOf(StudentItems(file, cat, locale)), BatchOf(EnrollmentItems(file, cat, locale)))
  }

  lemma ItemsRecord<K(!new)>(items: seq<Item<K, Cell>>, schema: Schema)
    requires forall i :: 0 <= i < |items| && items[i].Some? ==> Recording(items[i].value.1, schema)
    ensures BatchOk(BatchOf(items), schema)
  {
    if items != [] {
      ItemsRecord(items[..|items| - 1], schema);
    }
  }

  lemma RowRecords(r: FileRow, cat: Catalog, locale: Locale)
    ensures StudentItem(r, cat, locale).Some? ==> Recording(StudentItem(r, cat, locale).value.1, STUDENTS)
    ensures EnrollmentItem(r, cat, locale).Some? ==>
              && Recording(EnrollmentItem(r, cat, locale).value.1, ENROLLMENTS)
              && StudentItem(r, cat, locale).Some?
              && StudentItem(r, cat, locale).value.0 == EnrollmentItem(r, cat, locale).value.0.0
  {}

  lemma FileBatchOk(logId: nat, file: seq<FileRow>, cat: Catalog, locale: Locale)
    ensures LoadedOk(FileBatch(logId, file, cat, locale)) && FileBatch(logId, file, cat, locale).logId == logId
  {
    var ss, es := StudentItems(file, cat, locale), EnrollmentItems(file, cat, locale);
    forall i | 0 <= i < |file|
      ensures ss[i].Some? ==> Recording(ss[i].value.1, STUDENTS)
      ensures es[i].Some? ==> Recording(es[i].value.1, ENROLLMENTS) && ss[i].Some? && ss[i].value.0 == es[i].value.0.0
    {
      RowRecords(file[i], cat, locale);
    }
    ItemsRecord(ss, STUDENTS);
    ItemsRecord(es, ENROLLMENTS);
    BatchKeys(ss);
    BatchKeys(es);
  }

  lemma ValidatedApart(file: seq<FileRow>, cat: Catalog, locale: Locale)
    requires Validated(file, cat, locale)
    ensures KeysApart(StudentItems(file, cat, locale)) && KeysApart(EnrollmentItems(file, cat, locale))
  {
    var ss, es := StudentItems(file, cat, locale), EnrollmentItems(file, cat, locale);
    forall i, j | 0 <= i < j < |file|
      ensures ss[i].Some? && ss[j].Some? ==> ss[i].value.0 != ss[j].value.0
      ensures es[i].Some? && es[j].Some? ==> es[i].value.0 != es[j].value.0
    {
      assert !SameFolded(file[i].studentCode, file[j].studentCode, locale);
    }
  }

  // ---------------------------------------------------------------- runs

  datatype State = State(students: Table<string, Cell>, enrollments: Table<EnrollmentKey, Cell>,
                   nextId: nat, logs: set<nat>, survivors: seq<Loaded>)

  /** aborts: some statement of the function fails, so that the transaction is undone. */
  datatype Call =
    | LoadFile(file: seq<FileRow>, cat: Catalog, aborts: bool)
    | RollBack(logId: nat, blocked: bool)
    | OtherType

  /** The fifth EXISTS test: an enrollment of another upload hangs off a student this one inserted. */
  predicate ForeignEnrollment(students: Table<string, Cell>, enrollments: Table<EnrollmentKey, Cell>, id: nat) {
    exists key | key in enrollments ::
      enrollments[key].uploadLogId != Some(id) && key.0 in students && students[key.0].uploadLogId == Some(id)
  }

  predicate Accepts(db: State, id: nat) {
    Newest(db.students, id) && Newest(db.enrollments, id) && !ForeignEnrollment(db.students, db.enrollments, id)
  }

  function EmailOf(r: Row<Cell>): Cell {
    if "email" in r.columns then r.columns["email"] else Null
  }

  /** UNIQUE (email), under which NULLs are all different. */
  predicate EmailsApart(students: Table<string, Cell>) {
    forall a, b | a in students && b in students && a != b ::
      EmailOf(students[a]) == Null || EmailOf(students[a]) != EmailOf(students[b])
  }

  function AfterLoad(db: State, file: seq<FileRow>, cat: Catalog, locale: Locale): State {
    var u := FileBatch(db.nextId, file, cat, locale);
    State(Upload(db.students, u.logId, u.first, STUDENTS),
       Upload(db.enrollments, u.logId, u.second, ENROLLMENTS),
       db.nextId + 1, db.logs + {db.nextId}, db.survivors + [u])
  }

  /** Addresses differ after the INSERT and after the UPDATE. */
  predicate EmailsHold(students: Table<string, Cell>, id: nat, b: Batch<string, Cell>) {
    EmailsApart(students + Added(students, id, b)) && EmailsApart(Upload(students, id, b, STUDENTS))
  }

  /** No finding, and no statement fails. */
  predicate Loads(db: State, file: seq<FileRow>, cat: Catalog, aborts: bool, locale: Locale) {
    && Validated(file, cat, locale) && !aborts
    && EmailsHold(db.students, db.nextId, BatchOf(StudentItems(file, cat, locale)))
  }

  /** The pops of a rollback, before its DELETE. */
  function Restored(students: Table<string, Cell>, id: nat): Table<string, Cell> {
    map k | k in students :: if OnTop(students[k], id) then Pop(students[k]) else students[k]
  }

  /** A transaction that is undone has used up its log id. */
  function StepBoth(db: State, ev: Call, locale: Locale): State {
    match ev
    case LoadFile(file, cat, aborts) =>
      if Loads(db, file, cat, aborts, locale) then AfterLoad(db, file, cat, locale)
      else if Validated(file, cat, locale) then db.(nextId := db.nextId + 1)
      else db
    case RollBack(id, blocked) =>
      if id !in db.logs || blocked || !Accepts(db, id) || !EmailsApart(Restored(db.students, id)) then db
      else db.(students := Rollback(db.students, id), enrollments := Rollback(db.enrollments, id),
               survivors := WithoutBoth(db.survivors, id))
    case OtherType => db.(nextId := db.nextId + 1, logs := db.logs + {db.nextId})
  }

  function RunBoth(db: State, events: seq<Call>, locale: Locale): State {
    if events == [] then db
    else StepBoth(RunBoth(db, events[..|events| - 1], locale), events[|events| - 1], locale)
  }

  /** Every enrollment's student exists. */
  ghost predicate Referential(students: Table<string, Cell>, enrollments: Table<EnrollmentKey, Cell>) {
    forall key :: key in enrollments ==> key.0 in students
  }

  ghost predicate StartOk(base: Start) {
    Seed(base.first, STUDENTS) && Seed(base.second, ENROLLMENTS) && Referential(base.first, base.second)
  }

  ghost predicate StateOk(base: Start, db: State) {
    && StartOk(base)
    && (forall u :: u in db.survivors ==> LoadedOk(u) && u.logId in db.logs)
    && (forall id :: id in db.logs ==> id < db.nextId)
    && Replayed(base, db.survivors, Pair(db.students, db.enrollments), STUDENTS, ENROLLMENTS)
  }

  lemma LoadKeepsOk(base: Start, db: State, file: seq<FileRow>, cat: Catalog, aborts: bool, locale: Locale)
    requires StateOk(base, db)
    ensures StateOk(base, StepBoth(db, LoadFile(file, cat, aborts), locale))
  {
    hide Loads, Validated, AfterLoad, Replayed, LoadedOk;
    if Loads(db, file, cat, aborts, locale) {
      AfterLoadOk(base, db, file, cat, locale);
    }
  }

  lemma AfterLoadOk(base: Start, db: State, file: seq<FileRow>, cat: Catalog, locale: Locale)
    requires StateOk(base, db)
    ensures StateOk(base, AfterLoad(db, file, cat, locale))
  {
    hide FileBatch, Upload, Replayed, StartOk;
    var u := FileBatch(db.nextId, file, cat, locale);
    FileBatchOk(db.nextId, file, cat, locale);
    var h := db.survivors;
    forall i | 0 <= i < |h| ensures h[i].logId < u.logId {
      assert h[i] in h;
    }
    ReplayedUpload(base, h, Pair(db.students, db.enrollments), u, STUDENTS, ENROLLMENTS);
  }

  lemma RollBackKeepsOk(base: Start, db: State, id: nat, blocked: bool, locale: Locale)
    requires StateOk(base, db)
    ensures StateOk(base, StepBoth(db, RollBack(id, blocked), locale))
  {
    if Accepts(db, id) {
      var h := db.survivors;
      forall u | u in WithoutBoth(h, id) ensures u in h {
        WithoutBothMembers(h, id, u);
      }
      ReplayedRollback(base, h, Pair(db.students, db.enrollments), id, STUDENTS, ENROLLMENTS);
    }
  }

  /**
   * The upload that inserted an enrollment also touched its student, so it inserted that student or
   * lies on the student's stack; hence the student exists.
   */
  lemma EnrollmentTouchesStudent(base: Start, db: State, key: EnrollmentKey)
    requires StateOk(base, db) && key in db.enrollments
    ensures key.0 in db.students
    ensures match db.enrollments[key].uploadLogId
            case Some(b) => Touched(db.students[key.0], b)
            case None => db.students[key.0].uploadLogId == None
  {
    var hs, he := First(db.survivors), Second(db.survivors);
    SeedRowsHaveNoInserter(base.second, he, ENROLLMENTS, key);
    if key in base.second {
      KeysGrow(base.first, hs, STUDENTS, key.0);
      SeedRowsHaveNoInserter(base.first, hs, STUDENTS, key.0);
    } else {
      var i :| 0 <= i < |he| && key in he[i].batch && db.enrollments[key].uploadLogId == Some(he[i].logId);
      assert db.survivors[i] in db.survivors;
      assert key.0 in hs[i].batch;
      ReplayTouches(base.first, hs, STUDENTS, key.0, he[i].logId);
    }
  }

  lemma ReferentialIntegrity(base: Start, db: State)
    requires StateOk(base, db)
    ensures Referential(db.students, db.enrollments)
  {
    forall key | key in db.enrollments ensures key.0 in db.students {
      EnrollmentTouchesStudent(base, db, key);
    }
  }

  /** Over any run, both tables are the replay of the surviving uploads and every enrollment
   *  has its student. */
  lemma {:induction false} TwoTableReplay(base: Start, start: State, events: seq<Call>, locale: Locale)
    requires StartOk(base)
    requires start == State(base.first, base.second, start.nextId, {}, [])
    ensures var db := RunBoth(start, events, locale);
            StateOk(base, db) && Referential(db.students, db.enrollments)
  {
    if events != [] {
      var n := |events| - 1;
      TwoTableReplay(base, start, events[..n], locale);
      var db := RunBoth(start, events[..n], locale);
      match events[n]
      case LoadFile(file, cat, aborts) => LoadKeepsOk(base, db, file, cat, aborts, locale);
      case RollBack(id, blocked) => RollBackKeepsOk(base, db, id, blocked, locale);
      case OtherType =>
    }
    ReferentialIntegrity(base, RunBoth(start, events, locale));
  }

  /** In reachable states the cross-table test never refuses what the other four let through. */
  lemma CrossGuardRedundant(base: Start, db: State, id: nat)
    requires StateOk(base, db) && Newest(db.students, id)
    ensures !ForeignEnrollment(db.students, db.enrollments, id)
  {
    forall key | key in db.enrollments && key.0 in db.students && db.students[key.0].uploadLogId == Some(id)
      ensures db.enrollments[key].uploadLogId == Some(id)
    {
      EnrollmentTouchesStudent(base, db, key);
    }
  }

  /** Uploads that share no student share no enrollment. */
  lemma ApartInEnrollments(u: Loaded, v: Loaded)
    requires LoadedOk(u) && LoadedOk(v) && u.first.Keys !! v.first.Keys
    ensures u.second.Keys !! v.second.Keys
  {
    forall key | key in u.second ensures key !in v.second {
      assert key.0 in u.first;
    }
  }

  /** In reachable states the students' guard lets through only what the enrollments' guard does. */
  lemma EnrollmentGuardRedundant(base: Start, db: State, id: nat)
    requires StateOk(base, db) && Newest(db.students, id)
    ensures Newest(db.enrollments, id)
  {
    var h := db.survivors;
    var hs, he := First(h), Second(h);
    GuardExact(base.first, hs, STUDENTS, id);
    GuardExact(base.second, he, ENROLLMENTS, id);
    forall i, j | 0 <= i < j < |he| && he[i].logId == id ensures he[i].batch.Keys !! he[j].batch.Keys {
      assert hs[i].logId == id && hs[i].batch.Keys !! hs[j].batch.Keys;
      assert h[i] in h && h[j] in h;
      ApartInEnrollments(h[i], h[j]);
    }
  }

  /** No later upload of the history names a student that this one names. */
  ghost predicate LastOnItsStudents(h: seq<Loaded>, id: nat) {
    forall i, j :: 0 <= i < j < |h| && h[i].logId == id ==> h[i].first.Keys !! h[j].first.Keys
  }

  lemma StudentGuardExact(base: Start, db: State, id: nat)
    requires StateOk(base, db)
    ensures Newest(db.students, id) <==> LastOnItsStudents(db.survivors, id)
  {
    GuardExact(base.first, First(db.survivors), STUDENTS, id);
  }

  /**
   * The five tests together refuse a rollback exactly when a later surviving upload names one of its
   * students: whatever shares an enrollment shares its student.
   */
  lemma AcceptedExactly(base: Start, db: State, id: nat)
    requires StateOk(base, db)
    ensures Accepts(db, id) <==> LastOnItsStudents(db.survivors, id)
  {
    StudentGuardExact(base, db, id);
    if Newest(db.students, id) {
      CrossGuardRedundant(base, db, id);
      EnrollmentGuardRedundant(base, db, id);
    }
  }

  // ---------------------------------------------------------------- the functions themselves

  class EnrolledStudents {
    const students: RowTable<string, Cell>
    const enrollments: RowTable<EnrollmentKey, Cell>
    const locale: Locale
    ghost const base: Start
    var nextId: nat
    var logs: set<nat>
    ghost var survivors: seq<Loaded>

    ghost function Now(): State
      reads this, students, enrollments
    {
      State(students.rows, enrollments.rows, nextId, logs, survivors)
    }

    ghost predicate Valid()
      reads this, students, enrollments
    {
      StateOk(base, Now())
    }

    constructor (base: Start, locale: Locale)
      requires StartOk(base)
      ensures Valid() && this.base == base && this.locale == locale
      ensures Now() == State(base.first, base.second, 0, {}, [])
    {
      this.base, this.locale := base, locale;
      students := new RowTable(base.first);
      enrollments := new RowTable(base.second);
      nextId, logs, survivors := 0, {}, [];
    }

    /** Without a log id there were findings, or the transaction was undone. */
    method UploadFile(file: seq<FileRow>, cat: Catalog, aborts: bool) returns (logId: Option<nat>)
      requires Valid()
      modifies this, students, enrollments
      ensures Valid()
      ensures Now() == StepBoth(old(Now()), LoadFile(file, cat, aborts), locale)
      ensures logId == if Loads(old(Now()), file, cat, aborts, locale) then Some(old(nextId)) else None
    {
      hide StateOk, Upload, BatchOf, EmailsHold, Validated, StudentItems, EnrollmentItems, KeysApart, Unmentioned;
      LoadKeepsOk(base, Now(), file, cat, aborts, locale);
      if !Validated(file, cat, locale) {
        return None;
      }
      var id := nextId;
      if aborts || !EmailsHold(students.rows, id, BatchOf(StudentItems(file, cat, locale))) {
        nextId := id + 1;
        return None;
      }
      FreshId(base, Now());
      ValidatedApart(file, cat, locale);
      nextId, logs := id + 1, logs + {id};
      var newStudents, oldStudents := students.Load(StudentItems(file, cat, locale), id, STUDENTS);
      var newEnrollments, oldEnrollments := enrollments.Load(EnrollmentItems(file, cat, locale), id, ENROLLMENTS);
      survivors := survivors + [FileBatch(id, file, cat, locale)];
      logId := Some(id);
    }

    method RollbackUpload(id: nat, blocked: bool) returns (done: Outcome<string>)
      requires Valid()
      modifies this, students, enrollments
      ensures Valid()
      ensures Now() == StepBoth(old(Now()), RollBack(id, blocked), locale)
      ensures done == Refused ==> Now() == old(Now())
      ensures done == Refused <==> id !in logs || blocked || !Accepts(old(Now()), id) ||
                                   !EmailsApart(Restored(old(students.rows), id))
    {
      hide StateOk, Rollback, Restored, EmailsApart, Newest, ForeignEnrollment;
      RollBackKeepsOk(base, Now(), id, blocked, locale);
      if id !in logs || blocked {
        return Refused;
      }
      var studentsNewer := students.BlockedByNewer(id);
      var enrollmentsNewer := enrollments.BlockedByNewer(id);
      if studentsNewer || enrollmentsNewer || ForeignEnrollment(students.rows, enrollments.rows, id) {
        return Refused;
      }
      if !EmailsApart(Restored(students.rows, id)) {
        return Refused;
      }
      enrollments.Undo(id);
      students.Undo(id);
      survivors := WithoutBoth(survivors, id);
      done := Ok("ok");
    }
  }

  lemma FreshId(base: Start, db: State)
    requires StateOk(base, db)
    ensures Unmentioned(db.students, db.nextId) && Unmentioned(db.enrollments, db.nextId)
  {
    forall i | 0 <= i < |db.survivors| ensures db.survivors[i].logId != db.nextId {
      assert db.survivors[i] in db.survivors;
    }
    ReplayedFresh(base, db.survivors, Pair(db.students, db.enrollments), db.nextId, STUDENTS, ENROLLMENTS);
  }
}
