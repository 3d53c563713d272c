/**
 * What one file row of an upload of students leaves in the two tables, from the texts of its cells, and
 * what validation demands of a file.
 */
module StudentColumns {
  import opened Wrappers
  import opened SqlText
  import opened UndoTable
  import opened UndoReplay
  import opened UndoLoad
  import opened TwoTables
  import opened Students

  /** The texts of a row. */
  ghost predicate Reads(r: FileRow, code: string, last: string, first: string, program: string, campus: string,
                        modality: string, locale: Locale)
  {
    && Says(r.studentCode, code) && Says(r.lastName, last) && Says(r.firstName, first)
    && Says(r.programCode, program) && Says(r.campusCode, campus) && Modality(r.modality, locale, modality)
  }

  /** The joins find what the texts name, and the program has an offering in the period. */
  ghost predicate Known(cat: Catalog, program: string, campus: string, modality: string) {
    && program in cat.programs && campus in cat.campuses && modality in cat.modalities
    && cat.programs[program] in cat.offerings
  }

  lemma ReadsExact(r: FileRow, code: string, last: string, first: string, program: string, campus: string,
                   modality: string, locale: Locale)
    requires Reads(r, code, last, first, program, campus, modality, locale)
    ensures Blank(r.studentCode) == Some(code) && Blank(r.programCode) == Some(program)
    ensures Blank(r.campusCode) == Some(campus) && ModalityCode(r.modality, locale) == Some(modality)
    ensures TextCell(r.lastName) == Text(last) && TextCell(r.firstName) == Text(first)
  {
    hide Blank, ModalityCode, Modality, Core, Trim;
    BlankExact(r.studentCode, code);
    BlankExact(r.programCode, program);
    BlankExact(r.campusCode, campus);
    ModalityExact(r.modality, locale, modality);
    TrimExact(r.lastName.value, last);
    TrimExact(r.firstName.value, first);
  }

  /** The columns of a student and of an enrollment. */
  ghost predicate IsStudent(columns: map<string, Cell>, code: string, last: string, first: string, program: int,
                            modality: int)
  {
    && columns.Keys == {"email", "program_id", "graduation_modality_type_id", "first_name", "last_name"}
    && columns["email"] == Text("U" + code + "@upc.edu.pe") && columns["program_id"] == Id(program)
    && columns["graduation_modality_type_id"] == Id(modality)
    && columns["first_name"] == Text(first) && columns["last_name"] == Text(last)
  }

  ghost predicate IsEnrollment(columns: map<string, Cell>, campus: int, modality: int) {
    && columns.Keys == {"campus_id", "enrollement_modality_type_id"}
    && columns["campus_id"] == Id(campus) && columns["enrollement_modality_type_id"] == Id(modality)
  }

  lemma ItemColumns(r: FileRow, cat: Catalog, locale: Locale, code: string, last: string, first: string,
                    program: string, campus: string, modality: string)
    requires Reads(r, code, last, first, program, campus, modality, locale) && Known(cat, program, campus, modality)
    ensures var s, e := StudentItem(r, cat, locale), EnrollmentItem(r, cat, locale);
      && s.Some? && s.value.0 == code && s.value.1.onInsert == s.value.1.onUpdate
      && IsStudent(s.value.1.onInsert, code, last, first, cat.programs[program], cat.modalities[modality])
      && e.Some? && e.value.0 == (code, cat.offerings[cat.programs[program]])
      && e.value.1.onInsert == e.value.1.onUpdate
      && IsEnrollment(e.value.1.onInsert, cat.campuses[campus], cat.modalities[modality])
  {
    hide Blank, ModalityCode, TextCell, Reads;
    ReadsExact(r, code, last, first, program, campus, modality, locale);
  }

  lemma Overwritten(old_: map<string, Cell>, written: map<string, Cell>)
    requires old_.Keys == written.Keys
    ensures old_ + written == written
  {}

  /**
   * After an upload, a row of the file whose joins succeed has its student in the table under its code, with
   * the names and the ids that its cells name, inserted or updated alike, and its enrollment likewise.
   */
  lemma StudentStored(base: Start, db: State, file: seq<FileRow>, cat: Catalog, locale: Locale, i: nat, code: string,
                      last: string, first: string, program: string, campus: string, modality: string)
    requires StateOk(base, db) && Loads(db, file, cat, false, locale) && i < |file|
    requires Reads(file[i], code, last, first, program, campus, modality, locale)
    requires Known(cat, program, campus, modality)
    ensures var after := StepBoth(db, LoadFile(file, cat, false), locale);
            var key := (code, cat.offerings[cat.programs[program]]);
      && code in after.students && key in after.enrollments
      && IsStudent(after.students[code].columns, code, last, first, cat.programs[program], cat.modalities[modality])
      && IsEnrollment(after.enrollments[key].columns, cat.campuses[campus], cat.modalities[modality])
      && after.students[code].uploadLogId ==
         (if code in db.students then db.students[code].uploadLogId else Some(db.nextId))
      && after.enrollments[key].uploadLogId ==
         (if key in db.enrollments then db.enrollments[key].uploadLogId else Some(db.nextId))
  {
    hide Upload, BatchOf, Validated, EmailsHold, Reads, IsStudent, IsEnrollment, StateOk, StudentItem,
      EnrollmentItem, TableOk, STUDENTS, ENROLLMENTS;
    TablesOk(base, db);
    ItemColumns(file[i], cat, locale, code, last, first, program, campus, modality);
    ValidatedApart(file, cat, locale);
    ItemStored(db.students, db.nextId, StudentItems(file, cat, locale), i, STUDENTS);
    ItemStored(db.enrollments, db.nextId, EnrollmentItems(file, cat, locale), i, ENROLLMENTS);
    var s, e := StudentItem(file[i], cat, locale).value, EnrollmentItem(file[i], cat, locale).value;
    if code in db.students {
      StudentOverwritten(db.students[code].columns, s.1.onUpdate, code, last, first, cat.programs[program],
                         cat.modalities[modality]);
    }
    if e.0 in db.enrollments {
      EnrollmentOverwritten(db.enrollments[e.0].columns, e.1.onUpdate, cat.campuses[campus], cat.modalities[modality]);
    }
  }

  lemma StudentOverwritten(old_: map<string, Cell>, written: map<string, Cell>, code: string, last: string,
                           first: string, program: int, modality: int)
    requires old_.Keys == STUDENT_COLUMNS && IsStudent(written, code, last, first, program, modality)
    ensures IsStudent(old_ + written, code, last, first, program, modality)
  {
    Overwritten(old_, written);
  }

  lemma EnrollmentOverwritten(old_: map<string, Cell>, written: map<string, Cell>, campus: int, modality: int)
    requires old_.Keys == ENROLLMENT_COLUMNS && IsEnrollment(written, campus, modality)
    ensures IsEnrollment(old_ + written, campus, modality)
  {
    Overwritten(old_, written);
  }

  lemma TablesOk(base: Start, db: State)
    requires StateOk(base, db)
    ensures forall code :: code in db.students ==> db.students[code].columns.Keys == STUDENT_COLUMNS
    ensures forall key :: key in db.enrollments ==> db.enrollments[key].columns.Keys == ENROLLMENT_COLUMNS
  {
    ReplayOk(base.first, First(db.survivors), STUDENTS);
    ReplayOk(base.second, Second(db.survivors), ENROLLMENTS);
  }

  /** Students that no row of the file names, and their enrollments, are left alone. */
  lemma StudentElsewhere(db: State, file: seq<FileRow>, cat: Catalog, locale: Locale, code: string, offering: int)
    requires Loads(db, file, cat, false, locale)
    requires forall i :: 0 <= i < |file| ==> !Says(file[i].studentCode, code)
    ensures var after := StepBoth(db, LoadFile(file, cat, false), locale);
            var key := (code, offering);
      && (code in after.students <==> code in db.students)
      && (code in db.students ==> after.students[code] == db.students[code])
      && (key in after.enrollments <==> key in db.enrollments)
      && (key in db.enrollments ==> after.enrollments[key] == db.enrollments[key])
  {
    hide Upload, BatchOf, Says, Blank, Validated, EmailsHold;
    var ss, es := StudentItems(file, cat, locale), EnrollmentItems(file, cat, locale);
    forall i | 0 <= i < |file|
      ensures ss[i].Some? ==> ss[i].value.0 != code
      ensures es[i].Some? ==> es[i].value.0.0 != code
    {
      BlankExact(file[i].studentCode, code);
    }
    NoItemStored(db.students, db.nextId, ss, code, STUDENTS);
    NoItemStored(db.enrollments, db.nextId, es, (code, offering), ENROLLMENTS);
  }

  // ---------------------------------------------------------------- what validation demands

  /** The cell says a program of the catalog that has an offering in the period. */
  ghost predicate NamesOffered(x: Option<string>, cat: Catalog) {
    exists c :: Says(x, c) && c in cat.programs && cat.programs[c] in cat.offerings
  }

  ghost predicate RowFits(r: FileRow, cat: Catalog, locale: Locale) {
    && SaysUpTo(r.studentCode, 50) && SaysUpTo(r.lastName, 255) && SaysUpTo(r.firstName, 255)
    && NamesOffered(r.programCode, cat) && Names(r.campusCode, cat.campuses) && SaysModality(r.modality, locale)
  }

  lemma NamesOfferedExact(x: Option<string>, cat: Catalog)
    ensures Find(cat.programs, Blank(x)).Some? && Find(cat.programs, Blank(x)).value in cat.offerings <==>
            NamesOffered(x, cat)
  {
    hide Blank, Says;
    forall c ensures Blank(x) == Some(c) <==> Says(x, c) {
      BlankExact(x, c);
    }
  }

  lemma RowFitsExact(r: FileRow, cat: Catalog, locale: Locale)
    ensures RowValid(r, cat, locale) <==> RowFits(r, cat, locale)
  {
    hide Blank, SaysUpTo, ModalityCode, SaysModality, Names, NamesOffered, Find;
    SaysUpToExact(r.studentCode, 50);
    SaysUpToExact(r.lastName, 255);
    SaysUpToExact(r.firstName, 255);
    NamesOfferedExact(r.programCode, cat);
    NamesExact(r.campusCode, cat.campuses);
    SaysModalityExact(r.modality, locale);
  }

  /** A file is valid exactly when its rows fit one by one and no two of them say one student. */
  lemma ValidatedExactly(file: seq<FileRow>, cat: Catalog, locale: Locale)
    ensures Validated(file, cat, locale) <==>
            (forall i :: 0 <= i < |file| ==> RowFits(file[i], cat, locale)) &&
            (forall i, j :: 0 <= i < j < |file| ==> !SayAlike(file[i].studentCode, file[j].studentCode, locale))
  {
    hide RowValid, RowFits, SayAlike, SameFolded;
    forall i | 0 <= i < |file| ensures RowValid(file[i], cat, locale) <==> RowFits(file[i], cat, locale) {
      RowFitsExact(file[i], cat, locale);
    }
    forall i, j | 0 <= i < j < |file|
      ensures SameFolded(file[i].studentCode, file[j].studentCode, locale) <==>
              SayAlike(file[i].studentCode, file[j].studentCode, locale)
    {
      SayAlikeExact(file[i].studentCode, file[j].studentCode, locale);
    }
  }

  /** A file that does not fit, and an upload that fails, leave both tables as they were. */
  lemma RefusedUnchanged(db: State, file: seq<FileRow>, cat: Catalog, aborts: bool, locale: Locale)
    requires
      || aborts || (exists i :: 0 <= i < |file| && !RowFits(file[i], cat, locale))
      || (exists i, j :: 0 <= i < j < |file| && SayAlike(file[i].studentCode, file[j].studentCode, locale))
    ensures var after := StepBoth(db, LoadFile(file, cat, aborts), locale);
            after.students == db.students && after.enrollments == db.enrollments && after.survivors == db.survivors
  {
    hide Validated, RowFits, SayAlike, AfterLoad;
    ValidatedExactly(file, cat, locale);
  }
}
