/**
 * audit.fn_upload_sections: validation of the file, the joins against the catalogs, and the insert
 * and update statements over academic.course_sections.
 */
module Sections {
  import opened Wrappers
  import opened SqlText
  import opened UndoTable
  import opened UndoReplay
  import opened UndoLoad
  import opened UndoStore

  /** Catalogs by code. Codes are unique, so a join against one finds at most one row. */
  datatype Catalog = Catalog(courses: map<string, int>, campuses: map<string, int>,
                             professors: map<string, int>, modalities: map<string, int>)

  datatype FileRow = FileRow(sectionCode: Option<string>, courseCode: Option<string>,
                             campusCode: Option<string>, professorCode: Option<string>,
                             modality: Option<string>)

  /** Column cells: ids, or NULL. */
  type Cell = Option<int>

  const RECORDED := {"course_id", "academic_period_id", "campus_id", "professor_id", "section_modality_type_id"}
  const SECTIONS := Schema(RECORDED + {"schedule"}, RECORDED)

  // ---------------------------------------------------------------- validation

  predicate DuplicateCode(file: seq<FileRow>, r: FileRow, locale: Locale) {
    Blank(r.sectionCode).Some? &&
    exists i, j :: 0 <= i < j < |file| &&
      SameCode(file[i], r, locale) && SameCode(file[j], r, locale)
  }

  /** lower(trim(x)) agrees for two rows whose section code is not blank. */
  predicate SameCode(a: FileRow, b: FileRow, locale: Locale) {
    SameFolded(a.sectionCode, b.sectionCode, locale)
  }

  function RowErrors(r: FileRow, cat: Catalog, locale: Locale): seq<string> {
    (match Blank(r.sectionCode)
     case None => ["sectionCodeEmpty"]
     case Some(s) => if |s| > 50 then ["sectionCodeTooLong"] else []) +
    (match Blank(r.courseCode)
     case None => ["courseCodeEmpty"]
     case Some(c) => if c !in cat.courses then ["courseNotFound"] else []) +
    (if Find(cat.campuses, Blank(r.campusCode)) == None then ["campusNotFound"] else []) +
    (if Find(cat.professors, Blank(r.professorCode)) == None then ["professorNotFound"] else []) +
    (if ModalityCode(r.modality, locale) == None then ["sectionModalityInvalid"] else [])
  }

  ghost predicate Validated(file: seq<FileRow>, cat: Catalog, locale: Locale) {
    && (forall i :: 0 <= i < |file| ==> RowErrors(file[i], cat, locale) == [])
    && (forall i, j :: 0 <= i < j < |file| ==> !SameCode(file[i], file[j], locale))
  }

  /** An error reported for the row at an index is one that this row has. */
  ghost predicate Justified(file: seq<FileRow>, cat: Catalog, locale: Locale, e: (int, string)) {
    && 0 <= e.0 < |file|
    && (e.1 in RowErrors(file[e.0], cat, locale) ||
        (e.1 == "duplicateCodeInFile" && DuplicateCode(file, file[e.0], locale)))
  }

  lemma NoDuplicates(file: seq<FileRow>, locale: Locale)
    ensures (forall k :: 0 <= k < |file| ==> !DuplicateCode(file, file[k], locale)) <==>
            (forall i, j :: 0 <= i < j < |file| ==> !SameCode(file[i], file[j], locale))
  {
    if i, j :| 0 <= i < j < |file| && SameCode(file[i], file[j], locale) {
      assert SameCode(file[i], file[i], locale) && SameCode(file[j], file[i], locale);
      assert DuplicateCode(file, file[i], locale);
    }
    if k :| 0 <= k < |file| && DuplicateCode(file, file[k], locale) {
      var i, j :| 0 <= i < j < |file| && SameCode(file[i], file[k], locale) && SameCode(file[j], file[k], locale);
      assert SameCode(file[i], file[j], locale);
    }
  }

  /** The first loop: rows whose section code occurs twice. */
  method FindDuplicates(file: seq<FileRow>, cat: Catalog, locale: Locale) returns (errors: seq<(int, string)>)
    ensures errors == [] <==> forall k :: 0 <= k < |file| ==> !DuplicateCode(file, file[k], locale)
    ensures forall e :: e in errors ==> Justified(file, cat, locale, e)
  {
    hide DuplicateCode, RowErrors;
    errors := [];
    for n := 0 to |file|
      invariant errors == [] <==> forall k :: 0 <= k < n ==> !DuplicateCode(file, file[k], locale)
      invariant forall e :: e in errors ==> Justified(file, cat, locale, e)
    {
      if DuplicateCode(file, file[n], locale) {
        errors := errors + [(n, "duplicateCodeInFile")];
      }
    }
  }

  /** The two validation loops; an error is the index of a row and an error code. */
  method Validate(file: seq<FileRow>, cat: Catalog, locale: Locale) returns (errors: seq<(int, string)>)
    ensures errors == [] <==> Validated(file, cat, locale)
    ensures forall e :: e in errors ==> Justified(file, cat, locale, e)
  {
    hide DuplicateCode, SameCode, RowErrors;
    errors := FindDuplicates(file, cat, locale);
    NoDuplicates(file, locale);
    ghost var clean := errors == [];
    for n := 0 to |file|
      invariant errors == [] <==> clean && forall k :: 0 <= k < n ==> RowErrors(file[k], cat, locale) == []
      invariant forall e :: e in errors ==> Justified(file, cat, locale, e)
    {
      var found := RowErrors(file[n], cat, locale);
      errors := errors + seq(|found|, i requires 0 <= i < |found| => (n, found[i]));
    }
  }

  // ---------------------------------------------------------------- joins

  /** The SELECT ... JOIN of one file row: None when some join finds nothing and the row is dropped. */
  function Resolve(r: FileRow, period: int, cat: Catalog, locale: Locale): Option<(string, Edit<Cell>)> {
    var course := Find(cat.courses, Blank(r.courseCode));
    var campus := Find(cat.campuses, Blank(r.campusCode));
    var professor := Find(cat.professors, Blank(r.professorCode));
    var modality := Find(cat.modalities, ModalityCode(r.modality, locale));
    if Blank(r.sectionCode) == None || course == None || campus == None || professor == None || modality == None
    then None
    else
      var written := map["course_id" := course, "academic_period_id" := Some(period), "campus_id" := campus,
                         "professor_id" := professor, "section_modality_type_id" := modality];
      Some((Blank(r.sectionCode).value, Edit(written["schedule" := None], written)))
  }

  /** The joins of the whole file. */
  function Items(file: seq<FileRow>, period: int, cat: Catalog, locale: Locale): (items: seq<Item<string, Cell>>)
    ensures |items| == |file|
    ensures forall i :: 0 <= i < |file| ==> items[i] == Resolve(file[i], period, cat, locale)
  {
    seq(|file|, i requires 0 <= i < |file| => Resolve(file[i], period, cat, locale))
  }

  /** The type behind the modality letter is in the catalog; validation does not look for it. */
  predicate ModalityPresent(r: FileRow, cat: Catalog, locale: Locale) {
    Find(cat.modalities, ModalityCode(r.modality, locale)).Some?
  }

  /** An undo entry saves everything that the UPDATE writes, so every section batch can be undone. */
  lemma SectionsRecord(r: FileRow, period: int, cat: Catalog, locale: Locale)
    ensures Resolve(r, period, cat, locale).Some? ==>
              Recording(Resolve(r, period, cat, locale).value.1, SECTIONS)
  {}

  lemma ValidatedJoins(r: FileRow, period: int, cat: Catalog, locale: Locale)
    requires RowErrors(r, cat, locale) == []
    ensures Resolve(r, period, cat, locale).Some? <==> ModalityPresent(r, cat, locale)
    ensures Resolve(r, period, cat, locale).Some? ==>
              Blank(r.sectionCode) == Some(Resolve(r, period, cat, locale).value.0)
  {}

  lemma ValidatedApart(file: seq<FileRow>, period: int, cat: Catalog, locale: Locale)
    requires Validated(file, cat, locale)
    ensures KeysApart(Items(file, period, cat, locale))
  {
    var items := Items(file, period, cat, locale);
    forall i, j | 0 <= i < j < |items| && items[i].Some? && items[j].Some?
      ensures items[i].value.0 != items[j].value.0
    {
      assert RowErrors(file[i], cat, locale) == [] && RowErrors(file[j], cat, locale) == [];
      ValidatedJoins(file[i], period, cat, locale);
      ValidatedJoins(file[j], period, cat, locale);
      assert !SameCode(file[i], file[j], locale);
    }
  }

  lemma SectionsBatchOk(items: seq<Item<string, Cell>>)
    requires forall i :: 0 <= i < |items| && items[i].Some? ==> Recording(items[i].value.1, SECTIONS)
    ensures BatchOk(BatchOf(items), SECTIONS)
  {
    if items != [] {
      SectionsBatchOk(items[..|items| - 1]);
    }
  }

  /**
   * fn_upload_sections: a file with errors changes nothing; otherwise inserts and updates add up to
   * the reported number of rows exactly when every row's modality type is in the catalog.
   */
  method UploadSections(sections: Store<string, Cell>, file: seq<FileRow>, period: int, cat: Catalog, locale: Locale)
    returns (errors: seq<(int, string)>, logId: Option<nat>, inserted: nat, updated: nat)
    requires sections.Valid() && sections.schema == SECTIONS
    modifies sections, sections.table
    ensures sections.Valid()
    ensures errors == [] <==> Validated(file, cat, locale)
    ensures sections.State() == Step(old(sections.State()),
              Event.Load(BatchOf(Items(file, period, cat, locale)), errors != []), SECTIONS)
    ensures logId == if errors == [] then Some(old(sections.nextId)) else None
    ensures inserted == |sections.table.rows| - |old(sections.table.rows)|
    ensures errors == [] ==>
              (inserted + updated == |file| <==>
               forall i :: 0 <= i < |file| ==> ModalityPresent(file[i], cat, locale))
  {
    hide Resolve, RowErrors, SECTIONS, Upload, Step;
    errors := Validate(file, cat, locale);
    var items := Items(file, period, cat, locale);
    forall i | 0 <= i < |file| && items[i].Some? ensures Recording(items[i].value.1, SECTIONS) {
      SectionsRecord(file[i], period, cat, locale);
    }
    SectionsBatchOk(items);
    if errors == [] {
      ValidatedApart(file, period, cat, locale);
      AllJoined(items);
      forall i | 0 <= i < |file| ensures items[i].Some? <==> ModalityPresent(file[i], cat, locale) {
        assert RowErrors(file[i], cat, locale) == [];
        ValidatedJoins(file[i], period, cat, locale);
      }
    }
    logId, inserted, updated := sections.Load(items, errors != []);
  }

  // ---------------------------------------------------------------- what a file row leaves behind

  /** The texts of a row, and what they stand for in the catalogs. */
  ghost predicate Reads(r: FileRow, code: string, course: string, campus: string, professor: string, modality: string,
                        locale: Locale)
  {
    && Says(r.sectionCode, code) && Says(r.courseCode, course) && Says(r.campusCode, campus)
    && Says(r.professorCode, professor) && Modality(r.modality, locale, modality)
  }

  ghost predicate Known(cat: Catalog, course: string, campus: string, professor: string, modality: string) {
    course in cat.courses && campus in cat.campuses && professor in cat.professors && modality in cat.modalities
  }

  lemma ReadsExact(r: FileRow, code: string, course: string, campus: string, professor: string, modality: string,
                   locale: Locale)
    requires Reads(r, code, course, campus, professor, modality, locale)
    ensures Blank(r.sectionCode) == Some(code) && Blank(r.courseCode) == Some(course)
    ensures Blank(r.campusCode) == Some(campus) && Blank(r.professorCode) == Some(professor)
    ensures ModalityCode(r.modality, locale) == Some(modality)
  {
    hide Blank, Says, Modality, ModalityCode;
    BlankExact(r.sectionCode, code);
    BlankExact(r.courseCode, course);
    BlankExact(r.campusCode, campus);
    BlankExact(r.professorCode, professor);
    ModalityExact(r.modality, locale, modality);
  }

  /** The columns that a loaded row gives its section, whether it is inserted or updated. */
  ghost predicate Carries(row: Row<Cell>, period: int, course: int, campus: int, professor: int, modality: int) {
    && row.columns.Keys == {"course_id", "academic_period_id", "campus_id", "professor_id",
                            "section_modality_type_id", "schedule"}
    && row.columns["course_id"] == Some(course) && row.columns["academic_period_id"] == Some(period)
    && row.columns["campus_id"] == Some(campus) && row.columns["professor_id"] == Some(professor)
    && row.columns["section_modality_type_id"] == Some(modality)
  }

  lemma ColumnsCarry(r: FileRow, period: int, cat: Catalog, locale: Locale, old_: Row<Cell>,
                     code: string, course: string, campus: string, professor: string, modality: string)
    requires Reads(r, code, course, campus, professor, modality, locale)
    requires Known(cat, course, campus, professor, modality) && RowOk(old_, SECTIONS)
    ensures Resolve(r, period, cat, locale).Some? && Resolve(r, period, cat, locale).value.0 == code
    ensures var e := Resolve(r, period, cat, locale).value.1;
            var inserted := Row(None, e.onInsert, old_.extra);
            var updated := Row(None, old_.columns + e.onUpdate, old_.extra);
      && Carries(inserted, period, cat.courses[course], cat.campuses[campus], cat.professors[professor],
                 cat.modalities[modality])
      && Carries(updated, period, cat.courses[course], cat.campuses[campus], cat.professors[professor],
                 cat.modalities[modality])
      && inserted.columns["schedule"] == None && updated.columns["schedule"] == old_.columns["schedule"]
  {
    hide Blank, ModalityCode, Reads;
    ReadsExact(r, code, course, campus, professor, modality, locale);
  }

  /**
   * After an upload a row of the file whose joins succeed has its section in the table, with the course,
   * campus, professor and modality that its cells name; a new one has no schedule, an old one keeps its own.
   */
  lemma SectionStored(t: Table<string, Cell>, id: nat, file: seq<FileRow>, period: int, cat: Catalog, locale: Locale,
                      i: nat, code: string, course: string, campus: string, professor: string, modality: string)
    requires TableOk(t, SECTIONS) && Validated(file, cat, locale) && i < |file|
    requires Reads(file[i], code, course, campus, professor, modality, locale)
    requires Known(cat, course, campus, professor, modality)
    ensures var after := Upload(t, id, BatchOf(Items(file, period, cat, locale)), SECTIONS);
      && code in after
      && Carries(after[code], period, cat.courses[course], cat.campuses[campus], cat.professors[professor],
                 cat.modalities[modality])
      && after[code].uploadLogId == (if code in t then t[code].uploadLogId else Some(id))
      && after[code].columns["schedule"] == (if code in t then t[code].columns["schedule"] else None)
  {
    hide Upload, BatchOf, Validated, Reads, Known, Resolve, RowOk;
    var old_ := if code in t then t[code] else AnySection();
    AnySectionOk();
    ColumnsCarry(file[i], period, cat, locale, old_, code, course, campus, professor, modality);
    ValidatedApart(file, period, cat, locale);
    ItemStored(t, id, Items(file, period, cat, locale), i, SECTIONS);
  }

  function AnySection(): Row<Cell> {
    Row(None, map c | c in SECTIONS.columns :: None, Extra(map[], None))
  }

  lemma AnySectionOk()
    ensures RowOk(AnySection(), SECTIONS)
  {}

  /** A section that no row of the file names is left alone. */
  lemma SectionElsewhere(t: Table<string, Cell>, id: nat, file: seq<FileRow>, period: int, cat: Catalog, locale: Locale,
                         code: string)
    requires forall i :: 0 <= i < |file| ==> !Says(file[i].sectionCode, code)
    ensures var after := Upload(t, id, BatchOf(Items(file, period, cat, locale)), SECTIONS);
            (code in after <==> code in t) && (code in t ==> after[code] == t[code])
  {
    hide Upload, BatchOf, Says, Blank;
    var items := Items(file, period, cat, locale);
    forall i | 0 <= i < |items| && items[i].Some? ensures items[i].value.0 != code {
      BlankExact(file[i].sectionCode, code);
    }
    NoItemStored(t, id, items, code, SECTIONS);
  }

  // ---------------------------------------------------------------- what validation demands

  /** What each row needs on its own. */
  ghost predicate RowFits(r: FileRow, cat: Catalog, locale: Locale) {
    && SaysUpTo(r.sectionCode, 50)
    && Names(r.courseCode, cat.courses) && Names(r.campusCode, cat.campuses) && Names(r.professorCode, cat.professors)
    && SaysModality(r.modality, locale)
  }

  lemma RowFitsExact(r: FileRow, cat: Catalog, locale: Locale)
    ensures RowErrors(r, cat, locale) == [] <==> RowFits(r, cat, locale)
  {
    hide Blank, SaysUpTo, ModalityCode, SaysModality, Names, Choose;
    RowErrorsSplit(r, cat, locale);
    SaysUpToExact(r.sectionCode, 50);
    CourseErrors(r, cat);
    NamesExact(r.courseCode, cat.courses);
    NamesExact(r.campusCode, cat.campuses);
    NamesExact(r.professorCode, cat.professors);
    SaysModalityExact(r.modality, locale);
  }

  lemma CodesDiffer()
    ensures "sectionCodeEmpty" != "courseCodeEmpty" && "courseNotFound" != "campusNotFound"
    ensures |"sectionCodeEmpty"| == 16 && |"sectionCodeTooLong"| == 18 && |"courseCodeEmpty"| == 15
    ensures |"courseNotFound"| == 14 && |"campusNotFound"| == 14 && |"professorNotFound"| == 17
    ensures |"sectionModalityInvalid"| == 22
  {
    assert "courseNotFound"[1] != "campusNotFound"[1];
  }

  function Choose<T>(first: bool, a: T, second: bool, b: T): seq<T> {
    if first then [a] else if second then [b] else []
  }

  lemma InChoice<T>(first: bool, a: T, second: bool, b: T, x: T)
    requires a != b
    ensures x in Choose(first, a, second, b) <==> (first && x == a) || (!first && second && x == b)
  {}

  lemma CodeErrors(r: FileRow)
    ensures Blank(r.sectionCode) == None <==> SaysNothing(r.sectionCode)
    ensures Blank(r.sectionCode).Some? && |Blank(r.sectionCode).value| > 50 <==>
            exists c :: Says(r.sectionCode, c) && |c| > 50
  {
    hide Blank, Says, SaysNothing;
    BlankExact(r.sectionCode, "");
    forall c ensures Blank(r.sectionCode) == Some(c) <==> Says(r.sectionCode, c) {
      BlankExact(r.sectionCode, c);
    }
    if Blank(r.sectionCode).Some? {
      assert Says(r.sectionCode, Blank(r.sectionCode).value);
    }
  }

  lemma CourseErrors(r: FileRow, cat: Catalog)
    ensures Blank(r.courseCode) == None <==> SaysNothing(r.courseCode)
    ensures Blank(r.courseCode).Some? && Blank(r.courseCode).value !in cat.courses <==>
            exists c :: Says(r.courseCode, c) && c !in cat.courses
  {
    hide Blank, Says, SaysNothing;
    BlankExact(r.courseCode, "");
    forall c ensures Blank(r.courseCode) == Some(c) <==> Says(r.courseCode, c) {
      BlankExact(r.courseCode, c);
    }
    if Blank(r.courseCode).Some? {
      assert Says(r.courseCode, Blank(r.courseCode).value);
    }
  }

  /** The five groups of tests, of which each reports one code at most. */
  lemma RowErrorsSplit(r: FileRow, cat: Catalog, locale: Locale)
    ensures RowErrors(r, cat, locale) ==
            Choose(Blank(r.sectionCode) == None, "sectionCodeEmpty",
                   Blank(r.sectionCode).Some? && |Blank(r.sectionCode).value| > 50, "sectionCodeTooLong") +
            Choose(Blank(r.courseCode) == None, "courseCodeEmpty",
                   Blank(r.courseCode).Some? && Blank(r.courseCode).value !in cat.courses, "courseNotFound") +
            Choose(Find(cat.campuses, Blank(r.campusCode)) == None, "campusNotFound", false, "") +
            Choose(Find(cat.professors, Blank(r.professorCode)) == None, "professorNotFound", false, "") +
            Choose(ModalityCode(r.modality, locale) == None, "sectionModalityInvalid", false, "")
  {
    hide Blank, ModalityCode;
  }

  lemma OneCode(r: FileRow, cat: Catalog, locale: Locale, x: string)
    ensures x in RowErrors(r, cat, locale) <==>
            || (x == "sectionCodeEmpty" && Blank(r.sectionCode) == None)
            || (x == "sectionCodeTooLong" && Blank(r.sectionCode).Some? && |Blank(r.sectionCode).value| > 50)
            || (x == "courseCodeEmpty" && Blank(r.courseCode) == None)
            || (x == "courseNotFound" && Blank(r.courseCode).Some? && Blank(r.courseCode).value !in cat.courses)
            || (x == "campusNotFound" && Find(cat.campuses, Blank(r.campusCode)) == None)
            || (x == "professorNotFound" && Find(cat.professors, Blank(r.professorCode)) == None)
            || (x == "sectionModalityInvalid" && ModalityCode(r.modality, locale) == None)
  {
    CodesDiffer();
    hide Blank, ModalityCode, RowErrors, Choose, Find;
    RowErrorsSplit(r, cat, locale);
    InChoice(Blank(r.sectionCode) == None, "sectionCodeEmpty",
             Blank(r.sectionCode).Some? && |Blank(r.sectionCode).value| > 50, "sectionCodeTooLong", x);
    InChoice(Blank(r.courseCode) == None, "courseCodeEmpty",
             Blank(r.courseCode).Some? && Blank(r.courseCode).value !in cat.courses, "courseNotFound", x);
    InChoice(Find(cat.campuses, Blank(r.campusCode)) == None, "campusNotFound", false, "", x);
    InChoice(Find(cat.professors, Blank(r.professorCode)) == None, "professorNotFound", false, "", x);
    InChoice(ModalityCode(r.modality, locale) == None, "sectionModalityInvalid", false, "", x);
  }

  /** Each error code, and when a row gets it. */
  lemma RowErrorsMean(r: FileRow, cat: Catalog, locale: Locale)
    ensures var errors := RowErrors(r, cat, locale);
      && ("sectionCodeEmpty" in errors <==> SaysNothing(r.sectionCode))
      && ("sectionCodeTooLong" in errors <==> exists c :: Says(r.sectionCode, c) && |c| > 50)
      && ("courseCodeEmpty" in errors <==> SaysNothing(r.courseCode))
      && ("courseNotFound" in errors <==> exists c :: Says(r.courseCode, c) && c !in cat.courses)
      && ("campusNotFound" in errors <==> !Names(r.campusCode, cat.campuses))
      && ("professorNotFound" in errors <==> !Names(r.professorCode, cat.professors))
      && ("sectionModalityInvalid" in errors <==> !SaysModality(r.modality, locale))
  {
    CodesDiffer();
    hide Blank, Says, ModalityCode, SaysModality, Names, SaysNothing, RowErrors, Find;
    CodeErrors(r);
    CourseErrors(r, cat);
    NamesExact(r.campusCode, cat.campuses);
    NamesExact(r.professorCode, cat.professors);
    SaysModalityExact(r.modality, locale);
    OneCode(r, cat, locale, "sectionCodeEmpty");
    OneCode(r, cat, locale, "sectionCodeTooLong");
    OneCode(r, cat, locale, "courseCodeEmpty");
    OneCode(r, cat, locale, "courseNotFound");
    OneCode(r, cat, locale, "campusNotFound");
    OneCode(r, cat, locale, "professorNotFound");
    OneCode(r, cat, locale, "sectionModalityInvalid");
  }

  /** A file is valid exactly when its rows fit one by one and no two of them say one section. */
  lemma ValidatedExactly(file: seq<FileRow>, cat: Catalog, locale: Locale)
    ensures Validated(file, cat, locale) <==>
            (forall i :: 0 <= i < |file| ==> RowFits(file[i], cat, locale)) &&
            (forall i, j :: 0 <= i < j < |file| ==> !SayAlike(file[i].sectionCode, file[j].sectionCode, locale))
  {
    hide RowErrors, RowFits, SayAlike, SameFolded;
    forall i | 0 <= i < |file| ensures RowErrors(file[i], cat, locale) == [] <==> RowFits(file[i], cat, locale) {
      RowFitsExact(file[i], cat, locale);
    }
    forall i, j | 0 <= i < j < |file|
      ensures SameCode(file[i], file[j], locale) <==> SayAlike(file[i].sectionCode, file[j].sectionCode, locale)
    {
      SayAlikeExact(file[i].sectionCode, file[j].sectionCode, locale);
    }
  }
}
