/**
 * audit.fn_upload_study_plans and audit.fn_rollback_study_plans. Plans and courses are shared between
 * uploads (ON CONFLICT DO NOTHING), there is no undo stack, and offerings carry no upload id at all.
 */
module StudyPlans {
  import opened SqlText
  import opened Wrappers
  import Histories

  /** A row with the upload that inserted it. */
  datatype Entry = Entry(uploadLogId: Option<nat>, info: string)

  type Offering = (string, int)             // plan code, academic period
  type PlanCourse = (string, int, string)   // plan code, academic period, course code

  datatype Data = Data(plans: map<string, Entry>, offerings: set<Offering>,
                       courses: map<string, Entry>, planCourses: map<PlanCourse, Entry>)

  /**
   * A validated file as the four INSERT statements read it: its plans, one spelling for each course
   * (DISTINCT ON lower(trim(code)) picks it), and its rows by plan and course code.
   */
  datatype File = File(period: int, plans: map<string, string>, courses: map<string, string>,
                       rows: map<(string, string), string>, locale: Locale)

  /** Two spellings of one course. */
  predicate SameCourse(f: File, a: string, b: string) {
    f.locale.lower(a) == f.locale.lower(b)
  }

  /** Every row has its plan, and every plan and every picked spelling comes from a row. */
  ghost predicate Shaped(f: File) {
    && (forall key :: key in f.rows ==> key.0 in f.plans)
    && (forall p :: p in f.plans ==> exists key :: key in f.rows && key.0 == p)
    && (forall c :: c in f.courses ==> exists key :: key in f.rows && key.1 == c)
  }

  ghost predicate HasPick(f: File, code: string) {
    exists c :: c in f.courses && SameCourse(f, c, code)
  }

  /** DISTINCT ON: exactly one spelling is picked for the course of each row. */
  ghost predicate OnePick(f: File) {
    && (forall key :: key in f.rows ==> HasPick(f, key.1))
    && (forall c, d :: c in f.courses && d in f.courses && SameCourse(f, c, d) ==> c == d)
  }

  /** The duplicate check: a plan has no course twice, however it is spelled. */
  ghost predicate NoDuplicates(f: File) {
    forall k, l :: k in f.rows && l in f.rows && k.0 == l.0 && SameCourse(f, k.1, l.1) ==> k == l
  }

  /** A validated file with the spellings that the query picked. */
  ghost predicate FileOk(f: File) {
    Shaped(f) && OnePick(f) && NoDuplicates(f)
  }

  /** courseAlreadyInStudyPlan is not raised. */
  predicate NoneThereYet(d: Data, f: File) {
    forall key :: key in f.rows ==> (key.0, f.period, key.1) !in d.planCourses
  }

  function InsertNew(t: map<string, Entry>, new_: map<string, string>, id: nat): map<string, Entry> {
    map k | k in t.Keys + new_.Keys :: if k in t then t[k] else Entry(Some(id), new_[k])
  }

  /** The last INSERT joins the courses by their exact code. */
  function NewPlanCourses(courses: map<string, Entry>, f: File, id: nat): map<PlanCourse, Entry> {
    map k | k in (set key | key in f.rows :: (key.0, f.period, key.1)) && (k.0, k.2) in f.rows && k.2 in courses ::
      Entry(Some(id), f.rows[(k.0, k.2)])
  }

  function NewOfferings(f: File): (os: set<Offering>)
    ensures forall o :: o in os <==> o.0 in f.plans && o.1 == f.period
  {
    var os := set p | p in f.plans :: (p, f.period);
    assert forall o: Offering :: o.0 in f.plans && o.1 == f.period ==> (o.0, f.period) == o;
    os
  }

  function Load(d: Data, f: File, id: nat): Data {
    var courses := InsertNew(d.courses, f.courses, id);
    Data(InsertNew(d.plans, f.plans, id),
         d.offerings + NewOfferings(f),
         courses,
         d.planCourses + NewPlanCourses(courses, f, id))
  }

  /** What is there stays; what the file adds carries the upload and what the file says. */
  ghost predicate Inserts<K(!new)>(before: map<K, Entry>, after: map<K, Entry>, id: nat, added: map<K, string>) {
    && (forall k :: k in after <==> k in before || k in added)
    && (forall k :: k in before ==> after[k] == before[k])
    && (forall k :: k in added && k !in before ==> after[k] == Entry(Some(id), added[k]))
  }

  lemma PlanCoursesLoaded(d: Data, f: File, id: nat)
    requires NoneThereYet(d, f)
    ensures var e := Load(d, f, id);
      && (forall k :: k in d.planCourses ==> k in e.planCourses && e.planCourses[k] == d.planCourses[k])
      && (forall k :: k in e.planCourses && k !in d.planCourses ==>
            k.1 == f.period && (k.0, k.2) in f.rows && k.2 in e.courses &&
            e.planCourses[k] == Entry(Some(id), f.rows[(k.0, k.2)]))
      && (forall key :: key in f.rows && key.1 in e.courses ==> (key.0, f.period, key.1) in e.planCourses)
  {
    OldPlanCoursesStay(d, f, id);
    NewPlanCoursesOwned(InsertNew(d.courses, f.courses, id), f, id);
    hide NewPlanCourses;
    forall key | key in f.rows && key.1 in Load(d, f, id).courses
      ensures (key.0, f.period, key.1) in Load(d, f, id).planCourses
    {
      var k: PlanCourse := (key.0, f.period, key.1);
      assert (k.0, k.2) == key && k in NewPlanCourses(InsertNew(d.courses, f.courses, id), f, id);
    }
  }

  /**
   * The four INSERT statements: plans and picked courses that were there stay as they are, the others are
   * new; every plan of the file is offered in the period; and a plan course is added for exactly those rows
   * whose course is stored as it is spelled.
   */
  lemma LoadExact(d: Data, f: File, id: nat)
    requires NoneThereYet(d, f)
    ensures var e := Load(d, f, id);
      && Inserts(d.plans, e.plans, id, f.plans) && Inserts(d.courses, e.courses, id, f.courses)
      && (forall o :: o in e.offerings <==> o in d.offerings || (o.0 in f.plans && o.1 == f.period))
      && (forall k :: k in d.planCourses ==> k in e.planCourses && e.planCourses[k] == d.planCourses[k])
      && (forall k :: k in e.planCourses && k !in d.planCourses ==>
            k.1 == f.period && (k.0, k.2) in f.rows && k.2 in e.courses &&
            e.planCourses[k] == Entry(Some(id), f.rows[(k.0, k.2)]))
      && (forall key :: key in f.rows && key.1 in e.courses ==> (key.0, f.period, key.1) in e.planCourses)
  {
    hide NewPlanCourses;
    PlanCoursesLoaded(d, f, id);
  }

  // ---------------------------------------------------------------- rows that get lost

  /**
   * The function reports every row as loaded, but a row reaches the table exactly when its course code,
   * as it is spelled, was there before or is the spelling picked for the file.
   */
  lemma RowLoadedIff(d: Data, f: File, id: nat, key: (string, string))
    requires Shaped(f) && NoneThereYet(d, f) && key in f.rows
    ensures (key.0, f.period, key.1) in Load(d, f, id).planCourses <==> key.1 in d.courses || key.1 in f.courses
  {
    var k := (key.0, f.period, key.1);
    var added := NewPlanCourses(Load(d, f, id).courses, f, id);
    if key.1 in Load(d, f, id).courses {
      assert (key.0, key.1) in f.rows && k in added;
    }
  }

  /** Another row of the file spells the course of this one as it was picked. */
  ghost predicate PickedElsewhere(f: File, key: (string, string)) {
    exists other :: other in f.rows && other.1 != key.1 && SameCourse(f, other.1, key.1) && other.1 in f.courses
  }

  lemma AnotherSpelling(f: File, key: (string, string))
    requires Shaped(f) && OnePick(f) && key in f.rows && key.1 !in f.courses
    ensures PickedElsewhere(f, key)
  {
    hide SameCourse, Shaped, OnePick, HasPick, PickedElsewhere;
    RowHasPick(f, key);
    var c := PickOf(f, key.1);
    var other := SpellingOf(f, c);
    Elsewhere(f, key, other);
  }

  lemma RowHasPick(f: File, key: (string, string))
    requires OnePick(f) && key in f.rows
    ensures HasPick(f, key.1)
  {
    hide HasPick;
  }

  lemma Elsewhere(f: File, key: (string, string), other: (string, string))
    requires other in f.rows && other.1 != key.1 && SameCourse(f, other.1, key.1) && other.1 in f.courses
    ensures PickedElsewhere(f, key)
  {}

  lemma PickOf(f: File, code: string) returns (c: string)
    requires HasPick(f, code)
    ensures c in f.courses && SameCourse(f, c, code)
  {
    hide SameCourse;
    c :| c in f.courses && SameCourse(f, c, code);
  }

  lemma SpellingOf(f: File, c: string) returns (key: (string, string))
    requires Shaped(f) && c in f.courses
    ensures key in f.rows && key.1 == c
  {
    key :| key in f.rows && key.1 == c;
  }

  /** A lost row: another row spells its course differently, and that spelling was picked instead. */
  lemma LostToAnotherSpelling(d: Data, f: File, id: nat, key: (string, string))
    requires FileOk(f) && NoneThereYet(d, f) && key in f.rows
    requires (key.0, f.period, key.1) !in Load(d, f, id).planCourses
    ensures PickedElsewhere(f, key)
  {
    hide Load, NoDuplicates, NoneThereYet, Shaped, OnePick, PickedElsewhere;
    RowLoadedIff(d, f, id, key);
    AnotherSpelling(f, key);
  }

  /** Two rows that spell one course differently, of which `picked` is stored. */
  function LosingFile(p: string, q: string, picked: string, other: string, locale: Locale): File {
    File(1, map[p := "", q := ""], map[picked := ""], map[(p, other) := "", (q, picked) := ""], locale)
  }

  lemma LosingParts(p: string, q: string, picked: string, other: string, locale: Locale)
    ensures var f := LosingFile(p, q, picked, other, locale);
      && f.period == 1 && f.locale == locale && f.plans.Keys == {p, q} && f.courses.Keys == {picked}
      && f.rows.Keys == {(p, other), (q, picked)}
  {}

  lemma LosingFileOk(p: string, q: string, picked: string, other: string, locale: Locale)
    requires p != q && picked != other && locale.lower(picked) == locale.lower(other)
    ensures FileOk(LosingFile(p, q, picked, other, locale))
  {
    hide LosingFile, Shaped, OnePick, NoDuplicates;
    LosingParts(p, q, picked, other, locale);
    TwoRowsShaped(LosingFile(p, q, picked, other, locale), p, q, picked, other);
    TwoRowsPicked(LosingFile(p, q, picked, other, locale), p, q, picked, other);
    TwoRowsApart(LosingFile(p, q, picked, other, locale), p, q, picked, other);
  }

  lemma TwoRowsShaped(f: File, p: string, q: string, picked: string, other: string)
    requires f.plans.Keys == {p, q} && f.courses.Keys == {picked} && f.rows.Keys == {(p, other), (q, picked)}
    ensures Shaped(f)
  {
    var first, second := (p, other), (q, picked);
    assert first in f.rows.Keys && second in f.rows.Keys;
    assert first.0 == p && second.0 == q && second.1 == picked;
    assert forall key :: key in f.rows ==> key in f.rows.Keys;
    assert forall a :: a in f.plans ==> a in f.plans.Keys;
    assert forall c :: c in f.courses ==> c in f.courses.Keys;
  }

  lemma TwoRowsPicked(f: File, p: string, q: string, picked: string, other: string)
    requires f.courses.Keys == {picked} && f.rows.Keys == {(p, other), (q, picked)}
    requires SameCourse(f, picked, other)
    ensures OnePick(f)
  {
    assert SameCourse(f, picked, picked);
    hide SameCourse, HasPick;
    forall key | key in f.rows ensures HasPick(f, key.1) {
      assert key in f.rows.Keys && (key.1 == other || key.1 == picked);
      assert picked in f.courses.Keys;
      Picks(f, picked, key.1);
    }
    assert forall c :: c in f.courses ==> c in f.courses.Keys;
  }

  lemma Picks(f: File, c: string, code: string)
    requires c in f.courses && SameCourse(f, c, code)
    ensures HasPick(f, code)
  {}

  lemma TwoRowsApart(f: File, p: string, q: string, picked: string, other: string)
    requires p != q && f.rows.Keys == {(p, other), (q, picked)}
    ensures NoDuplicates(f)
  {
    hide SameCourse;
    assert forall key :: key in f.rows ==> key in f.rows.Keys;
  }

  function NoData(): Data { Data(map[], {}, map[], map[]) }

  lemma NothingThereYet(f: File)
    ensures NoneThereYet(NoData(), f) && forall c :: c !in NoData().courses
  {}

  /** Over empty tables, the row that is spelled differently is lost. */
  lemma CaseVariantIsLost(p: string, q: string, picked: string, other: string, locale: Locale, id: nat)
    requires p != q && picked != other && locale.lower(picked) == locale.lower(other)
    ensures var f := LosingFile(p, q, picked, other, locale);
            FileOk(f) && NoneThereYet(NoData(), f) && (p, other) in f.rows &&
            (p, 1, other) !in Load(NoData(), f, id).planCourses
  {
    hide FileOk, Shaped, Load, LosingFile, NoData, NoneThereYet;
    var f := LosingFile(p, q, picked, other, locale);
    LosingFileOk(p, q, picked, other, locale);
    LosingShaped(f);
    LosingRow(p, q, picked, other, locale);
    NothingThereYet(f);
    RowLoadedIff(NoData(), f, id, (p, other));
  }

  lemma LosingRow(p: string, q: string, picked: string, other: string, locale: Locale)
    requires picked != other
    ensures var f := LosingFile(p, q, picked, other, locale);
            (p, other) in f.rows && other !in f.courses && f.period == 1
  {
    LosingParts(p, q, picked, other, locale);
    var f := LosingFile(p, q, picked, other, locale);
    hide LosingFile;
    assert (p, other) in f.rows.Keys && other !in f.courses.Keys;
  }

  lemma LosingShaped(f: File)
    requires FileOk(f)
    ensures Shaped(f)
  {}

  // ---------------------------------------------------------------- rollback

  /** The two EXISTS tests: no row of another upload hangs off a course or plan of this one. */
  predicate Accepts(d: Data, id: nat) {
    && (forall k :: k in d.planCourses && d.planCourses[k].uploadLogId != Some(id) && k.2 in d.courses ==>
          d.courses[k.2].uploadLogId != Some(id))
    && (forall k :: k in d.planCourses && d.planCourses[k].uploadLogId != Some(id) && k.0 in d.plans ==>
          d.plans[k.0].uploadLogId != Some(id))
  }

  function Others<K>(t: map<K, Entry>, id: nat): map<K, Entry> {
    map k | k in t && t[k].uploadLogId != Some(id) :: t[k]
  }

  predicate Used(planCourses: map<PlanCourse, Entry>, o: Offering) {
    exists k | k in planCourses :: (k.0, k.1) == o
  }

  /** An offering of a plan of this upload, with none of its plan courses left. */
  predicate Gone(d: Data, id: nat, o: Offering) {
    o.0 in d.plans && d.plans[o.0].uploadLogId == Some(id) && !Used(Others(d.planCourses, id), o)
  }

  /** The four DELETE statements in their order. */
  function Rollback(d: Data, id: nat): Data {
    Data(Others(d.plans, id), (set o | o in d.offerings && !Gone(d, id, o)),
         Others(d.courses, id), Others(d.planCourses, id))
  }

  /** The foreign keys. */
  ghost predicate Referential(d: Data) {
    && (forall o :: o in d.offerings ==> o.0 in d.plans)
    && (forall k :: k in d.planCourses ==> (k.0, k.1) in d.offerings && k.2 in d.courses)
  }

  /**
   * An accepted rollback violates no foreign key, removes exactly the rows of this upload from the
   * three tables that carry upload ids, and only offerings of plans that go with it.
   */
  lemma RollbackIsSafe(d: Data, id: nat)
    requires Referential(d) && Accepts(d, id)
    ensures Referential(Rollback(d, id))
    ensures forall o :: o in d.offerings ==>
              (o in Rollback(d, id).offerings <==> d.plans[o.0].uploadLogId != Some(id))
  {
    var r := Rollback(d, id);
    forall k | k in r.planCourses ensures (k.0, k.1) in r.offerings && k.2 in r.courses {
      assert k in d.planCourses && (k.0, k.1) in d.offerings && (k.0, k.1).0 in d.plans;
    }
    assert forall o :: o in d.offerings && d.plans[o.0].uploadLogId == Some(id) ==> !Used(r.planCourses, o);
  }

  // ---------------------------------------------------------------- undo right after the upload

  ghost predicate Unmentioned(d: Data, id: nat) {
    && (forall k :: k in d.plans ==> d.plans[k].uploadLogId != Some(id))
    && (forall k :: k in d.courses ==> d.courses[k].uploadLogId != Some(id))
    && (forall k :: k in d.planCourses ==> d.planCourses[k].uploadLogId != Some(id))
  }

  /** Equal but for offerings that nothing uses, on plans that are there anyway. */
  ghost predicate SameButEmpty(d: Data, r: Data) {
    && d.plans == r.plans && d.courses == r.courses && d.planCourses == r.planCourses
    && r.offerings <= d.offerings
    && (forall o :: o in d.offerings && o !in r.offerings ==> o.0 in d.plans && !Used(d.planCourses, o))
  }

  lemma OthersOfInsert(t: map<string, Entry>, new_: map<string, string>, id: nat)
    requires forall k :: k in t ==> t[k].uploadLogId != Some(id)
    ensures Others(InsertNew(t, new_, id), id) == t
  {}

  lemma NewPlanCoursesOwned(courses: map<string, Entry>, f: File, id: nat)
    ensures forall k :: k in NewPlanCourses(courses, f, id) <==>
              k.1 == f.period && (k.0, k.2) in f.rows && k.2 in courses
    ensures forall k :: k in NewPlanCourses(courses, f, id) ==>
              NewPlanCourses(courses, f, id)[k] == Entry(Some(id), f.rows[(k.0, k.2)])
  {
    forall k: PlanCourse | k.1 == f.period && (k.0, k.2) in f.rows && k.2 in courses
      ensures k in NewPlanCourses(courses, f, id)
    {
      var key := (k.0, k.2);
      assert (key.0, f.period, key.1) == k;
    }
  }

  lemma LoadKeepsReferential(d: Data, f: File, id: nat)
    requires Referential(d) && Shaped(f)
    ensures Referential(Load(d, f, id))
  {
    NewPlanCoursesOwned(Load(d, f, id).courses, f, id);
  }

  lemma OldPlanCoursesStay(d: Data, f: File, id: nat)
    requires NoneThereYet(d, f)
    ensures forall k :: k in d.planCourses ==>
              k !in NewPlanCourses(Load(d, f, id).courses, f, id) &&
              k in Load(d, f, id).planCourses && Load(d, f, id).planCourses[k] == d.planCourses[k]
  {
    var courses := Load(d, f, id).courses;
    NewPlanCoursesOwned(courses, f, id);
    forall k | k in d.planCourses ensures k !in NewPlanCourses(courses, f, id) {
      if k.1 == f.period && (k.0, k.2) in f.rows {
        assert ((k.0, k.2).0, f.period, (k.0, k.2).1) == k;
      }
    }
  }

  lemma OthersOfLoaded(d: Data, f: File, id: nat)
    requires Unmentioned(d, id) && NoneThereYet(d, f)
    ensures Others(Load(d, f, id).planCourses, id) == d.planCourses
  {
    OldPlanCoursesStay(d, f, id);
    NewPlanCoursesOwned(Load(d, f, id).courses, f, id);
    hide InsertNew, NewPlanCourses;
  }

  lemma AcceptsOwn(d: Data, f: File, id: nat)
    requires Referential(d) && Shaped(f) && Unmentioned(d, id) && NoneThereYet(d, f)
    ensures Accepts(Load(d, f, id), id)
  {
    OthersOfLoaded(d, f, id);
    hide NewPlanCourses;
    var e := Load(d, f, id);
    forall k | k in e.planCourses && e.planCourses[k].uploadLogId != Some(id)
      ensures k.2 in d.courses && e.courses[k.2] == d.courses[k.2] && k.0 in d.plans && e.plans[k.0] == d.plans[k.0]
    {
      assert k in Others(e.planCourses, id);
      assert k in d.planCourses && (k.0, k.1).0 in d.plans;
    }
  }

  lemma OfferingsAfterUndo(d: Data, f: File, id: nat)
    requires Referential(d) && Unmentioned(d, id) && Others(Load(d, f, id).planCourses, id) == d.planCourses
    ensures var r := Rollback(Load(d, f, id), id);
            d.offerings <= r.offerings && forall o :: o in r.offerings && o !in d.offerings ==> o.0 in d.plans
  {
    var e := Load(d, f, id);
    var r := Rollback(e, id);
    NewOfferingsEmpty(d);
    forall o | o in d.offerings ensures o in r.offerings {
      assert o.0 in d.plans && e.plans[o.0] == d.plans[o.0];
    }
    forall o | o in r.offerings && o !in d.offerings ensures o.0 in d.plans {
      assert o.0 in f.plans && o.0 in e.plans && !Used(d.planCourses, o);
    }
  }

  /**
   * Rolled back with nothing in between, an upload is accepted and leaves plans, courses and plan
   * courses as they were; what may stay behind are empty offerings of plans that were there before.
   */
  lemma UploadThenRollback(d: Data, f: File, id: nat)
    requires Referential(d) && Shaped(f) && Unmentioned(d, id) && NoneThereYet(d, f)
    ensures Accepts(Load(d, f, id), id)
    ensures SameButEmpty(Rollback(Load(d, f, id), id), d)
  {
    AcceptsOwn(d, f, id);
    OthersOfLoaded(d, f, id);
    OthersOfInsert(d.plans, f.plans, id);
    OthersOfInsert(d.courses, f.courses, id);
    OfferingsAfterUndo(d, f, id);
    NewOfferingsEmpty(d);
    hide InsertNew, NewPlanCourses, Others, Used;
  }

  lemma NewOfferingsEmpty(d: Data)
    requires Referential(d)
    ensures forall o :: o !in d.offerings ==> !Used(d.planCourses, o)
  {}

  // ---------------------------------------------------------------- whole runs

  /** Some row of the plan spells its course as it is stored, so it is not lost. */
  ghost predicate HasRow(t: Data, f: File, plan: string) {
    exists key :: key in f.rows && key.0 == plan && (key.1 in f.courses || key.1 in t.courses)
  }

  /** No plan of the file loses all its rows. */
  ghost predicate Anchored(t: Data, f: File) {
    forall p :: p in f.plans ==> HasRow(t, f, p)
  }

  datatype Applied = Applied(id: nat, file: File)

  function Replay(base: Data, h: seq<Applied>): Data {
    if h == [] then base else Load(Replay(base, h[..|h| - 1]), h[|h| - 1].file, h[|h| - 1].id)
  }

  function Without(h: seq<Applied>, id: nat): seq<Applied> {
    Histories.Without(h, id, LogId)
  }

  function LogId(u: Applied): nat { u.id }

  /** Accepted files, one after the other, under ids that the tables do not mention yet. */
  ghost predicate HistoryOk(base: Data, h: seq<Applied>) {
    if h == [] then Referential(base)
    else
      var u, t := h[|h| - 1], Replay(base, h[..|h| - 1]);
      HistoryOk(base, h[..|h| - 1]) && FileOk(u.file) && NoneThereYet(t, u.file) &&
      OlderThan(base, h[..|h| - 1], u.id)
  }

  ghost predicate OlderThan(base: Data, h: seq<Applied>, id: nat) {
    Unmentioned(base, id) && forall i :: 0 <= i < |h| ==> h[i].id < id
  }

  lemma {:induction false} ReplayReferential(base: Data, h: seq<Applied>)
    requires HistoryOk(base, h)
    ensures Referential(Replay(base, h))
  {
    if h != [] {
      hide Load, Referential;
      ReplayReferential(base, h[..|h| - 1]);
      LoadKeepsReferential(Replay(base, h[..|h| - 1]), h[|h| - 1].file, h[|h| - 1].id);
    }
  }

  lemma LoadUnmentioned(d: Data, f: File, other: nat, id: nat)
    requires Unmentioned(d, id) && other != id
    ensures Unmentioned(Load(d, f, other), id)
  {
    NewPlanCoursesOwned(Load(d, f, other).courses, f, other);
    hide NewPlanCourses;
  }

  lemma {:induction false} ReplayUnmentioned(base: Data, h: seq<Applied>, id: nat)
    requires Unmentioned(base, id) && forall i :: 0 <= i < |h| ==> h[i].id != id
    ensures Unmentioned(Replay(base, h), id)
  {
    if h != [] {
      hide Load, Unmentioned;
      ReplayUnmentioned(base, h[..|h| - 1], id);
      LoadUnmentioned(Replay(base, h[..|h| - 1]), h[|h| - 1].file, h[|h| - 1].id, id);
    }
  }

  lemma WithoutAbsent(h: seq<Applied>, id: nat)
    requires forall i :: 0 <= i < |h| ==> h[i].id != id
    ensures Without(h, id) == h
  {
    Histories.WithoutAbsent(h, id, LogId);
  }

  lemma RowApart(t: Data, f: File, u: nat, id: nat, key: (string, string))
    requires u != id && Accepts(Load(t, f, u), id) && key in f.rows && key.1 in Load(t, f, u).courses
    ensures key.0 in t.plans ==> t.plans[key.0].uploadLogId != Some(id)
    ensures key.1 in t.courses ==> t.courses[key.1].uploadLogId != Some(id)
  {
    var e := Load(t, f, u);
    var k := (key.0, f.period, key.1);
    assert (k.0, k.2) == key;
    NewPlanCoursesOwned(e.courses, f, u);
    hide NewPlanCourses;
    assert k in e.planCourses && e.planCourses[k].uploadLogId == Some(u);
  }

  /** A plan of the file was inserted by `id`. */
  ghost predicate SharesPlan(t: Data, f: File, id: nat) {
    exists p :: p in f.plans && p in t.plans && t.plans[p].uploadLogId == Some(id)
  }

  /** An accepted rollback of `id` means that a later upload uses none of its courses ... */
  lemma CoursesApart(t: Data, f: File, u: nat, id: nat)
    requires Shaped(f) && u != id && Accepts(Load(t, f, u), id)
    ensures forall key :: key in f.rows && key.1 in t.courses ==> t.courses[key.1].uploadLogId != Some(id)
    ensures forall c :: c in f.courses && c in t.courses ==> t.courses[c].uploadLogId != Some(id)
  {
    forall key | key in f.rows && key.1 in t.courses ensures t.courses[key.1].uploadLogId != Some(id) {
      assert key.1 in Load(t, f, u).courses;
      RowApart(t, f, u, id, key);
    }
  }

  /** ... and, when no plan loses all its rows, none of its plans. */
  lemma PlansApart(t: Data, f: File, u: nat, id: nat)
    requires Anchored(t, f) && u != id && Accepts(Load(t, f, u), id)
    ensures !SharesPlan(t, f, id)
  {
    forall p | p in f.plans && p in t.plans ensures t.plans[p].uploadLogId != Some(id) {
      assert HasRow(t, f, p);
      var key :| key in f.rows && key.0 == p && (key.1 in f.courses || key.1 in t.courses);
      assert key.1 in Load(t, f, u).courses;
      RowApart(t, f, u, id, key);
    }
  }

  lemma EarlierAccepts(t: Data, f: File, u: nat, id: nat)
    requires NoneThereYet(t, f) && Accepts(Load(t, f, u), id)
    ensures Accepts(t, id)
  {
    OldPlanCoursesStay(t, f, u);
    var e := Load(t, f, u);
    forall k | k in t.planCourses && t.planCourses[k].uploadLogId != Some(id)
      ensures k.2 in t.courses ==> t.courses[k.2].uploadLogId != Some(id)
      ensures k.0 in t.plans ==> t.plans[k.0].uploadLogId != Some(id)
    {
      assert k in e.planCourses && e.planCourses[k] == t.planCourses[k];
    }
  }

  /** Row `key` of the file hangs off a course or a plan of this upload. */
  predicate HangsOff(t: Data, key: (string, string), id: nat) {
    || (key.1 in t.courses && t.courses[key.1].uploadLogId == Some(id))
    || (key.0 in t.plans && t.plans[key.0].uploadLogId == Some(id))
  }

  /** The guard after one more upload: passed before, and no loaded row hangs off a course or plan of `id`. */
  lemma AcceptsAfterLoad(t: Data, f: File, u: nat, id: nat)
    requires NoneThereYet(t, f) && u != id
    ensures Accepts(Load(t, f, u), id) <==>
            Accepts(t, id) && forall key :: key in f.rows && key.1 in Load(t, f, u).courses ==> !HangsOff(t, key, id)
  {
    if Accepts(Load(t, f, u), id) {
      EarlierAccepts(t, f, u, id);
      forall key | key in f.rows && key.1 in Load(t, f, u).courses ensures !HangsOff(t, key, id) {
        RowApart(t, f, u, id, key);
      }
    }
    if Accepts(t, id) && forall key :: key in f.rows && key.1 in Load(t, f, u).courses ==> !HangsOff(t, key, id) {
      LaterAccepts(t, f, u, id);
    }
  }

  lemma LaterAccepts(t: Data, f: File, u: nat, id: nat)
    requires NoneThereYet(t, f) && u != id && Accepts(t, id)
    requires forall key :: key in f.rows && key.1 in Load(t, f, u).courses ==> !HangsOff(t, key, id)
    ensures Accepts(Load(t, f, u), id)
  {
    hide Load, HangsOff, NoneThereYet;
    var e := Load(t, f, u);
    forall k | k in e.planCourses && e.planCourses[k].uploadLogId != Some(id)
      ensures k.2 in e.courses ==> e.courses[k.2].uploadLogId != Some(id)
      ensures k.0 in e.plans ==> e.plans[k.0].uploadLogId != Some(id)
    {
      LoadedRow(t, f, u, k);
      if k in t.planCourses {
        GuardedRow(t, k, id);
      } else {
        assert ((k.0, k.2).0, (k.0, k.2).1) in f.rows;
      }
      NotHanging(t, f, u, (k.0, k.2), id);
    }
  }

  lemma LoadedRow(t: Data, f: File, u: nat, k: PlanCourse)
    requires NoneThereYet(t, f) && k in Load(t, f, u).planCourses
    ensures var e := Load(t, f, u);
      if k in t.planCourses then e.planCourses[k] == t.planCourses[k]
      else (k.0, k.2) in f.rows && k.2 in e.courses
  {
    hide NewPlanCourses;
    OldPlanCoursesStay(t, f, u);
    NewPlanCoursesOwned(Load(t, f, u).courses, f, u);
  }

  lemma GuardedRow(t: Data, k: PlanCourse, id: nat)
    requires Accepts(t, id) && k in t.planCourses && t.planCourses[k].uploadLogId != Some(id)
    ensures !HangsOff(t, (k.0, k.2), id)
  {}

  lemma NotHanging(t: Data, f: File, u: nat, key: (string, string), id: nat)
    requires u != id && !HangsOff(t, key, id)
    ensures var e := Load(t, f, u);
      && (key.1 in e.courses ==> e.courses[key.1].uploadLogId != Some(id))
      && (key.0 in e.plans ==> e.plans[key.0].uploadLogId != Some(id))
  {}

  lemma InsertCommutes(t: map<string, Entry>, new_: map<string, string>, u: nat, id: nat)
    requires u != id && forall k :: k in new_ && k in t ==> t[k].uploadLogId != Some(id)
    ensures Others(InsertNew(t, new_, u), id) == InsertNew(Others(t, id), new_, u)
  {}

  lemma NewPlanCoursesSame(c1: map<string, Entry>, c2: map<string, Entry>, f: File, u: nat)
    requires forall key :: key in f.rows ==> (key.1 in c1 <==> key.1 in c2)
    ensures NewPlanCourses(c1, f, u) == NewPlanCourses(c2, f, u)
  {
    NewPlanCoursesOwned(c1, f, u);
    NewPlanCoursesOwned(c2, f, u);
    hide NewPlanCourses;
    var n1, n2 := NewPlanCourses(c1, f, u), NewPlanCourses(c2, f, u);
    forall k: PlanCourse ensures k in n1 <==> k in n2 {
      assert (k.0, k.2) in f.rows ==> ((k.0, k.2).1 in c1 <==> (k.0, k.2).1 in c2);
    }
    assert n1.Keys == n2.Keys;
  }

  lemma PlanCoursesCommute(t: Data, f: File, u: nat, id: nat)
    requires Shaped(f) && u != id && Accepts(Load(t, f, u), id)
    ensures Others(Load(t, f, u).planCourses, id) == Load(Rollback(t, id), f, u).planCourses
  {
    var c1, c2 := Load(t, f, u).courses, Load(Rollback(t, id), f, u).courses;
    CoursesApart(t, f, u, id);
    hide Accepts;
    assert forall key :: key in f.rows ==> (key.1 in c1 <==> key.1 in c2);
    NewPlanCoursesSame(c1, c2, f, u);
    NewPlanCoursesOwned(c1, f, u);
    hide NewPlanCourses, InsertNew, Others;
    OthersOfSum(t.planCourses, NewPlanCourses(c1, f, u), u, id);
  }

  lemma OthersOfSum(t: map<PlanCourse, Entry>, added: map<PlanCourse, Entry>, u: nat, id: nat)
    requires u != id && forall k :: k in added ==> added[k].uploadLogId == Some(u)
    ensures Others(t + added, id) == Others(t, id) + added
  {}

  lemma UsedCommutes(t: Data, f: File, u: nat, id: nat, o: Offering)
    requires Shaped(f) && NoneThereYet(t, f) && o.0 !in f.plans
    ensures Used(Others(Load(t, f, u).planCourses, id), o) <==> Used(Others(t.planCourses, id), o)
  {
    var e := Load(t, f, u);
    NewPlanCoursesOwned(e.courses, f, u);
    OldPlanCoursesStay(t, f, u);
    hide NewPlanCourses, InsertNew, NewOfferings, NoneThereYet;
    var l, r := Others(e.planCourses, id), Others(t.planCourses, id);
    if Used(l, o) {
      var k :| k in l && (k.0, k.1) == o;
      assert (k.0, k.2) in f.rows ==> (k.0, k.2).0 in f.plans;
      assert k in r;
    }
    if Used(r, o) {
      var k :| k in r && (k.0, k.1) == o;
      assert k in l;
    }
  }

  lemma GoneCommutes(t: Data, f: File, u: nat, id: nat, o: Offering)
    requires Shaped(f) && NoneThereYet(t, f) && u != id
    requires forall p :: p in f.plans && p in t.plans ==> t.plans[p].uploadLogId != Some(id)
    ensures Gone(Load(t, f, u), id, o) <==> Gone(t, id, o)
    ensures Gone(t, id, o) ==> o.0 !in f.plans
  {
    hide Used, Others, NewPlanCourses;
    if o.0 !in f.plans {
      UsedCommutes(t, f, u, id, o);
    }
  }

  lemma OfferingsCommute(t: Data, f: File, u: nat, id: nat)
    requires Shaped(f) && NoneThereYet(t, f) && u != id
    requires forall p :: p in f.plans && p in t.plans ==> t.plans[p].uploadLogId != Some(id)
    ensures Rollback(Load(t, f, u), id).offerings == Load(Rollback(t, id), f, u).offerings
  {
    hide NewOfferings, InsertNew, NewPlanCourses, Others, Gone;
    var l, r := Rollback(Load(t, f, u), id).offerings, Load(Rollback(t, id), f, u).offerings;
    forall o ensures o in l <==> o in r {
      GoneCommutes(t, f, u, id, o);
    }
  }

  /** An accepted rollback commutes with a later upload exactly when the file has none of its plans. */
  lemma RollbackCommutes(t: Data, f: File, u: nat, id: nat)
    requires Shaped(f) && NoneThereYet(t, f) && u != id && Accepts(Load(t, f, u), id)
    ensures Rollback(Load(t, f, u), id) == Load(Rollback(t, id), f, u) <==> !SharesPlan(t, f, id)
  {
    if SharesPlan(t, f, id) {
      var p :| p in f.plans && p in t.plans && t.plans[p].uploadLogId == Some(id);
      assert p !in Rollback(Load(t, f, u), id).plans && p in Load(Rollback(t, id), f, u).plans;
    } else {
      CoursesApart(t, f, u, id);
      InsertCommutes(t.plans, f.plans, u, id);
      InsertCommutes(t.courses, f.courses, u, id);
      PlanCoursesCommute(t, f, u, id);
      OfferingsCommute(t, f, u, id);
    }
  }

  /** A plan and a course, both inserted by upload 1. */
  function PlanOfOne(p: string, x: string): Data {
    Data(map[p := Entry(Some(1), "")], {(p, 1)}, map[x := Entry(Some(1), "")], map[(p, 1, x) := Entry(Some(1), "")])
  }

  lemma LosingFileNew(p: string, q: string, x: string, picked: string, other: string, locale: Locale)
    requires x != picked && x != other
    ensures NoneThereYet(PlanOfOne(p, x), LosingFile(p, q, picked, other, locale))
  {
    LosingParts(p, q, picked, other, locale);
    var f := LosingFile(p, q, picked, other, locale);
    hide LosingFile;
    forall key | key in f.rows ensures (key.0, f.period, key.1) !in PlanOfOne(p, x).planCourses {
      assert key in f.rows.Keys;
    }
  }

  lemma LosingFileApart(p: string, q: string, x: string, picked: string, other: string, locale: Locale,
                        key: (string, string))
    requires p != q && x != picked && x != other && picked != other
    requires key in LosingFile(p, q, picked, other, locale).rows
    requires key.1 in Load(PlanOfOne(p, x), LosingFile(p, q, picked, other, locale), 2).courses
    ensures key.1 !in PlanOfOne(p, x).courses && key.0 !in PlanOfOne(p, x).plans
  {
    LosingParts(p, q, picked, other, locale);
    hide LosingFile, NewPlanCourses, NewOfferings;
    assert key in LosingFile(p, q, picked, other, locale).rows.Keys;
  }

  lemma PlanOfOneOk(p: string, q: string, x: string, picked: string, other: string, locale: Locale)
    ensures var d, f := PlanOfOne(p, x), LosingFile(p, q, picked, other, locale);
            Accepts(d, 1) && SharesPlan(d, f, 1)
  {
    var d, f := PlanOfOne(p, x), LosingFile(p, q, picked, other, locale);
    LosingParts(p, q, picked, other, locale);
    hide LosingFile;
    assert p in f.plans.Keys && p in d.plans;
  }

  /** Upload 2 is that file. Upload 1 may still be rolled back, and takes a plan that upload 2 names as well. */
  lemma PlanOfLostRowTaken(p: string, q: string, x: string, picked: string, other: string, locale: Locale)
    requires p != q && x != picked && x != other && picked != other && locale.lower(picked) == locale.lower(other)
    ensures var d, f := PlanOfOne(p, x), LosingFile(p, q, picked, other, locale);
      && FileOk(f) && NoneThereYet(d, f) && Accepts(Load(d, f, 2), 1) && SharesPlan(d, f, 1)
      && Rollback(Load(d, f, 2), 1) != Load(Rollback(d, 1), f, 2)
  {
    hide Load, PlanOfOne, LosingFile, FileOk, Shaped, NoneThereYet, Accepts, SharesPlan, Rollback;
    var d, f := PlanOfOne(p, x), LosingFile(p, q, picked, other, locale);
    LosingFileOk(p, q, picked, other, locale);
    LosingShaped(f);
    LosingFileNew(p, q, x, picked, other, locale);
    PlanOfOneOk(p, q, x, picked, other, locale);
    forall key | key in f.rows && key.1 in Load(d, f, 2).courses ensures key.1 !in d.courses && key.0 !in d.plans {
      LosingFileApart(p, q, x, picked, other, locale, key);
    }
    AcceptsAfterLoad(d, f, 2, 1);
    RollbackCommutes(d, f, 2, 1);
  }

  lemma SameLoad(d: Data, r: Data, f: File, u: nat)
    requires SameButEmpty(d, r) && Shaped(f)
    ensures SameButEmpty(Load(d, f, u), Load(r, f, u))
  {
    var e := Load(d, f, u);
    NewPlanCoursesOwned(e.courses, f, u);
    forall o | o in e.offerings && o !in Load(r, f, u).offerings
      ensures o.0 in e.plans && !Used(e.planCourses, o)
    {
      assert o in d.offerings && o !in r.offerings;
      assert forall k :: k in NewPlanCourses(e.courses, f, u) ==> (k.0, k.2).0 in f.plans;
    }
  }

  lemma SameRollback(d: Data, r: Data, id: nat)
    requires SameButEmpty(d, r)
    ensures Accepts(d, id) <==> Accepts(r, id)
    ensures SameButEmpty(Rollback(d, id), Rollback(r, id))
  {
    var d', r' := Rollback(d, id), Rollback(r, id);
    forall o | o in d'.offerings && o !in r'.offerings ensures o.0 in d'.plans && !Used(d'.planCourses, o) {
      assert o !in r.offerings;
      assert !Used(d.planCourses, o);
    }
  }

  lemma SameTransitive(a: Data, b: Data, c: Data)
    requires SameButEmpty(a, b) && SameButEmpty(b, c)
    ensures SameButEmpty(a, c)
  {}

  lemma WithoutMembers(h: seq<Applied>, id: nat, bound: nat)
    requires forall i :: 0 <= i < |h| ==> h[i].id < bound
    ensures forall i :: 0 <= i < |Without(h, id)| ==> Without(h, id)[i].id < bound && Without(h, id)[i].id != id
  {
    var w := Without(h, id);
    forall i | 0 <= i < |w| ensures w[i].id < bound && w[i].id != id {
      Histories.WithoutMembers(h, id, LogId, w[i]);
    }
  }

  /** No later file of the history names a plan that this upload inserted. */
  ghost predicate Untaken(base: Data, h: seq<Applied>, id: nat) {
    h == [] ||
    var u := h[|h| - 1];
    u.id == id || (Untaken(base, h[..|h| - 1], id) && !SharesPlan(Replay(base, h[..|h| - 1]), u.file, id))
  }

  /**
   * An accepted rollback of any upload, in any order, gives what the other uploads alone would have
   * given, but for empty offerings of plans that are there anyway - as long as no later file names one
   * of its plans.
   */
  lemma {:induction false} RollbackErases(base: Data, h: seq<Applied>, id: nat)
    requires HistoryOk(base, h) && Unmentioned(base, id) && Accepts(Replay(base, h), id) && Untaken(base, h, id)
    ensures HistoryOk(base, Without(h, id))
    ensures SameButEmpty(Rollback(Replay(base, h), id), Replay(base, Without(h, id)))
    decreases |h|
  {
    hide Load, Rollback, Accepts, SameButEmpty, Unmentioned, Referential, SharesPlan, Shaped, OnePick, NoDuplicates;
    if h == [] {
      NothingToErase(base, id);
    } else {
      var n, u := |h| - 1, h[|h| - 1];
      var t, w := Replay(base, h[..n]), Without(h[..n], id);
      ReplayReferential(base, h[..n]);
      if u.id == id {
        ReplayUnmentioned(base, h[..n], id);
        UploadThenRollback(t, u.file, id);
        WithoutAbsent(h[..n], id);
      } else {
        EarlierAccepts(t, u.file, u.id, id);
        RollbackErases(base, h[..n], id);
        RollbackCommutes(t, u.file, u.id, id);
        SameLoad(Rollback(t, id), Replay(base, w), u.file, u.id);
        WithoutMembers(h[..n], id, u.id);
        StillNotThere(t, Replay(base, w), u.file, id);
        assert (w + [u])[..|w|] == w;
      }
    }
  }

  lemma NothingToErase(base: Data, id: nat)
    requires Referential(base) && Unmentioned(base, id)
    ensures SameButEmpty(Rollback(base, id), base)
  {
    assert Others(base.plans, id) == base.plans && Others(base.courses, id) == base.courses;
    assert Others(base.planCourses, id) == base.planCourses;
  }

  /** A plan of this upload that another file names as well: the rollback takes it from both. */
  lemma {:induction false} TakenPlan(base: Data, h: seq<Applied>, id: nat) returns (p: string)
    requires !Untaken(base, h, id)
    ensures var d := Replay(base, h);
            p in d.plans && d.plans[p].uploadLogId == Some(id) && p in Replay(base, Without(h, id)).plans
    decreases |h|
  {
    hide NewPlanCourses, NewOfferings;
    var n, u := |h| - 1, h[|h| - 1];
    var t, w := Replay(base, h[..n]), Without(h[..n], id);
    assert (w + [u])[..|w|] == w;
    if !Untaken(base, h[..n], id) {
      p := TakenPlan(base, h[..n], id);
    } else {
      p :| p in u.file.plans && p in t.plans && t.plans[p].uploadLogId == Some(id);
    }
  }

  /** An accepted rollback erases the upload if and only if no later file names one of its plans. */
  lemma ErasesExactly(base: Data, h: seq<Applied>, id: nat)
    requires HistoryOk(base, h) && Unmentioned(base, id) && Accepts(Replay(base, h), id)
    ensures SameButEmpty(Rollback(Replay(base, h), id), Replay(base, Without(h, id))) <==> Untaken(base, h, id)
  {
    hide Replay, Without, Untaken, HistoryOk, Accepts, Unmentioned;
    if Untaken(base, h, id) {
      RollbackErases(base, h, id);
    } else {
      var p := TakenPlan(base, h, id);
      assert p !in Rollback(Replay(base, h), id).plans;
    }
  }

  lemma StillNotThere(t: Data, r: Data, f: File, id: nat)
    requires NoneThereYet(t, f) && SameButEmpty(Rollback(t, id), r)
    ensures NoneThereYet(r, f)
  {}

  datatype State = State(data: Data, nextId: nat, survivors: seq<Applied>)

  datatype Event = LoadFile(file: File, hasErrors: bool) | Undo(id: nat, blocked: bool)

  function Step(s: State, ev: Event): State {
    match ev
    case LoadFile(file, hasErrors) =>
      if hasErrors || !NoneThereYet(s.data, file) then s
      else State(Load(s.data, file, s.nextId), s.nextId + 1, s.survivors + [Applied(s.nextId, file)])
    case Undo(id, blocked) =>
      if id >= s.nextId || blocked || !Accepts(s.data, id) then s
      else s.(data := Rollback(s.data, id), survivors := Without(s.survivors, id))
  }

  function Run(s: State, events: seq<Event>): State {
    if events == [] then s else Step(Run(s, events[..|events| - 1]), events[|events| - 1])
  }

  ghost predicate StateOk(base: Data, s: State) {
    && HistoryOk(base, s.survivors) && Referential(s.data)
    && SameButEmpty(s.data, Replay(base, s.survivors))
    && (forall i :: 0 <= i < |s.survivors| ==> s.survivors[i].id < s.nextId)
  }

  /** Files are as validation leaves them, and no accepted rollback takes a plan that a later file names. */
  ghost predicate Orderly(base: Data, s: State, ev: Event) {
    match ev
    case LoadFile(file, _) => FileOk(file)
    case Undo(id, _) => Accepts(s.data, id) ==> Untaken(base, s.survivors, id)
  }

  lemma StepKeepsOk(base: Data, s: State, ev: Event)
    requires StateOk(base, s) && Orderly(base, s, ev)
    requires forall id :: Unmentioned(base, id)
    ensures StateOk(base, Step(s, ev))
  {
    hide Load, Rollback, Accepts, SameButEmpty, Unmentioned, Referential, Shaped, OnePick, NoDuplicates, Untaken;
    var r, h := Replay(base, s.survivors), s.survivors;
    match ev
    case LoadFile(file, hasErrors) =>
      if !hasErrors && NoneThereYet(s.data, file) {
        SameLoad(s.data, r, file, s.nextId);
        LoadKeepsReferential(s.data, file, s.nextId);
        SameNotThere(s.data, r, file);
        var u := Applied(s.nextId, file);
        assert (h + [u])[..|h|] == h;
      }
    case Undo(id, blocked) =>
      if Accepts(s.data, id) {
        SameRollback(s.data, r, id);
        RollbackErases(base, h, id);
        SameTransitive(Rollback(s.data, id), Rollback(r, id), Replay(base, Without(h, id)));
        RollbackIsSafe(s.data, id);
        WithoutMembers(h, id, s.nextId);
      }
  }

  lemma SameNotThere(d: Data, r: Data, f: File)
    requires SameButEmpty(d, r) && NoneThereYet(d, f)
    ensures NoneThereYet(r, f)
  {}

  /**
   * Over every run in which no accepted rollback takes a plan that a later file names, the tables are the
   * surviving uploads' own, and no foreign key is ever violated.
   */
  lemma {:induction false} StudyPlanReplay(base: Data, events: seq<Event>)
    requires Referential(base) && forall id :: Unmentioned(base, id)
    requires forall n :: 0 <= n < |events| ==> Orderly(base, Run(State(base, 0, []), events[..n]), events[n])
    ensures StateOk(base, Run(State(base, 0, []), events))
    decreases |events|
  {
    hide Step, StateOk, Referential, Unmentioned, Orderly;
    if events == [] {
      StartOk(base);
    } else {
      var n := |events| - 1;
      var init, start := events[..n], State(base, 0, []);
      forall i | 0 <= i < n ensures Orderly(base, Run(start, init[..i]), init[i]) {
        assert init[..i] == events[..i];
      }
      StudyPlanReplay(base, init);
      StepKeepsOk(base, Run(start, init), events[n]);
    }
  }

  lemma StartOk(base: Data)
    requires Referential(base)
    ensures StateOk(base, State(base, 0, []))
  {}

  // ---------------------------------------------------------------- the functions themselves

  class StudyPlanTables {
    var plans: map<string, Entry>
    var offerings: set<Offering>
    var courses: map<string, Entry>
    var planCourses: map<PlanCourse, Entry>
    var nextId: nat
    ghost var survivors: seq<Applied>

    ghost function Now(): State
      reads this
    {
      State(Data(plans, offerings, courses, planCourses), nextId, survivors)
    }

    constructor (d: Data)
      ensures Now() == State(d, 0, [])
    {
      plans, offerings, courses, planCourses := d.plans, d.offerings, d.courses, d.planCourses;
      nextId, survivors := 0, [];
    }

    /** The four INSERT statements; None when validation reported errors. */
    method UploadFile(file: File, hasErrors: bool) returns (logId: Option<nat>)
      modifies this
      ensures Now() == Step(old(Now()), LoadFile(file, hasErrors))
      ensures logId == if hasErrors || !NoneThereYet(old(Now()).data, file) then None else Some(old(nextId))
    {
      hide NewOfferings, NewPlanCourses, InsertNew;
      if hasErrors || !NoneThereYet(Data(plans, offerings, courses, planCourses), file) {
        return None;
      }
      var id := nextId;
      nextId := nextId + 1;
      plans := InsertNew(plans, file.plans, id);
      offerings := offerings + NewOfferings(file);
      courses := InsertNew(courses, file.courses, id);
      planCourses := planCourses + NewPlanCourses(courses, file, id);
      survivors := survivors + [Applied(id, file)];
      logId := Some(id);
    }

    /** The guards and the four DELETE statements. */
    method RollbackUpload(id: nat, blocked: bool) returns (done: Outcome<string>)
      modifies this
      ensures Now() == Step(old(Now()), Undo(id, blocked))
      ensures done == Refused <==> id >= nextId || blocked || !Accepts(old(Now()).data, id)
      ensures done == Refused ==> Now() == old(Now())
    {
      hide Used;
      if id >= nextId || blocked || !Accepts(Data(plans, offerings, courses, planCourses), id) {
        return Refused;
      }
      planCourses := map k | k in planCourses && planCourses[k].uploadLogId != Some(id) :: planCourses[k];
      courses := map c | c in courses && courses[c].uploadLogId != Some(id) :: courses[c];
      offerings := set o | o in offerings &&
        !(o.0 in plans && plans[o.0].uploadLogId == Some(id) && !Used(planCourses, o));
      plans := map p | p in plans && plans[p].uploadLogId != Some(id) :: plans[p];
      survivors := Without(survivors, id);
      done := Ok("ok");
    }
  }
}
