/**
 * audit.fn_upload_projects and audit.fn_rollback_projects. Evaluators are not versioned on a stack:
 * an upload deactivates rows and marks them, and its rollback reactivates what it marked.
 */
module Projects {
  import opened Wrappers
  import opened EvaluatorLists

  datatype Project = Project(uploadLogId: Option<nat>, nameEs: string, nameEn: string)

  /** period: the academic period of the section the enrollment is in. */
  datatype Student = Student(project: string, enrollment: nat, period: int, uploadLogId: Option<nat>)

  datatype Evaluator = Evaluator(project: string, professor: nat, role: nat, uploadLogId: Option<nat>,
                                 active: bool, deactivatedBy: Option<nat>)

  /** Projects by their unique code, the other two tables by row id. */
  datatype Data = Data(projects: map<string, Project>, students: map<nat, Student>, evaluators: map<nat, Evaluator>)

  /** The tables and the two id sequences, which a rollback does not turn back. */
  datatype Work = Work(data: Data, nextStudent: nat, nextEvaluator: nat)

  /**
   * One row of the query over the file: a project, the enrollments found for its students, and for
   * each evaluator type the cell that MAX picked (None when all are blank).
   */
  datatype Group = Group(code: string, nameEs: string, nameEn: string, enrollments: seq<nat>,
                         cells: seq<Option<string>>)

  /** Professors by code. */
  type Catalog = map<string, nat>

  // ---------------------------------------------------------------- one evaluator column

  predicate InSlot(e: Evaluator, project: string, role: nat) {
    e.project == project && e.role == role
  }

  predicate ActiveFor(evaluators: map<nat, Evaluator>, project: string, role: nat, professor: nat) {
    exists k | k in evaluators ::
      InSlot(evaluators[k], project, role) && evaluators[k].active && evaluators[k].professor == professor
  }

  /** UPDATE: the active evaluators of this type that the list does not name. */
  function Deactivate(evaluators: map<nat, Evaluator>, project: string, role: nat, listed: seq<nat>, logId: nat)
    : map<nat, Evaluator>
  {
    map k | k in evaluators ::
      var e := evaluators[k];
      if InSlot(e, project, role) && e.active && e.professor !in listed
      then e.(active := false, deactivatedBy := Some(logId)) else e
  }

  /** INSERT: the listed professors that are not active yet. */
  function AddMissing(evaluators: map<nat, Evaluator>, next: nat, project: string, role: nat, listed: seq<nat>,
                      logId: nat)
    : (map<nat, Evaluator>, nat)
  {
    if listed == [] then (evaluators, next)
    else
      var (before, n) := AddMissing(evaluators, next, project, role, listed[..|listed| - 1], logId);
      var p := listed[|listed| - 1];
      if ActiveFor(before, project, role, p) then (before, n)
      else (before[n := Evaluator(project, p, role, Some(logId), true, None)], n + 1)
  }

  function Reconcile(w: Work, project: string, role: nat, listed: seq<nat>, logId: nat): Work {
    var kept := Deactivate(w.data.evaluators, project, role, listed, logId);
    var (evaluators, next) := AddMissing(kept, w.nextEvaluator, project, role, listed, logId);
    Work(w.data.(evaluators := evaluators), w.nextStudent, next)
  }

  // ---------------------------------------------------------------- invariants

  /** Foreign keys, unused ids, and: a row carries a mark only while it is inactive. */
  ghost predicate WorkOk(w: Work) {
    && (forall k :: k in w.data.students ==> w.data.students[k].project in w.data.projects && k < w.nextStudent)
    && (forall k :: k in w.data.evaluators ==>
          && w.data.evaluators[k].project in w.data.projects && k < w.nextEvaluator
          && (w.data.evaluators[k].active ==> w.data.evaluators[k].deactivatedBy == None))
  }

  /** At most one active row for a project, professor and type. */
  ghost predicate OneActive(evaluators: map<nat, Evaluator>) {
    forall j, k :: j in evaluators && k in evaluators && j != k ==> !Twins(evaluators[j], evaluators[k])
  }

  predicate Twins(d: Evaluator, e: Evaluator) {
    d.active && e.active && SameSlot(d, e)
  }

  predicate SameSlot(d: Evaluator, e: Evaluator) {
    d.project == e.project && d.role == e.role && d.professor == e.professor
  }

  /** No row of the database mentions this upload. */
  ghost predicate Unmentioned(d: Data, logId: nat) {
    && (forall c :: c in d.projects ==> d.projects[c].uploadLogId != Some(logId))
    && (forall k :: k in d.students ==> d.students[k].uploadLogId != Some(logId))
    && (forall k :: k in d.evaluators ==>
          d.evaluators[k].uploadLogId != Some(logId) && d.evaluators[k].deactivatedBy != Some(logId))
  }

  // ---------------------------------------------------------------- reconciliation is assignment

  ghost predicate Fresh(evaluators: map<nat, Evaluator>, next: nat) {
    forall k :: k in evaluators ==> k < next
  }

  /** What AddMissing leaves: the old rows, and for each listed professor an active row. */
  ghost predicate Added(before: map<nat, Evaluator>, after: map<nat, Evaluator>, next: nat, project: string, role: nat,
                        listed: seq<nat>, logId: nat)
  {
    && (forall k :: k in before ==> k in after && after[k] == before[k])
    && (forall k :: k in after && k !in before ==>
          next <= k && after[k].professor in listed &&
          after[k] == Evaluator(project, after[k].professor, role, Some(logId), true, None))
    && (forall p :: p in listed ==> ActiveFor(after, project, role, p))
  }

  lemma AddOne(before: map<nat, Evaluator>, now: map<nat, Evaluator>, next: nat, n: nat, project: string, role: nat,
               init: seq<nat>, p: nat, logId: nat)
    requires Added(before, now, next, project, role, init, logId) && next <= n && Fresh(now, n)
    requires !ActiveFor(now, project, role, p)
    ensures var after := now[n := Evaluator(project, p, role, Some(logId), true, None)];
      && Added(before, after, next, project, role, init + [p], logId)
      && Fresh(after, n + 1)
      && (OneActive(now) ==> OneActive(after))
  {
    var after := now[n := Evaluator(project, p, role, Some(logId), true, None)];
    assert n !in now && after[n].professor == p;
    forall q | q in init ensures ActiveFor(after, project, role, q) {
      var k :| k in now && InSlot(now[k], project, role) && now[k].active && now[k].professor == q;
      assert after[k] == now[k];
    }
    assert forall k :: k in now ==> !Twins(now[k], after[n]) && !Twins(after[n], now[k]);
  }

  lemma AddNone(before: map<nat, Evaluator>, now: map<nat, Evaluator>, next: nat, project: string, role: nat,
                init: seq<nat>, p: nat, logId: nat)
    requires Added(before, now, next, project, role, init, logId) && ActiveFor(now, project, role, p)
    ensures Added(before, now, next, project, role, init + [p], logId)
  {}

  lemma {:induction false} AddMissingExact(evaluators: map<nat, Evaluator>, next: nat, project: string, role: nat,
                                          listed: seq<nat>, logId: nat)
    requires Fresh(evaluators, next)
    ensures var (after, n) := AddMissing(evaluators, next, project, role, listed, logId);
      && next <= n && Fresh(after, n) && Added(evaluators, after, next, project, role, listed, logId)
      && (OneActive(evaluators) ==> OneActive(after))
  {
    if listed != [] {
      hide Added, Fresh, OneActive, ActiveFor;
      var init, p := listed[..|listed| - 1], listed[|listed| - 1];
      assert listed == init + [p];
      AddMissingExact(evaluators, next, project, role, init, logId);
      var (now, n) := AddMissing(evaluators, next, project, role, init, logId);
      if ActiveFor(now, project, role, p) {
        AddNone(evaluators, now, next, project, role, init, p, logId);
      } else {
        AddOne(evaluators, now, next, n, project, role, init, p, logId);
      }
    }
  }

  /** A row the assignment has no business with: another slot, not active, or already listed. */
  predicate Untouchable(e: Evaluator, project: string, role: nat, listed: seq<nat>) {
    !InSlot(e, project, role) || !e.active || e.professor in listed
  }

  /**
   * For one project and type, deactivating and then inserting is plain assignment: afterwards the
   * professors with an active row are exactly the listed ones, rows that were already right are not
   * touched, and neither is any other project or type.
   */
  lemma ReconcileAssigns(w: Work, project: string, role: nat, listed: seq<nat>, logId: nat)
    requires WorkOk(w)
    ensures var d := Reconcile(w, project, role, listed, logId).data;
      && (forall p :: ActiveFor(d.evaluators, project, role, p) <==> p in listed)
      && (forall k :: k in w.data.evaluators ==> k in d.evaluators)
      && (forall k :: k in w.data.evaluators && Untouchable(w.data.evaluators[k], project, role, listed) ==>
            d.evaluators[k] == w.data.evaluators[k])
      && (forall k :: k in d.evaluators && k !in w.data.evaluators ==> InSlot(d.evaluators[k], project, role))
      && d.projects == w.data.projects && d.students == w.data.students
  {
    var kept := Deactivate(w.data.evaluators, project, role, listed, logId);
    AddMissingExact(kept, w.nextEvaluator, project, role, listed, logId);
  }

  lemma DeactivateKeepsOne(evaluators: map<nat, Evaluator>, project: string, role: nat, listed: seq<nat>, logId: nat)
    requires OneActive(evaluators)
    ensures OneActive(Deactivate(evaluators, project, role, listed, logId))
  {}

  lemma ReconcileKeepsOne(w: Work, project: string, role: nat, listed: seq<nat>, logId: nat)
    requires WorkOk(w) && OneActive(w.data.evaluators)
    ensures OneActive(Reconcile(w, project, role, listed, logId).data.evaluators)
  {
    var kept := Deactivate(w.data.evaluators, project, role, listed, logId);
    DeactivateKeepsOne(w.data.evaluators, project, role, listed, logId);
    AddMissingExact(kept, w.nextEvaluator, project, role, listed, logId);
  }

  // ---------------------------------------------------------------- a whole upload

  /** The SELECT of v_existing_id: the project has a student enrolled in this period. */
  predicate Existing(d: Data, code: string, period: int) {
    code in d.projects && exists k | k in d.students :: d.students[k].project == code && d.students[k].period == period
  }

  function AddStudents(w: Work, code: string, period: int, enrollments: seq<nat>, logId: nat): Work {
    if enrollments == [] then w
    else
      var v := AddStudents(w, code, period, enrollments[..|enrollments| - 1], logId);
      var s := Student(code, enrollments[|enrollments| - 1], period, Some(logId));
      Work(v.data.(students := v.data.students[v.nextStudent := s]), v.nextStudent + 1, v.nextEvaluator)
  }

  /** The professors that a group lists for a type; a blank cell lists nobody. */
  function ListedFor(g: Group, role: nat, professors: Catalog): seq<nat> {
    if role < |g.cells| then Listed(Codes(g.cells[role]), professors) else []
  }

  /** The inner loop over evaluator types. */
  function ReconcileAll(w: Work, g: Group, types: nat, logId: nat, professors: Catalog): Work {
    if types == 0 then w
    else
      var role := types - 1;
      Reconcile(ReconcileAll(w, g, role, logId, professors), g.code, role, ListedFor(g, role, professors), logId)
  }

  const TYPES: nat := 5

  /** The project of a group: found, or created with its students. None: UNIQUE (code) aborts the upload. */
  function Prepared(w: Work, g: Group, period: int, logId: nat): Option<Work> {
    if Existing(w.data, g.code, period) then Some(w)
    else if g.code in w.data.projects then None
    else
      var p := Project(Some(logId), g.nameEs, g.nameEn);
      var created := w.(data := w.data.(projects := w.data.projects[g.code := p]));
      Some(AddStudents(created, g.code, period, g.enrollments, logId))
  }

  function LoadGroup(w: Work, g: Group, period: int, logId: nat, professors: Catalog): Option<Work> {
    match Prepared(w, g, period, logId)
    case None => None
    case Some(v) => Some(ReconcileAll(v, g, TYPES, logId, professors))
  }

  function Load(w: Work, groups: seq<Group>, period: int, logId: nat, professors: Catalog): Option<Work> {
    if groups == [] then Some(w)
    else match Load(w, groups[..|groups| - 1], period, logId, professors)
      case None => None
      case Some(v) => LoadGroup(v, groups[|groups| - 1], period, logId, professors)
  }

  function Own(d: Data, logId: nat): set<string> {
    set c | c in d.projects && d.projects[c].uploadLogId == Some(logId)
  }

  /** The first statement of the rollback: what the upload deactivated is active again. */
  function Reactivate(evaluators: map<nat, Evaluator>, logId: nat): map<nat, Evaluator> {
    map k | k in evaluators ::
      if evaluators[k].deactivatedBy == Some(logId)
      then evaluators[k].(active := true, deactivatedBy := None) else evaluators[k]
  }

  /** The two DELETE statements over evaluators. */
  function DropAdded(evaluators: map<nat, Evaluator>, own: set<string>, logId: nat): map<nat, Evaluator> {
    map k | k in evaluators && evaluators[k].uploadLogId != Some(logId) && evaluators[k].project !in own ::
      evaluators[k]
  }

  function Rollback(d: Data, logId: nat): Data {
    var own := Own(d, logId);
    Data(map c | c in d.projects && c !in own :: d.projects[c],
         map k | k in d.students && d.students[k].project !in own :: d.students[k],
         DropAdded(Reactivate(d.evaluators, logId), own, logId))
  }

  // ---------------------------------------------------------------- undo, last in first out

  predicate Deactivated(before: Evaluator, now: Evaluator, logId: nat) {
    before.active && now == before.(active := false, deactivatedBy := Some(logId))
  }

  ghost predicate EvaluatorsGrown(before: map<nat, Evaluator>, now: map<nat, Evaluator>, logId: nat) {
    && (forall k :: k in before ==> k in now)
    && (forall k :: k in before ==> now[k] == before[k] || Deactivated(before[k], now[k], logId))
    && (forall k :: k in now && k !in before ==>
          now[k].uploadLogId == Some(logId) && now[k].deactivatedBy in {None, Some(logId)})
  }

  /** What an upload may have done so far to the rows there were, and what the new rows look like. */
  ghost predicate Grown(before: Data, d: Data, logId: nat) {
    && (forall c :: c in before.projects ==> c in d.projects && d.projects[c] == before.projects[c])
    && (forall c :: c in d.projects && c !in before.projects ==> d.projects[c].uploadLogId == Some(logId))
    && (forall k :: k in before.students ==> k in d.students && d.students[k] == before.students[k])
    && (forall k :: k in d.students && k !in before.students ==> d.students[k].project !in before.projects)
    && (forall k :: k in d.students && k !in before.students ==> d.students[k].uploadLogId == Some(logId))
    && EvaluatorsGrown(before.evaluators, d.evaluators, logId)
  }

  lemma EvaluatorsRestored(before: map<nat, Evaluator>, now: map<nat, Evaluator>, own: set<string>, logId: nat)
    requires EvaluatorsGrown(before, now, logId)
    requires forall k :: k in before ==> (before[k].active ==> before[k].deactivatedBy == None)
    requires forall k :: k in before ==> before[k].uploadLogId != Some(logId) && before[k].deactivatedBy != Some(logId)
    requires forall k :: k in before ==> before[k].project !in own
    ensures DropAdded(Reactivate(now, logId), own, logId) == before
  {
    var r := Reactivate(now, logId);
    forall k | k in before ensures r[k] == before[k] {}
    forall k | k in now && k !in before ensures r[k].uploadLogId == Some(logId) {}
    assert DropAdded(r, own, logId).Keys == before.Keys;
  }

  /** Whatever an upload did, its rollback takes back, as long as nothing else came in between. */
  lemma RollbackRestores(w: Work, d: Data, logId: nat)
    requires WorkOk(w) && Unmentioned(w.data, logId)
    requires Grown(w.data, d, logId) && forall k :: k in d.students ==> d.students[k].project in d.projects
    ensures Rollback(d, logId) == w.data
  {
    var own := Own(d, logId);
    assert forall c :: c in d.projects ==> (c in own <==> c !in w.data.projects);
    assert (map c | c in d.projects && c !in own :: d.projects[c]) == w.data.projects;
    assert (map k | k in d.students && d.students[k].project !in own :: d.students[k]) == w.data.students;
    EvaluatorsRestored(w.data.evaluators, d.evaluators, own, logId);
  }

  /** An upload under way: where it has come from `before`, with all invariants intact. */
  ghost predicate UnderWay(before: Work, w: Work, logId: nat) {
    && WorkOk(w) && Grown(before.data, w.data, logId)
    && before.nextStudent <= w.nextStudent && before.nextEvaluator <= w.nextEvaluator
    && (OneActive(before.data.evaluators) ==> OneActive(w.data.evaluators))
  }

  lemma DeactivateGrown(before: map<nat, Evaluator>, now: map<nat, Evaluator>, project: string, role: nat,
                        listed: seq<nat>, logId: nat)
    requires EvaluatorsGrown(before, now, logId)
    ensures EvaluatorsGrown(before, Deactivate(now, project, role, listed, logId), logId)
  {}

  lemma AddedGrown(before: map<nat, Evaluator>, kept: map<nat, Evaluator>, after: map<nat, Evaluator>, next: nat,
                   project: string, role: nat, listed: seq<nat>, logId: nat)
    requires EvaluatorsGrown(before, kept, logId) && Added(kept, after, next, project, role, listed, logId)
    ensures EvaluatorsGrown(before, after, logId)
  {
    hide ActiveFor;
  }

  lemma ReconcileWorkOk(w: Work, project: string, role: nat, listed: seq<nat>, logId: nat)
    requires WorkOk(w) && project in w.data.projects
    ensures WorkOk(Reconcile(w, project, role, listed, logId))
    ensures w.nextEvaluator <= Reconcile(w, project, role, listed, logId).nextEvaluator
  {
    hide ActiveFor;
    AddMissingExact(Deactivate(w.data.evaluators, project, role, listed, logId), w.nextEvaluator, project, role,
      listed, logId);
  }

  lemma ReconcileGrown(before: map<nat, Evaluator>, w: Work, project: string, role: nat, listed: seq<nat>, logId: nat)
    requires WorkOk(w) && EvaluatorsGrown(before, w.data.evaluators, logId)
    ensures EvaluatorsGrown(before, Reconcile(w, project, role, listed, logId).data.evaluators, logId)
  {
    var kept := Deactivate(w.data.evaluators, project, role, listed, logId);
    DeactivateGrown(before, w.data.evaluators, project, role, listed, logId);
    AddMissingExact(kept, w.nextEvaluator, project, role, listed, logId);
    hide EvaluatorsGrown, Added;
    AddedGrown(before, kept, AddMissing(kept, w.nextEvaluator, project, role, listed, logId).0, w.nextEvaluator,
               project, role, listed, logId);
  }

  lemma ReconcileUnderWay(before: Work, w: Work, project: string, role: nat, listed: seq<nat>, logId: nat)
    requires UnderWay(before, w, logId) && project in w.data.projects
    ensures UnderWay(before, Reconcile(w, project, role, listed, logId), logId)
    ensures Reconcile(w, project, role, listed, logId).data.projects == w.data.projects
  {
    ReconcileWorkOk(w, project, role, listed, logId);
    ReconcileGrown(before.data.evaluators, w, project, role, listed, logId);
    if OneActive(w.data.evaluators) {
      ReconcileKeepsOne(w, project, role, listed, logId);
    }
    hide WorkOk, OneActive, EvaluatorsGrown, Deactivate, AddMissing;
  }

  lemma {:induction false} ReconcileAllUnderWay(before: Work, w: Work, g: Group, types: nat, logId: nat,
                                                professors: Catalog)
    requires UnderWay(before, w, logId) && g.code in w.data.projects
    ensures UnderWay(before, ReconcileAll(w, g, types, logId, professors), logId)
    ensures ReconcileAll(w, g, types, logId, professors).data.projects == w.data.projects
  {
    hide UnderWay, Reconcile, ListedFor;
    if types > 0 {
      var role := types - 1;
      ReconcileAllUnderWay(before, w, g, role, logId, professors);
      ReconcileUnderWay(before, ReconcileAll(w, g, role, logId, professors), g.code, role,
                        ListedFor(g, role, professors), logId);
    }
  }

  lemma AddStudentUnderWay(before: Work, w: Work, s: Student, logId: nat)
    requires UnderWay(before, w, logId) && s.project in w.data.projects && s.project !in before.data.projects
    requires WorkOk(before) && s.uploadLogId == Some(logId)
    ensures UnderWay(before, Work(w.data.(students := w.data.students[w.nextStudent := s]),
                                  w.nextStudent + 1, w.nextEvaluator), logId)
  {}

  lemma {:induction false} AddStudentsUnderWay(before: Work, w: Work, code: string, period: int,
                                               enrollments: seq<nat>, logId: nat)
    requires UnderWay(before, w, logId) && WorkOk(before)
    requires code in w.data.projects && code !in before.data.projects
    ensures UnderWay(before, AddStudents(w, code, period, enrollments, logId), logId)
    ensures AddStudents(w, code, period, enrollments, logId).data.projects == w.data.projects
  {
    hide UnderWay;
    if enrollments != [] {
      var init, e := enrollments[..|enrollments| - 1], enrollments[|enrollments| - 1];
      AddStudentsUnderWay(before, w, code, period, init, logId);
      AddStudentUnderWay(before, AddStudents(w, code, period, init, logId), Student(code, e, period, Some(logId)),
        logId);
    }
  }

  lemma CreateUnderWay(before: Work, w: Work, code: string, p: Project, logId: nat)
    requires UnderWay(before, w, logId) && code !in w.data.projects && p.uploadLogId == Some(logId)
    ensures UnderWay(before, w.(data := w.data.(projects := w.data.projects[code := p])), logId)
    ensures code !in before.data.projects
  {}

  lemma LoadGroupUnderWay(before: Work, w: Work, g: Group, period: int, logId: nat, professors: Catalog)
    requires WorkOk(before) && UnderWay(before, w, logId) && LoadGroup(w, g, period, logId, professors).Some?
    ensures UnderWay(before, LoadGroup(w, g, period, logId, professors).value, logId)
  {
    hide UnderWay, AddStudents, ReconcileAll;
    if Existing(w.data, g.code, period) {
      ReconcileAllUnderWay(before, w, g, TYPES, logId, professors);
    } else {
      var p := Project(Some(logId), g.nameEs, g.nameEn);
      var created := w.(data := w.data.(projects := w.data.projects[g.code := p]));
      CreateUnderWay(before, w, g.code, p, logId);
      AddStudentsUnderWay(before, created, g.code, period, g.enrollments, logId);
      ReconcileAllUnderWay(before, AddStudents(created, g.code, period, g.enrollments, logId), g, TYPES, logId,
        professors);
    }
  }

  lemma {:induction false} LoadUnderWay(before: Work, groups: seq<Group>, period: int, logId: nat, professors: Catalog)
    requires WorkOk(before) && Load(before, groups, period, logId, professors).Some?
    ensures UnderWay(before, Load(before, groups, period, logId, professors).value, logId)
  {
    if groups != [] {
      hide UnderWay, LoadGroup;
      var init := groups[..|groups| - 1];
      LoadUnderWay(before, init, period, logId, professors);
      LoadGroupUnderWay(before, Load(before, init, period, logId, professors).value, groups[|groups| - 1], period,
        logId, professors);
    }
  }

  /** An upload and its rollback with nothing in between: all three tables are what they were. */
  lemma UploadThenRollback(w: Work, groups: seq<Group>, period: int, logId: nat, professors: Catalog)
    requires WorkOk(w) && Unmentioned(w.data, logId) && Load(w, groups, period, logId, professors).Some?
    ensures Rollback(Load(w, groups, period, logId, professors).value.data, logId) == w.data
  {
    LoadUnderWay(w, groups, period, logId, professors);
    RollbackRestores(w, Load(w, groups, period, logId, professors).value.data, logId);
  }

  lemma ReconcileKeepsSlot(w: Work, project: string, role: nat, listed: seq<nat>, logId: nat, k: nat)
    requires WorkOk(w) && k in w.data.evaluators
    ensures k in Reconcile(w, project, role, listed, logId).data.evaluators
    ensures SameSlot(Reconcile(w, project, role, listed, logId).data.evaluators[k], w.data.evaluators[k])
  {
    AddMissingExact(Deactivate(w.data.evaluators, project, role, listed, logId), w.nextEvaluator, project, role,
      listed, logId);
  }

  /** Assigning one slot leaves the other types and projects as they are. */
  lemma OtherSlotsUntouched(
      w: Work, project: string, role: nat, listed: seq<nat>, logId: nat, project': string, role': nat, p: nat)
    requires WorkOk(w) && (project' != project || role' != role)
    ensures ActiveFor(Reconcile(w, project, role, listed, logId).data.evaluators, project', role', p) <==>
            ActiveFor(w.data.evaluators, project', role', p)
  {
    ReconcileAssigns(w, project, role, listed, logId);
    var d, d' := w.data.evaluators, Reconcile(w, project, role, listed, logId).data.evaluators;
    hide Reconcile, WorkOk;
    if k :| k in d && InSlot(d[k], project', role') && d[k].active && d[k].professor == p {
      assert Untouchable(d[k], project, role, listed) && d'[k] == d[k];
    }
    if k :| k in d' && InSlot(d'[k], project', role') && d'[k].active && d'[k].professor == p {
      assert k in d;
      if InSlot(d[k], project, role) {
        ReconcileKeepsSlot(w, project, role, listed, logId, k);
      } else {
        assert Untouchable(d[k], project, role, listed) && d'[k] == d[k];
      }
    }
  }

  /** A whole group: for each of the five types, exactly the professors listed in its cell are active. */
  lemma {:induction false} GroupAssigns(before: Work, w: Work, g: Group, types: nat, logId: nat, professors: Catalog,
                                        role: nat, p: nat)
    requires UnderWay(before, w, logId) && g.code in w.data.projects && role < types
    ensures ActiveFor(ReconcileAll(w, g, types, logId, professors).data.evaluators, g.code, role, p) <==>
            p in ListedFor(g, role, professors)
  {
    hide ListedFor, Reconcile, ActiveFor;
    var last := types - 1;
    var v := ReconcileAll(w, g, last, logId, professors);
    var listed := ListedFor(g, last, professors);
    ReconcileAllUnderWay(before, w, g, last, logId, professors);
    ReconcileAssigns(v, g.code, last, listed, logId);
    if role < last {
      GroupAssigns(before, w, g, last, logId, professors, role, p);
      OtherSlotsUntouched(v, g.code, last, listed, logId, g.code, role, p);
    }
  }

  // ---------------------------------------------------------------- out of order

  /** The rollback reactivates or keeps this row, and its project stays. */
  predicate Stays(d: Data, e: Evaluator, logId: nat) {
    e.uploadLogId != Some(logId) && e.project !in Own(d, logId)
  }

  /** Row j was deactivated by this upload, and row k is or would again be active in its place. */
  predicate Replaces(d: Data, j: nat, k: nat, logId: nat)
    requires j in d.evaluators && k in d.evaluators
  {
    && j != k && d.evaluators[j].deactivatedBy == Some(logId)
    && (d.evaluators[k].active || d.evaluators[k].deactivatedBy == Some(logId))
    && SameSlot(d.evaluators[j], d.evaluators[k])
    && Stays(d, d.evaluators[j], logId) && Stays(d, d.evaluators[k], logId)
  }

  /** A row this upload deactivated has meanwhile been replaced: another row holds its place. */
  ghost predicate Replaced(d: Data, logId: nat) {
    exists j, k :: j in d.evaluators && k in d.evaluators && Replaces(d, j, k, logId)
  }

  lemma AfterRollback(d: Data, logId: nat, k: nat)
    ensures k in Rollback(d, logId).evaluators <==> k in d.evaluators && Stays(d, d.evaluators[k], logId)
    ensures k in Rollback(d, logId).evaluators ==>
              && SameSlot(Rollback(d, logId).evaluators[k], d.evaluators[k])
              && Rollback(d, logId).evaluators[k].active ==
                 (d.evaluators[k].active || d.evaluators[k].deactivatedBy == Some(logId))
  {}

  /** Rolling back any upload, in any order, keeps active rows single exactly when none was replaced. */
  lemma RollbackKeepsOneIff(d: Data, logId: nat)
    requires OneActive(d.evaluators)
    ensures OneActive(Rollback(d, logId).evaluators) <==> !Replaced(d, logId)
  {
    hide Rollback, Stays;
    var after := Rollback(d, logId).evaluators;
    if j, k :| j in after && k in after && j != k && Twins(after[j], after[k]) {
      AfterRollback(d, logId, j);
      AfterRollback(d, logId, k);
      assert !Twins(d.evaluators[j], d.evaluators[k]);
      assert Replaces(d, j, k, logId) || Replaces(d, k, j, logId);
    }
    if j, k :| j in d.evaluators && k in d.evaluators && Replaces(d, j, k, logId) {
      AfterRollback(d, logId, j);
      AfterRollback(d, logId, k);
      assert Twins(after[j], after[k]);
    }
  }

  // ---------------------------------------------------------------- the functions themselves

  /** DELETE of the evaluators that the upload added to projects older than it. */
  function DeleteFromOld(evaluators: map<nat, Evaluator>, own: set<string>, logId: nat): map<nat, Evaluator> {
    map k | k in evaluators && !(evaluators[k].uploadLogId == Some(logId) && evaluators[k].project !in own) ::
      evaluators[k]
  }

  /** DELETE of all evaluators of the projects that the upload created. */
  function DeleteFromOwn(evaluators: map<nat, Evaluator>, own: set<string>): map<nat, Evaluator> {
    map k | k in evaluators && evaluators[k].project !in own :: evaluators[k]
  }

  lemma DeletesAgree(evaluators: map<nat, Evaluator>, own: set<string>, logId: nat)
    ensures DeleteFromOwn(DeleteFromOld(evaluators, own, logId), own) == DropAdded(evaluators, own, logId)
  {
    assert DeleteFromOwn(DeleteFromOld(evaluators, own, logId), own).Keys == DropAdded(evaluators, own, logId).Keys;
  }

  class ProjectTables {
    var projects: map<string, Project>
    var students: map<nat, Student>
    var evaluators: map<nat, Evaluator>
    var nextStudent: nat
    var nextEvaluator: nat
    var nextId: nat

    ghost function Now(): Work
      reads this
    {
      Work(Data(projects, students, evaluators), nextStudent, nextEvaluator)
    }

    constructor (w: Work, nextId: nat)
      ensures Now() == w && this.nextId == nextId
    {
      projects, students, evaluators := w.data.projects, w.data.students, w.data.evaluators;
      nextStudent, nextEvaluator := w.nextStudent, w.nextEvaluator;
      this.nextId := nextId;
    }

    /** UPDATE and INSERT for one project and one evaluator type. */
    method ReconcileSlot(project: string, role: nat, listed: seq<nat>, logId: nat)
      modifies this`evaluators, this`nextEvaluator
      ensures Now() == Reconcile(old(Now()), project, role, listed, logId)
    {
      evaluators := Deactivate(evaluators, project, role, listed, logId);
      ghost var kept := evaluators;
      for n := 0 to |listed|
        invariant (evaluators, nextEvaluator) == AddMissing(kept, old(nextEvaluator), project, role, listed[..n], logId)
      {
        assert listed[..n + 1][..n] == listed[..n];
        if !ActiveFor(evaluators, project, role, listed[n]) {
          evaluators := evaluators[nextEvaluator := Evaluator(project, listed[n], role, Some(logId), true, None)];
          nextEvaluator := nextEvaluator + 1;
        }
      }
      assert listed[..|listed|] == listed;
    }

    method EnrollStudents(code: string, period: int, enrollments: seq<nat>, logId: nat)
      modifies this`students, this`nextStudent
      ensures Now() == AddStudents(old(Now()), code, period, enrollments, logId)
    {
      for n := 0 to |enrollments|
        invariant Now() == AddStudents(old(Now()), code, period, enrollments[..n], logId)
      {
        assert enrollments[..n + 1][..n] == enrollments[..n];
        students := students[nextStudent := Student(code, enrollments[n], period, Some(logId))];
        nextStudent := nextStudent + 1;
      }
      assert enrollments[..|enrollments|] == enrollments;
    }

    /** One turn of the loop over projects; false when UNIQUE (code) is violated. */
    method LoadOne(g: Group, period: int, logId: nat, professors: Catalog) returns (ok: bool)
      modifies this`projects, this`students, this`evaluators, this`nextStudent, this`nextEvaluator
      ensures ok <==> LoadGroup(old(Now()), g, period, logId, professors).Some?
      ensures ok ==> Some(Now()) == LoadGroup(old(Now()), g, period, logId, professors)
    {
      hide Reconcile, AddStudents;
      if !Existing(Data(projects, students, evaluators), g.code, period) {
        if g.code in projects {
          return false;
        }
        projects := projects[g.code := Project(Some(logId), g.nameEs, g.nameEn)];
        EnrollStudents(g.code, period, g.enrollments, logId);
      }
      ghost var start := Now();
      for role := 0 to TYPES
        invariant Now() == ReconcileAll(start, g, role, logId, professors)
      {
        ReconcileSlot(g.code, role, ListedFor(g, role, professors), logId);
      }
      ok := true;
    }

    /** The whole upload is one transaction: an aborted one leaves no trace. */
    method UploadFile(groups: seq<Group>, period: int, professors: Catalog, hasErrors: bool)
      returns (logId: Option<nat>)
      modifies this
      ensures var loaded := Load(old(Now()), groups, period, old(nextId), professors);
              if hasErrors || loaded == None then Now() == old(Now()) && logId == None && nextId == old(nextId)
              else Now() == loaded.value && logId == Some(old(nextId)) && nextId == old(nextId) + 1
    {
      hide Load;
      if hasErrors {
        return None;
      }
      var before := (projects, students, evaluators, nextStudent, nextEvaluator);
      var ok := LoadAll(groups, period, nextId, professors);
      if !ok {
        projects, students, evaluators := before.0, before.1, before.2;
        nextStudent, nextEvaluator := before.3, before.4;
        return None;
      }
      logId := Some(nextId);
      nextId := nextId + 1;
    }

    /** The loop over projects, which stops where UNIQUE (code) is violated. */
    method LoadAll(groups: seq<Group>, period: int, logId: nat, professors: Catalog) returns (ok: bool)
      modifies this`projects, this`students, this`evaluators, this`nextStudent, this`nextEvaluator
      ensures ok <==> Load(old(Now()), groups, period, logId, professors).Some?
      ensures ok ==> Some(Now()) == Load(old(Now()), groups, period, logId, professors)
    {
      hide LoadGroup, Load;
      ghost var start := Now();
      LoadNext(start, groups, period, logId, professors, 0);
      for n := 0 to |groups|
        invariant Load(start, groups[..n], period, logId, professors) == Some(Now())
      {
        LoadNext(start, groups, period, logId, professors, n);
        ok := LoadOne(groups[n], period, logId, professors);
        if !ok {
          LoadAborts(start, groups, period, logId, professors, n + 1);
          return;
        }
      }
      assert groups[..|groups|] == groups;
      ok := true;
    }

    /** fn_rollback_projects, statement by statement; it takes any upload id, in any order. */
    method RollbackUpload(logId: nat, blocked: bool) returns (done: Outcome<()>)
      modifies this`projects, this`students, this`evaluators
      ensures done == Refused <==> logId >= nextId || blocked
      ensures Now() == if done == Refused then old(Now())
                       else old(Now()).(data := Rollback(old(Now()).data, logId))
    {
      if logId >= nextId || blocked {
        return Refused;
      }
      hide Reactivate, DropAdded, DeleteFromOld, DeleteFromOwn;
      var own := Own(Data(projects, students, evaluators), logId);
      DeletesAgree(Reactivate(evaluators, logId), own, logId);
      evaluators := Reactivate(evaluators, logId);
      evaluators := DeleteFromOld(evaluators, own, logId);
      evaluators := DeleteFromOwn(evaluators, own);
      students := map k | k in students && students[k].project !in own :: students[k];
      projects := map c | c in projects && c !in own :: projects[c];
      done := Ok(());
    }
  }

  lemma LoadNext(w: Work, groups: seq<Group>, period: int, logId: nat, professors: Catalog, n: nat)
    requires n <= |groups|
    ensures Load(w, groups[..0], period, logId, professors) == Some(w)
    ensures n < |groups| ==>
              Load(w, groups[..n + 1], period, logId, professors) ==
              match Load(w, groups[..n], period, logId, professors)
              case None => None
              case Some(v) => LoadGroup(v, groups[n], period, logId, professors)
  {
    hide LoadGroup;
    if n < |groups| {
      assert groups[..n + 1][..n] == groups[..n];
    }
  }

  lemma {:induction false} LoadAborts(w: Work, groups: seq<Group>, period: int, logId: nat, professors: Catalog, n: nat)
    requires n <= |groups| && Load(w, groups[..n], period, logId, professors) == None
    ensures Load(w, groups, period, logId, professors) == None
  {
    if n == |groups| {
      assert groups[..n] == groups;
    } else {
      assert groups[..|groups| - 1][..n] == groups[..n];
      LoadAborts(w, groups[..|groups| - 1], period, logId, professors, n);
    }
  }
}
