/**
 * What an upload of projects leaves in the three tables, for each of the five evaluator types and for the
 * projects it creates.
 */
module ProjectEffects {
  import opened Wrappers
  import opened EvaluatorLists
  import opened Projects

  /** Some active row makes this professor an evaluator of this type. */
  ghost predicate Evaluates(d: Data, project: string, role: nat, p: nat) {
    exists k :: k in d.evaluators && d.evaluators[k].active && d.evaluators[k].project == project &&
                d.evaluators[k].role == role && d.evaluators[k].professor == p
  }

  /** The cell of this type has a code of this professor. */
  ghost predicate NamedIn(g: Group, role: nat, professors: Catalog, p: nat) {
    role < |g.cells| && exists c :: c in Codes(g.cells[role]) && c in professors && professors[c] == p
  }

  ghost predicate InPeriod(d: Data, code: string, period: int) {
    code in d.projects && exists k :: k in d.students && d.students[k].project == code && d.students[k].period == period
  }

  lemma EvaluatesExact(d: Data, project: string, role: nat, p: nat)
    ensures ActiveFor(d.evaluators, project, role, p) <==> Evaluates(d, project, role, p)
  {
    if k :| k in d.evaluators && d.evaluators[k].active && d.evaluators[k].project == project &&
            d.evaluators[k].role == role && d.evaluators[k].professor == p {
      assert InSlot(d.evaluators[k], project, role);
    }
  }

  lemma NamedExact(g: Group, role: nat, professors: Catalog, p: nat)
    ensures p in ListedFor(g, role, professors) <==> NamedIn(g, role, professors, p)
  {
    hide Codes, Listed;
    if role < |g.cells| {
      ListedExact(Codes(g.cells[role]), professors);
    }
  }

  // ---------------------------------------------------------------- the evaluators of one group

  /** Each row keeps its project and type, and stays as it is outside these types of the project; none is new there. */
  ghost predicate Elsewhere(before: map<nat, Evaluator>, after: map<nat, Evaluator>, code: string, types: nat) {
    && (forall k :: k in before ==>
          && k in after && after[k].project == before[k].project && after[k].role == before[k].role
          && (before[k].project != code || before[k].role >= types ==> after[k] == before[k]))
    && (forall k :: k in after && k !in before ==> after[k].project == code && after[k].role < types)
  }

  lemma SlotElsewhere(w: Work, code: string, role: nat, listed: seq<nat>, logId: nat)
    requires WorkOk(w)
    ensures Elsewhere(w.data.evaluators, Reconcile(w, code, role, listed, logId).data.evaluators, code, role + 1)
  {
    ReconcileAssigns(w, code, role, listed, logId);
    forall k | k in w.data.evaluators
      ensures SameSlot(Reconcile(w, code, role, listed, logId).data.evaluators[k], w.data.evaluators[k])
    {
      ReconcileKeepsSlot(w, code, role, listed, logId, k);
    }
    hide Reconcile, WorkOk, ActiveFor;
  }

  lemma ElsewhereOn(a: map<nat, Evaluator>, b: map<nat, Evaluator>, c: map<nat, Evaluator>, code: string, types: nat)
    requires Elsewhere(a, b, code, types) && Elsewhere(b, c, code, types + 1)
    ensures Elsewhere(a, c, code, types + 1)
  {}

  lemma {:induction false} TypesElsewhere(w: Work, g: Group, types: nat, logId: nat, professors: Catalog)
    requires WorkOk(w) && g.code in w.data.projects
    ensures var v := ReconcileAll(w, g, types, logId, professors);
      && Elsewhere(w.data.evaluators, v.data.evaluators, g.code, types)
      && v.data.projects == w.data.projects && v.data.students == w.data.students && v.nextStudent == w.nextStudent
  {
    hide Elsewhere, WorkOk, Reconcile, ListedFor;
    if types == 0 {
      NothingElsewhere(w.data.evaluators, g.code);
    } else {
      var role := types - 1;
      var v := ReconcileAll(w, g, role, logId, professors);
      TypesElsewhere(w, g, role, logId, professors);
      TypesWorkOk(w, g, role, logId, professors);
      SlotElsewhere(v, g.code, role, ListedFor(g, role, professors), logId);
      SlotKeepsTables(v, g.code, role, ListedFor(g, role, professors), logId);
      ElsewhereOn(w.data.evaluators, v.data.evaluators,
                  Reconcile(v, g.code, role, ListedFor(g, role, professors), logId).data.evaluators, g.code, role);
    }
  }

  lemma NothingElsewhere(m: map<nat, Evaluator>, code: string)
    ensures Elsewhere(m, m, code, 0)
  {}

  lemma SlotKeepsTables(w: Work, code: string, role: nat, listed: seq<nat>, logId: nat)
    ensures var v := Reconcile(w, code, role, listed, logId);
            v.data.projects == w.data.projects && v.data.students == w.data.students && v.nextStudent == w.nextStudent
  {}

  lemma {:induction false} TypesWorkOk(w: Work, g: Group, types: nat, logId: nat, professors: Catalog)
    requires WorkOk(w) && g.code in w.data.projects
    ensures WorkOk(ReconcileAll(w, g, types, logId, professors))
    ensures ReconcileAll(w, g, types, logId, professors).data.projects == w.data.projects
  {
    SelfUnderWay(w, logId);
    ReconcileAllUnderWay(w, w, g, types, logId, professors);
  }

  lemma SelfUnderWay(w: Work, logId: nat)
    requires WorkOk(w)
    ensures UnderWay(w, w, logId)
  {}

  /** All five types, each of them by number, and nothing else. */
  lemma FiveTypes(w: Work, g: Group, logId: nat, professors: Catalog)
    requires WorkOk(w) && g.code in w.data.projects
    ensures var v := ReconcileAll(w, g, TYPES, logId, professors).data;
      && (forall role, p :: 0 <= role < 5 ==>
            (Evaluates(v, g.code, role, p) <==> NamedIn(g, role, professors, p)))
      && Elsewhere(w.data.evaluators, v.evaluators, g.code, 5)
  {
    hide ReconcileAll, Evaluates, NamedIn, Elsewhere, WorkOk, UnderWay;
    SelfUnderWay(w, logId);
    TypesElsewhere(w, g, TYPES, logId, professors);
    var v := ReconcileAll(w, g, TYPES, logId, professors).data;
    forall role: nat, p: nat | role < 5
      ensures Evaluates(v, g.code, role, p) <==> NamedIn(g, role, professors, p)
    {
      GroupAssigns(w, w, g, TYPES, logId, professors, role, p);
      EvaluatesExact(v, g.code, role, p);
      NamedExact(g, role, professors, p);
    }
  }

  // ---------------------------------------------------------------- the project of one group

  /** New rows with the next ids, one for each enrollment, in this order. */
  ghost predicate Enrolled(w: Work, v: Work, code: string, period: int, enrollments: seq<nat>, logId: nat) {
    && v.nextStudent == w.nextStudent + |enrollments|
    && (forall k :: k in v.data.students <==> k in w.data.students || w.nextStudent <= k < v.nextStudent)
    && (forall k :: k in w.data.students && k < w.nextStudent ==> v.data.students[k] == w.data.students[k])
    && (forall j :: 0 <= j < |enrollments| ==>
          v.data.students[w.nextStudent + j] == Student(code, enrollments[j], period, Some(logId)))
  }

  lemma {:induction false} AddStudentsExact(w: Work, code: string, period: int, enrollments: seq<nat>, logId: nat)
    ensures var v := AddStudents(w, code, period, enrollments, logId);
            Enrolled(w, v, code, period, enrollments, logId) && v.data.projects == w.data.projects &&
            v.data.evaluators == w.data.evaluators && v.nextEvaluator == w.nextEvaluator
  {
    if enrollments != [] {
      hide Enrolled;
      var init, e := enrollments[..|enrollments| - 1], enrollments[|enrollments| - 1];
      AddStudentsExact(w, code, period, init, logId);
      EnrolledOne(w, AddStudents(w, code, period, init, logId), code, period, init, e, logId);
      assert enrollments == init + [e];
    } else {
      NobodyEnrolled(w, code, period, logId);
    }
  }

  lemma NobodyEnrolled(w: Work, code: string, period: int, logId: nat)
    ensures Enrolled(w, w, code, period, [], logId)
  {}

  lemma EnrolledOne(w: Work, v: Work, code: string, period: int, init: seq<nat>, e: nat, logId: nat)
    requires Enrolled(w, v, code, period, init, logId)
    ensures var s := Student(code, e, period, Some(logId));
            Enrolled(w, Work(v.data.(students := v.data.students[v.nextStudent := s]), v.nextStudent + 1,
                             v.nextEvaluator), code, period, init + [e], logId)
  {}

  /** A project that is found keeps its row and students; any other is created with its names and students. */
  ghost predicate PreparedAs(w: Work, v: Work, g: Group, period: int, logId: nat) {
    if InPeriod(w.data, g.code, period)
    then v.data.projects == w.data.projects && v.data.students == w.data.students && v.nextStudent == w.nextStudent
    else v.data.projects == w.data.projects[g.code := Project(Some(logId), g.nameEs, g.nameEn)] &&
         Enrolled(w, v, g.code, period, g.enrollments, logId)
  }

  lemma ExistingExact(d: Data, code: string, period: int)
    ensures Existing(d, code, period) <==> InPeriod(d, code, period)
  {}

  lemma PreparedExact(w: Work, g: Group, period: int, logId: nat)
    requires WorkOk(w)
    ensures Prepared(w, g, period, logId) == None <==> g.code in w.data.projects && !InPeriod(w.data, g.code, period)
    ensures Prepared(w, g, period, logId).Some? ==>
              var v := Prepared(w, g, period, logId).value;
              PreparedAs(w, v, g, period, logId) && v.data.evaluators == w.data.evaluators && g.code in v.data.projects
  {
    hide Existing, InPeriod, WorkOk, AddStudents;
    ExistingExact(w.data, g.code, period);
    if !Existing(w.data, g.code, period) && g.code !in w.data.projects {
      var p := Project(Some(logId), g.nameEs, g.nameEn);
      var created := w.(data := w.data.(projects := w.data.projects[g.code := p]));
      AddStudentsExact(created, g.code, period, g.enrollments, logId);
      SameStudents(w, created, AddStudents(created, g.code, period, g.enrollments, logId), g, period, logId);
    } else if Existing(w.data, g.code, period) {
      ExistingIsThere(w.data, g.code, period);
    }
  }

  lemma SameStudents(w: Work, created: Work, v: Work, g: Group, period: int, logId: nat)
    requires created.data.students == w.data.students && created.nextStudent == w.nextStudent
    requires Enrolled(created, v, g.code, period, g.enrollments, logId)
    ensures Enrolled(w, v, g.code, period, g.enrollments, logId)
  {}

  lemma ExistingIsThere(d: Data, code: string, period: int)
    requires Existing(d, code, period)
    ensures code in d.projects
  {}

  lemma PreparedWorkOk(w: Work, g: Group, period: int, logId: nat)
    requires WorkOk(w) && Prepared(w, g, period, logId).Some?
    ensures WorkOk(Prepared(w, g, period, logId).value)
  {
    hide UnderWay, AddStudents, Existing;
    SelfUnderWay(w, logId);
    if !Existing(w.data, g.code, period) {
      var p := Project(Some(logId), g.nameEs, g.nameEn);
      var created := w.(data := w.data.(projects := w.data.projects[g.code := p]));
      CreateUnderWay(w, w, g.code, p, logId);
      AddStudentsUnderWay(w, created, g.code, period, g.enrollments, logId);
      UnderWayOk(w, AddStudents(created, g.code, period, g.enrollments, logId), logId);
    }
  }

  lemma UnderWayOk(before: Work, w: Work, logId: nat)
    requires UnderWay(before, w, logId)
    ensures WorkOk(w)
  {}

  /**
   * One project's turn. It fails exactly when the code belongs to a project without a student in the period.
   * Otherwise for each of the five types exactly the professors whose code is in its cell evaluate; rows of
   * other projects and types stay; and the project is found, or created with its names and students.
   */
  lemma GroupLoaded(w: Work, g: Group, period: int, logId: nat, professors: Catalog)
    requires WorkOk(w)
    ensures var loaded := LoadGroup(w, g, period, logId, professors);
      && (loaded == None <==> g.code in w.data.projects && !InPeriod(w.data, g.code, period))
      && (loaded.Some? ==>
            && (forall role, p :: 0 <= role < 5 ==>
                  (Evaluates(loaded.value.data, g.code, role, p) <==> NamedIn(g, role, professors, p)))
            && Elsewhere(w.data.evaluators, loaded.value.data.evaluators, g.code, 5)
            && PreparedAs(w, loaded.value, g, period, logId) && g.code in loaded.value.data.projects)
  {
    hide ReconcileAll, Prepared, Evaluates, NamedIn, Elsewhere, WorkOk, InPeriod, Enrolled;
    PreparedExact(w, g, period, logId);
    if Prepared(w, g, period, logId).Some? {
      var v := Prepared(w, g, period, logId).value;
      PreparedWorkOk(w, g, period, logId);
      FiveTypes(v, g, logId, professors);
      TypesElsewhere(v, g, TYPES, logId, professors);
      SameTables(w, v, ReconcileAll(v, g, TYPES, logId, professors), g, period, logId);
    }
  }

  lemma SameTables(w: Work, v: Work, u: Work, g: Group, period: int, logId: nat)
    requires PreparedAs(w, v, g, period, logId)
    requires u.data.projects == v.data.projects && u.data.students == v.data.students && u.nextStudent == v.nextStudent
    ensures PreparedAs(w, u, g, period, logId)
  {}

  // ---------------------------------------------------------------- a whole file

  lemma ElsewhereEvaluates(before: Data, after: Data, code: string, types: nat, project: string, role: nat, p: nat)
    requires Elsewhere(before.evaluators, after.evaluators, code, types) && (project != code || role >= types)
    ensures Evaluates(after, project, role, p) <==> Evaluates(before, project, role, p)
  {
    var m, n := before.evaluators, after.evaluators;
    if k :| k in n && n[k].active && n[k].project == project && n[k].role == role && n[k].professor == p {
      assert k in m && n[k] == m[k];
    }
  }

  lemma LoadedWorkOk(w: Work, groups: seq<Group>, period: int, logId: nat, professors: Catalog)
    requires WorkOk(w) && Load(w, groups, period, logId, professors).Some?
    ensures WorkOk(Load(w, groups, period, logId, professors).value)
  {
    hide UnderWay;
    LoadUnderWay(w, groups, period, logId, professors);
    UnderWayOk(w, Load(w, groups, period, logId, professors).value, logId);
  }

  /** After a whole file, the last group of a project decides who evaluates it, for each of the five types. */
  lemma {:induction false} FileLoaded(w: Work, groups: seq<Group>, period: int, logId: nat, professors: Catalog, i: nat,
                                      role: nat, p: nat)
    requires WorkOk(w) && Load(w, groups, period, logId, professors).Some? && i < |groups| && 0 <= role < 5
    requires forall j :: i < j < |groups| ==> groups[j].code != groups[i].code
    ensures Evaluates(Load(w, groups, period, logId, professors).value.data, groups[i].code, role, p) <==>
            NamedIn(groups[i], role, professors, p)
    decreases |groups|
  {
    hide LoadGroup, Evaluates, NamedIn, Elsewhere, WorkOk;
    var n := |groups| - 1;
    var v := Load(w, groups[..n], period, logId, professors).value;
    LoadedWorkOk(w, groups[..n], period, logId, professors);
    GroupLoaded(v, groups[n], period, logId, professors);
    if i < n {
      FileLoaded(w, groups[..n], period, logId, professors, i, role, p);
      ElsewhereEvaluates(v.data, LoadGroup(v, groups[n], period, logId, professors).value.data, groups[n].code, 5,
                         groups[i].code, role, p);
    }
  }

  /** Projects that no group names, and types beyond the five, keep their evaluators. */
  lemma {:induction false} FileElsewhere(w: Work, groups: seq<Group>, period: int, logId: nat, professors: Catalog,
                                         project: string, role: nat, p: nat)
    requires WorkOk(w) && Load(w, groups, period, logId, professors).Some?
    requires role >= 5 || forall j :: 0 <= j < |groups| ==> groups[j].code != project
    ensures Evaluates(Load(w, groups, period, logId, professors).value.data, project, role, p) <==>
            Evaluates(w.data, project, role, p)
    decreases |groups|
  {
    hide LoadGroup, Evaluates, Elsewhere, WorkOk;
    if groups != [] {
      var n := |groups| - 1;
      var v := Load(w, groups[..n], period, logId, professors).value;
      LoadedWorkOk(w, groups[..n], period, logId, professors);
      GroupLoaded(v, groups[n], period, logId, professors);
      FileElsewhere(w, groups[..n], period, logId, professors, project, role, p);
      ElsewhereEvaluates(v.data, LoadGroup(v, groups[n], period, logId, professors).value.data, groups[n].code, 5,
                         project, role, p);
    }
  }
}
