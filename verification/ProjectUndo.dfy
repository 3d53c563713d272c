/**
 * Rolling back a project upload after later ones: fn_rollback_projects accepts it in any order. This is
 * exactly when the tables are then what the later uploads alone would have given.
 */
module ProjectUndo {
  import opened Wrappers
  import opened EvaluatorLists
  import opened Projects

  /** What the rollback leaves of the evaluators. */
  function Undone(m: map<nat, Evaluator>, own: set<string>, id: nat): map<nat, Evaluator> {
    DropAdded(Reactivate(m, id), own, id)
  }

  /** Deactivated by this upload, and active again after its rollback. */
  predicate Woken(e: Evaluator, id: nat) {
    e.deactivatedBy == Some(id) && e.uploadLogId != Some(id)
  }

  ghost predicate WokenListed(m: map<nat, Evaluator>, project: string, role: nat, listed: seq<nat>, id: nat) {
    forall k :: k in m && InSlot(m[k], project, role) && Woken(m[k], id) ==> m[k].professor in listed
  }

  /** Rolled back or not, a listed professor is active in the same way. */
  ghost predicate SameActive(
      m: map<nat, Evaluator>, own: set<string>, project: string, role: nat, listed: seq<nat>, id: nat)
  {
    forall p :: p in listed ==>
      (ActiveFor(m, project, role, p) <==> ActiveFor(Undone(m, own, id), project, role, p))
  }

  /**
   * A later upload that assigns this list to the slot may do so before or after the rollback: it names
   * everybody whom the rollback makes active again, and nobody whose activity depends on the rollback.
   */
  ghost predicate SlotSafe(d: Data, project: string, role: nat, listed: seq<nat>, id: nat) {
    && WokenListed(d.evaluators, project, role, listed, id)
    && SameActive(d.evaluators, Own(d, id), project, role, listed, id)
  }

  // ---------------------------------------------------------------- safe assignments commute

  ghost predicate Marked(m: map<nat, Evaluator>) {
    forall k :: k in m && m[k].active ==> m[k].deactivatedBy == None
  }

  lemma DeactivateCommutesAt(
      m: map<nat, Evaluator>, own: set<string>, id: nat, project: string, role: nat, listed: seq<nat>, u: nat, k: nat)
    requires u != id && Marked(m) && WokenListed(m, project, role, listed, id)
    ensures var l := Undone(Deactivate(m, project, role, listed, u), own, id);
            var r := Deactivate(Undone(m, own, id), project, role, listed, u);
            (k in l <==> k in r) && (k in l ==> l[k] == r[k])
  {}

  lemma DeactivateCommutes(
      m: map<nat, Evaluator>, own: set<string>, id: nat, project: string, role: nat, listed: seq<nat>, u: nat)
    requires u != id && Marked(m) && WokenListed(m, project, role, listed, id)
    ensures Undone(Deactivate(m, project, role, listed, u), own, id)
         == Deactivate(Undone(m, own, id), project, role, listed, u)
  {
    hide Undone, Deactivate, Marked, WokenListed;
    var l := Undone(Deactivate(m, project, role, listed, u), own, id);
    var r := Deactivate(Undone(m, own, id), project, role, listed, u);
    forall k: nat ensures (k in l <==> k in r) && (k in l ==> l[k] == r[k]) {
      DeactivateCommutesAt(m, own, id, project, role, listed, u, k);
    }
    assert l.Keys == r.Keys;
  }

  lemma DeactivateActive(
      m: map<nat, Evaluator>, project: string, role: nat, listed: seq<nat>, u: nat, p: nat)
    requires p in listed
    ensures ActiveFor(Deactivate(m, project, role, listed, u), project, role, p) <==> ActiveFor(m, project, role, p)
  {
    var m' := Deactivate(m, project, role, listed, u);
    if k :| k in m && InSlot(m[k], project, role) && m[k].active && m[k].professor == p {
      assert m'[k] == m[k];
    }
    if k :| k in m' && InSlot(m'[k], project, role) && m'[k].active && m'[k].professor == p {
      assert m[k] == m'[k];
    }
  }

  /** After AddMissing, the active professors are those from before and the listed ones. */
  lemma AddMissingActive(
      m: map<nat, Evaluator>, next: nat, project: string, role: nat, listed: seq<nat>, u: nat, p: nat)
    requires Fresh(m, next)
    ensures ActiveFor(AddMissing(m, next, project, role, listed, u).0, project, role, p) <==>
            ActiveFor(m, project, role, p) || p in listed
  {
    AddMissingExact(m, next, project, role, listed, u);
    var m' := AddMissing(m, next, project, role, listed, u).0;
    if k :| k in m && InSlot(m[k], project, role) && m[k].active && m[k].professor == p {
      assert m'[k] == m[k];
    }
    if k :| k in m' && InSlot(m'[k], project, role) && m'[k].active && m'[k].professor == p {
      assert k in m || m'[k].professor in listed;
    }
  }

  lemma AddedUndone(m: map<nat, Evaluator>, own: set<string>, id: nat, n: nat, e: Evaluator)
    requires e.uploadLogId != Some(id) && e.project !in own && e.deactivatedBy != Some(id)
    ensures Undone(m[n := e], own, id) == Undone(m, own, id)[n := e]
  {
    var l, r := Undone(m[n := e], own, id), Undone(m, own, id)[n := e];
    assert l.Keys == r.Keys;
    forall k | k in l ensures l[k] == r[k] {}
  }

  lemma UndoneFresh(m: map<nat, Evaluator>, own: set<string>, id: nat, next: nat)
    requires Fresh(m, next)
    ensures Fresh(Undone(m, own, id), next)
  {}

  lemma {:induction false} AddMissingCommutes(
      m: map<nat, Evaluator>, own: set<string>, id: nat, next: nat, project: string, role: nat, listed: seq<nat>,
      u: nat)
    requires u != id && project !in own && Fresh(m, next) && SameActive(m, own, project, role, listed, id)
    ensures AddMissing(Undone(m, own, id), next, project, role, listed, u) ==
            (Undone(AddMissing(m, next, project, role, listed, u).0, own, id),
             AddMissing(m, next, project, role, listed, u).1)
  {
    if listed != [] {
      hide Undone, ActiveFor, Fresh;
      var init, p := listed[..|listed| - 1], listed[|listed| - 1];
      assert listed == init + [p];
      AddMissingCommutes(m, own, id, next, project, role, init, u);
      AddMissingActive(m, next, project, role, init, u, p);
      UndoneFresh(m, own, id, next);
      AddMissingActive(Undone(m, own, id), next, project, role, init, u, p);
      var (before, n) := AddMissing(m, next, project, role, init, u);
      AddedUndone(before, own, id, n, Evaluator(project, p, role, Some(u), true, None));
    }
  }

  /** Two states in step: one as it is, the other with the upload rolled back. */
  ghost predicate Sync(x: Work, y: Work, id: nat) {
    && WorkOk(x) && y == x.(data := Rollback(x.data, id))
  }

  lemma UndoneEvaluators(d: Data, id: nat)
    ensures Rollback(d, id).evaluators == Undone(d.evaluators, Own(d, id), id)
  {}

  lemma SlotCommutes(x: Work, y: Work, project: string, role: nat, listed: seq<nat>, u: nat, id: nat)
    requires Sync(x, y, id) && u != id && project !in Own(x.data, id)
    requires SlotSafe(x.data, project, role, listed, id)
    ensures Reconcile(y, project, role, listed, u) ==
            Reconcile(x, project, role, listed, u).(data := Rollback(Reconcile(x, project, role, listed, u).data, id))
  {
    var m, own := x.data.evaluators, Own(x.data, id);
    var kept := Deactivate(m, project, role, listed, u);
    DeactivateCommutes(m, own, id, project, role, listed, u);
    forall p | p in listed
      ensures ActiveFor(kept, project, role, p) <==> ActiveFor(Undone(kept, own, id), project, role, p)
    {
      DeactivateActive(m, project, role, listed, u, p);
      DeactivateActive(Undone(m, own, id), project, role, listed, u, p);
    }
    hide ActiveFor, Deactivate, Undone, AddMissing;
    AddMissingCommutes(kept, own, id, x.nextEvaluator, project, role, listed, u);
    UndoneEvaluators(x.data, id);
    var x' := Reconcile(x, project, role, listed, u);
    assert Own(x'.data, id) == own;
    UndoneEvaluators(x'.data, id);
    RollbackOthers(x.data, x'.data, id);
  }

  /** Projects and students after a rollback do not depend on the evaluators. */
  lemma RollbackOthers(d: Data, e: Data, id: nat)
    requires d.projects == e.projects && d.students == e.students
    ensures Rollback(d, id).projects == Rollback(e, id).projects
    ensures Rollback(d, id).students == Rollback(e, id).students
  {}

  lemma RollbackKeepsWorkOk(x: Work, id: nat)
    requires WorkOk(x)
    ensures WorkOk(x.(data := Rollback(x.data, id)))
  {}

  // ---------------------------------------------------------------- what an assignment does anywhere

  /** The rows that an upload added for a professor in a slot, active or not. */
  function RowsOf(m: map<nat, Evaluator>, project: string, role: nat, p: nat, u: nat): set<nat> {
    set k | k in m && InSlot(m[k], project, role) && m[k].professor == p && m[k].uploadLogId == Some(u)
  }

  lemma DeactivateRows(
      m: map<nat, Evaluator>, project: string, role: nat, listed: seq<nat>, u: nat,
      project': string, role': nat, p: nat, u': nat)
    ensures RowsOf(Deactivate(m, project, role, listed, u), project', role', p, u') == RowsOf(m, project', role', p, u')
  {}

  lemma AddedRow(m: map<nat, Evaluator>, n: nat, e: Evaluator, project: string, role: nat, p: nat, u: nat)
    requires n !in m
    ensures |RowsOf(m[n := e], project, role, p, u)| == |RowsOf(m, project, role, p, u)| +
            if InSlot(e, project, role) && e.professor == p && e.uploadLogId == Some(u) then 1 else 0
  {
    hide InSlot;
    var before, after := RowsOf(m, project, role, p, u), RowsOf(m[n := e], project, role, p, u);
    if InSlot(e, project, role) && e.professor == p && e.uploadLogId == Some(u) {
      assert after == before + {n};
    } else {
      assert after == before;
    }
  }

  /** The assignment of `listed` by `u` adds a row of `u'` for professor p in a slot. */
  predicate Adds(
      m: map<nat, Evaluator>, project: string, role: nat, listed: seq<nat>, u: nat,
      project': string, role': nat, p: nat, u': nat)
  {
    project == project' && role == role' && u == u' && p in listed && !ActiveFor(m, project, role, p)
  }

  lemma {:induction false} AddMissingRows(
      m: map<nat, Evaluator>, next: nat, project: string, role: nat, listed: seq<nat>, u: nat,
      project': string, role': nat, p: nat, u': nat)
    requires Fresh(m, next)
    ensures |RowsOf(AddMissing(m, next, project, role, listed, u).0, project', role', p, u')| ==
            |RowsOf(m, project', role', p, u')| +
            if Adds(m, project, role, listed, u, project', role', p, u') then 1 else 0
  {
    if listed != [] {
      hide RowsOf, ActiveFor, Added;
      var init, q := listed[..|listed| - 1], listed[|listed| - 1];
      assert listed == init + [q];
      AddMissingRows(m, next, project, role, init, u, project', role', p, u');
      AddMissingExact(m, next, project, role, init, u);
      AddMissingActive(m, next, project, role, init, u, q);
      var (before, n) := AddMissing(m, next, project, role, init, u);
      assert n !in before;
      AddedRow(before, n, Evaluator(project, q, role, Some(u), true, None), project', role', p, u');
    }
  }

  lemma ReconcileRows(
      w: Work, project: string, role: nat, listed: seq<nat>, u: nat, project': string, role': nat, p: nat, u': nat)
    requires WorkOk(w)
    ensures |RowsOf(Reconcile(w, project, role, listed, u).data.evaluators, project', role', p, u')| ==
            |RowsOf(w.data.evaluators, project', role', p, u')| +
            if Adds(w.data.evaluators, project, role, listed, u, project', role', p, u') then 1 else 0
  {
    hide RowsOf, ActiveFor;
    var m := w.data.evaluators;
    var kept := Deactivate(m, project, role, listed, u);
    DeactivateRows(m, project, role, listed, u, project', role', p, u');
    AddMissingRows(kept, w.nextEvaluator, project, role, listed, u, project', role', p, u');
    if p in listed {
      DeactivateActive(m, project, role, listed, u, p);
    }
  }

  lemma ReconcileActive(
      w: Work, project: string, role: nat, listed: seq<nat>, u: nat, project': string, role': nat, p: nat)
    requires WorkOk(w)
    ensures ActiveFor(Reconcile(w, project, role, listed, u).data.evaluators, project', role', p) <==>
            if project == project' && role == role' then p in listed
            else ActiveFor(w.data.evaluators, project', role', p)
  {
    ReconcileAssigns(w, project, role, listed, u);
    if project != project' || role != role' {
      OtherSlotsUntouched(w, project, role, listed, u, project', role', p);
    }
  }

  // ---------------------------------------------------------------- unsafe assignments cannot be made good

  /** A row that the rollback reactivates and that is inactive without it. */
  predicate RowApart(x: Data, y: Data, k: nat, id: nat) {
    && k in x.evaluators && Woken(x.evaluators[k], id) && !x.evaluators[k].active
    && x.evaluators[k].project !in Own(x, id)
    && k in y.evaluators && !y.evaluators[k].active
  }

  /** A later upload added more rows for a professor on one side than on the other. */
  ghost predicate CountApart(x: Data, y: Data, project: string, role: nat, p: nat, u: nat, id: nat) {
    && project !in Own(x, id) && u != id
    && (ActiveFor(x.evaluators, project, role, p) <==> ActiveFor(y.evaluators, project, role, p))
    && |RowsOf(x.evaluators, project, role, p, u)| != |RowsOf(y.evaluators, project, role, p, u)|
  }

  /** A project that goes with the rollback, and is there without it. */
  predicate ProjectApart(x: Data, y: Data, code: string, id: nat) {
    code in Own(x, id) && code in y.projects
  }

  /** The two states can no longer come together. */
  ghost predicate Apart(x: Data, y: Data, id: nat) {
    || (exists k :: RowApart(x, y, k, id))
    || (exists project, role, p, u :: CountApart(x, y, project, role, p, u, id))
    || (exists code :: ProjectApart(x, y, code, id))
  }

  lemma UndoneRows(m: map<nat, Evaluator>, own: set<string>, id: nat, project: string, role: nat, p: nat, u: nat)
    requires project !in own && u != id
    ensures RowsOf(Undone(m, own, id), project, role, p, u) == RowsOf(m, project, role, p, u)
  {}

  lemma ApartDiffers(x: Data, y: Data, id: nat)
    requires Apart(x, y, id)
    ensures Rollback(x, id) != y
  {
    var z := Rollback(x, id);
    if k :| RowApart(x, y, k, id) {
      assert z.evaluators[k].active;
    } else if project, role, p, u :| CountApart(x, y, project, role, p, u, id) {
      UndoneRows(x.evaluators, Own(x, id), id, project, role, p, u);
      UndoneEvaluators(x, id);
    } else {
      var code :| ProjectApart(x, y, code, id);
      assert code !in z.projects;
    }
  }

  /** An assignment leaves inactive rows, and all projects and students, alone. */
  lemma ReconcileInactive(w: Work, project: string, role: nat, listed: seq<nat>, u: nat, k: nat)
    requires WorkOk(w) && k in w.data.evaluators && !w.data.evaluators[k].active
    ensures var d := Reconcile(w, project, role, listed, u).data;
            && k in d.evaluators && d.evaluators[k] == w.data.evaluators[k]
            && d.projects == w.data.projects && d.students == w.data.students
  {
    ReconcileAssigns(w, project, role, listed, u);
    assert Untouchable(w.data.evaluators[k], project, role, listed);
  }

  lemma ReconcileOwn(w: Work, project: string, role: nat, listed: seq<nat>, u: nat, id: nat)
    ensures Own(Reconcile(w, project, role, listed, u).data, id) == Own(w.data, id)
    ensures Reconcile(w, project, role, listed, u).data.projects == w.data.projects
  {}

  ghost predicate Has(w: Work, code: string) { code in w.data.projects }

  ghost predicate Off(x: Work, y: Work, id: nat) {
    WorkOk(x) && WorkOk(y) && Apart(x.data, y.data, id)
  }

  lemma OffByRow(x: Work, y: Work, k: nat, id: nat)
    requires WorkOk(x) && WorkOk(y) && RowApart(x.data, y.data, k, id)
    ensures Off(x, y, id)
  {}

  lemma OffByCount(x: Work, y: Work, project: string, role: nat, p: nat, u: nat, id: nat)
    requires WorkOk(x) && WorkOk(y) && CountApart(x.data, y.data, project, role, p, u, id)
    ensures Off(x, y, id)
  {}

  lemma OffByProject(x: Work, y: Work, code: string, id: nat)
    requires WorkOk(x) && WorkOk(y) && ProjectApart(x.data, y.data, code, id)
    ensures Off(x, y, id)
  {}

  lemma SlotStaysOff(x: Work, y: Work, project: string, role: nat, listed: seq<nat>, u: nat, id: nat)
    requires Off(x, y, id) && Has(x, project) && Has(y, project)
    ensures Off(Reconcile(x, project, role, listed, u), Reconcile(y, project, role, listed, u), id)
  {
    hide WorkOk, Reconcile, RowsOf, ActiveFor, Own;
    var x', y' := Reconcile(x, project, role, listed, u), Reconcile(y, project, role, listed, u);
    ReconcileWorkOk(x, project, role, listed, u);
    ReconcileWorkOk(y, project, role, listed, u);
    ReconcileOwn(x, project, role, listed, u, id);
    ReconcileOwn(y, project, role, listed, u, id);
    if k :| RowApart(x.data, y.data, k, id) {
      ReconcileInactive(x, project, role, listed, u, k);
      ReconcileInactive(y, project, role, listed, u, k);
      OffByRow(x', y', k, id);
    } else if q, r, p, v :| CountApart(x.data, y.data, q, r, p, v, id) {
      ReconcileRows(x, project, role, listed, u, q, r, p, v);
      ReconcileRows(y, project, role, listed, u, q, r, p, v);
      ReconcileActive(x, project, role, listed, u, q, r, p);
      ReconcileActive(y, project, role, listed, u, q, r, p);
      OffByCount(x', y', q, r, p, v, id);
    } else {
      var code :| ProjectApart(x.data, y.data, code, id);
      OffByProject(x', y', code, id);
    }
  }

  /** Woken but not listed: the later upload deactivates the row on one side only. */
  lemma WokenDiverges(x: Work, y: Work, project: string, role: nat, listed: seq<nat>, u: nat, id: nat)
    requires Sync(x, y, id) && u != id && project !in Own(x.data, id) && project in x.data.projects
    requires !WokenListed(x.data.evaluators, project, role, listed, id)
    ensures Off(Reconcile(x, project, role, listed, u), Reconcile(y, project, role, listed, u), id)
  {
    var m := x.data.evaluators;
    var k :| k in m && InSlot(m[k], project, role) && Woken(m[k], id) && m[k].professor !in listed;
    var x', y' := Reconcile(x, project, role, listed, u), Reconcile(y, project, role, listed, u);
    RollbackKeepsWorkOk(x, id);
    assert project in y.data.projects;
    ReconcileWorkOk(x, project, role, listed, u);
    ReconcileWorkOk(y, project, role, listed, u);
    assert y.data.evaluators[k].active && InSlot(y.data.evaluators[k], project, role);
    ReconcileDeactivates(y, project, role, listed, u, k);
    ReconcileInactive(x, project, role, listed, u, k);
    ReconcileOwn(x, project, role, listed, u, id);
    OffByRow(x', y', k, id);
  }

  lemma ReconcileDeactivates(w: Work, project: string, role: nat, listed: seq<nat>, u: nat, k: nat)
    requires WorkOk(w) && k in w.data.evaluators && InSlot(w.data.evaluators[k], project, role)
    requires w.data.evaluators[k].professor !in listed
    ensures var m := Reconcile(w, project, role, listed, u).data.evaluators;
            k in m && !m[k].active
  {
    AddMissingExact(Deactivate(w.data.evaluators, project, role, listed, u), w.nextEvaluator, project, role, listed, u);
  }

  /** Listed and not active in the same way: the later upload adds a row on one side only. */
  lemma ActiveDiverges(x: Work, y: Work, project: string, role: nat, listed: seq<nat>, u: nat, id: nat)
    requires Sync(x, y, id) && u != id && project !in Own(x.data, id) && project in x.data.projects
    requires !SameActive(x.data.evaluators, Own(x.data, id), project, role, listed, id)
    ensures Off(Reconcile(x, project, role, listed, u), Reconcile(y, project, role, listed, u), id)
  {
    var m, own := x.data.evaluators, Own(x.data, id);
    var p :| p in listed && (ActiveFor(m, project, role, p) <==> !ActiveFor(Undone(m, own, id), project, role, p));
    RollbackKeepsWorkOk(x, id);
    UndoneEvaluators(x.data, id);
    UndoneRows(m, own, id, project, role, p, u);
    assert project in y.data.projects;
    hide RowsOf, ActiveFor, Reconcile, Undone, WorkOk;
    ReconcileWorkOk(x, project, role, listed, u);
    ReconcileWorkOk(y, project, role, listed, u);
    ReconcileRows(x, project, role, listed, u, project, role, p, u);
    ReconcileRows(y, project, role, listed, u, project, role, p, u);
    ReconcileActive(x, project, role, listed, u, project, role, p);
    ReconcileActive(y, project, role, listed, u, project, role, p);
    ReconcileOwn(x, project, role, listed, u, id);
    OffByCount(Reconcile(x, project, role, listed, u), Reconcile(y, project, role, listed, u), project, role, p, u, id);
  }

  /** One assignment: in step it stays in step when safe, and never comes back when not. */
  lemma SlotExact(x: Work, y: Work, project: string, role: nat, listed: seq<nat>, u: nat, id: nat)
    requires Sync(x, y, id) && u != id && project !in Own(x.data, id) && project in x.data.projects
    ensures var x', y' := Reconcile(x, project, role, listed, u), Reconcile(y, project, role, listed, u);
            if SlotSafe(x.data, project, role, listed, id) then Sync(x', y', id) else Off(x', y', id)
  {
    hide Reconcile, WorkOk, WokenListed, SameActive, Rollback, Own;
    if SlotSafe(x.data, project, role, listed, id) {
      SlotCommutes(x, y, project, role, listed, u, id);
      ReconcileWorkOk(x, project, role, listed, u);
    } else if !WokenListed(x.data.evaluators, project, role, listed, id) {
      WokenDiverges(x, y, project, role, listed, u, id);
    } else {
      ActiveDiverges(x, y, project, role, listed, u, id);
    }
  }

  // ---------------------------------------------------------------- a group

  /** Every type of the group is safe when its turn comes. */
  ghost predicate RolesSafe(w: Work, g: Group, types: nat, u: nat, professors: Catalog, id: nat) {
    types == 0 ||
    var role := types - 1;
    && RolesSafe(w, g, role, u, professors, id)
    && SlotSafe(ReconcileAll(w, g, role, u, professors).data, g.code, role, ListedFor(g, role, professors), id)
  }

  /** The rollback does not take the group's project, and all its types are safe. */
  ghost predicate GroupSafe(w: Work, g: Group, period: int, u: nat, professors: Catalog, id: nat) {
    && g.code !in Own(w.data, id)
    && match Prepared(w, g, period, u)
       case None => true
       case Some(v) => RolesSafe(v, g, TYPES, u, professors, id)
  }

  lemma {:induction false} AllOwn(w: Work, g: Group, types: nat, u: nat, professors: Catalog, id: nat)
    ensures var v := ReconcileAll(w, g, types, u, professors);
            Own(v.data, id) == Own(w.data, id) && v.data.projects == w.data.projects
  {
    hide Reconcile, Own, ListedFor;
    if types > 0 {
      AllOwn(w, g, types - 1, u, professors, id);
      ReconcileOwn(ReconcileAll(w, g, types - 1, u, professors), g.code, types - 1,
                   ListedFor(g, types - 1, professors), u, id);
    }
  }

  lemma AllKeep(w: Work, g: Group, types: nat, u: nat, professors: Catalog, id: nat)
    ensures var v := ReconcileAll(w, g, types, u, professors);
            && (g.code in Own(v.data, id) <==> g.code in Own(w.data, id))
            && (Has(v, g.code) <==> Has(w, g.code))
  {
    AllOwn(w, g, types, u, professors, id);
  }

  lemma AllStep(w: Work, g: Group, types: nat, u: nat, professors: Catalog, id: nat)
    requires types > 0
    ensures ReconcileAll(w, g, types, u, professors) ==
            Reconcile(ReconcileAll(w, g, types - 1, u, professors), g.code, types - 1,
                      ListedFor(g, types - 1, professors), u)
    ensures RolesSafe(w, g, types, u, professors, id) <==>
            RolesSafe(w, g, types - 1, u, professors, id) &&
            SlotSafe(ReconcileAll(w, g, types - 1, u, professors).data, g.code, types - 1,
                     ListedFor(g, types - 1, professors), id)
  {
    hide Reconcile, SlotSafe, ListedFor;
  }

  lemma OwnKept(x: Work, y: Work, code: string, id: nat)
    requires Sync(x, y, id) && Has(x, code) && code !in Own(x.data, id)
    ensures Has(y, code)
  {}

  ghost predicate InStep(x: Work, y: Work, safe: bool, id: nat) {
    if safe then Sync(x, y, id) else Off(x, y, id)
  }

  lemma RoleExact(x: Work, y: Work, code: string, role: nat, listed: seq<nat>, u: nat, safe: bool, id: nat)
    requires InStep(x, y, safe, id) && u != id && Has(x, code) && Has(y, code)
    requires safe ==> code !in Own(x.data, id)
    ensures InStep(Reconcile(x, code, role, listed, u), Reconcile(y, code, role, listed, u),
                   safe && SlotSafe(x.data, code, role, listed, id), id)
  {
    hide Sync, Off, SlotSafe, Reconcile, Own;
    if safe {
      SlotExact(x, y, code, role, listed, u, id);
    } else {
      SlotStaysOff(x, y, code, role, listed, u, id);
    }
  }

  lemma NextRole(x: Work, y: Work, g: Group, role: nat, u: nat, professors: Catalog, safe: bool, id: nat)
    requires u != id && Has(x, g.code) && Has(y, g.code) && (safe ==> g.code !in Own(x.data, id))
    requires InStep(ReconcileAll(x, g, role, u, professors), ReconcileAll(y, g, role, u, professors), safe, id)
    ensures InStep(ReconcileAll(x, g, role + 1, u, professors), ReconcileAll(y, g, role + 1, u, professors),
                   safe && SlotSafe(ReconcileAll(x, g, role, u, professors).data, g.code, role,
                                    ListedFor(g, role, professors), id), id)
  {
    hide InStep, SlotSafe, Reconcile, ReconcileAll, RolesSafe, ListedFor, Own, Has;
    var x', y' := ReconcileAll(x, g, role, u, professors), ReconcileAll(y, g, role, u, professors);
    AllStep(x, g, role + 1, u, professors, id);
    AllStep(y, g, role + 1, u, professors, id);
    AllKeep(x, g, role, u, professors, id);
    AllKeep(y, g, role, u, professors, id);
    RoleExact(x', y', g.code, role, ListedFor(g, role, professors), u, safe, id);
  }

  lemma NoRoles(x: Work, y: Work, g: Group, u: nat, professors: Catalog, id: nat)
    requires Sync(x, y, id)
    ensures InStep(ReconcileAll(x, g, 0, u, professors), ReconcileAll(y, g, 0, u, professors),
                   RolesSafe(x, g, 0, u, professors, id), id)
  {}

  lemma {:induction false} RolesExact(x: Work, y: Work, g: Group, types: nat, u: nat, professors: Catalog, id: nat)
    requires Sync(x, y, id) && u != id && g.code !in Own(x.data, id) && Has(x, g.code)
    ensures InStep(ReconcileAll(x, g, types, u, professors), ReconcileAll(y, g, types, u, professors),
                   RolesSafe(x, g, types, u, professors, id), id)
    decreases types
  {
    hide Sync, InStep, SlotSafe, RolesSafe, Reconcile, ReconcileAll, ListedFor, Own, Has;
    if types == 0 {
      NoRoles(x, y, g, u, professors, id);
    } else {
      OwnKept(x, y, g.code, id);
      RolesExact(x, y, g, types - 1, u, professors, id);
      AllStep(x, g, types, u, professors, id);
      NextRole(x, y, g, types - 1, u, professors, RolesSafe(x, g, types - 1, u, professors, id), id);
    }
  }

  lemma NoRoleYet(w: Work, g: Group, u: nat, professors: Catalog)
    requires Has(w, g.code)
    ensures ReconcileAll(w, g, 0, u, professors) == w
  {}

  lemma {:induction false} RolesStayOff(x: Work, y: Work, g: Group, types: nat, u: nat, professors: Catalog, id: nat)
    requires Off(x, y, id) && u != id && Has(x, g.code) && Has(y, g.code)
    ensures Off(ReconcileAll(x, g, types, u, professors), ReconcileAll(y, g, types, u, professors), id)
    decreases types
  {
    hide Off, SlotSafe, Reconcile, ReconcileAll, ListedFor, Own, Has;
    if types == 0 {
      NoRoleYet(x, g, u, professors);
      NoRoleYet(y, g, u, professors);
    } else {
      RolesStayOff(x, y, g, types - 1, u, professors, id);
      NextRole(x, y, g, types - 1, u, professors, false, id);
    }
  }

  lemma {:induction false} AddStudentsFacts(w: Work, code: string, period: int, enrollments: seq<nat>, u: nat)
    requires WorkOk(w) && code in w.data.projects
    ensures var v := AddStudents(w, code, period, enrollments, u);
            && WorkOk(v) && v.data.projects == w.data.projects && v.data.evaluators == w.data.evaluators
            && v.nextEvaluator == w.nextEvaluator
  {
    if enrollments != [] {
      AddStudentsFacts(w, code, period, enrollments[..|enrollments| - 1], u);
    }
  }

  /** What the project's turn starts with: maybe one more project, and no evaluator touched. */
  lemma PreparedFacts(w: Work, g: Group, period: int, u: nat, id: nat)
    requires WorkOk(w) && u != id && Prepared(w, g, period, u).Some?
    ensures var v := Prepared(w, g, period, u).value;
            && WorkOk(v) && v.data.evaluators == w.data.evaluators && v.nextEvaluator == w.nextEvaluator
            && Own(v.data, id) == Own(w.data, id) && g.code in v.data.projects
            && forall c :: c in w.data.projects ==> c in v.data.projects
  {
    if !Existing(w.data, g.code, period) {
      var p := Project(Some(u), g.nameEs, g.nameEn);
      var created := w.(data := w.data.(projects := w.data.projects[g.code := p]));
      AddStudentsFacts(created, g.code, period, g.enrollments, u);
      assert Own(created.data, id) == Own(w.data, id);
    }
  }

  lemma {:induction false} AddStudentsSync(
      x: Work, y: Work, code: string, period: int, enrollments: seq<nat>, u: nat, id: nat)
    requires Sync(x, y, id) && code in x.data.projects && code !in Own(x.data, id)
    ensures Sync(AddStudents(x, code, period, enrollments, u), AddStudents(y, code, period, enrollments, u), id)
  {
    if enrollments != [] {
      var init, e := enrollments[..|enrollments| - 1], enrollments[|enrollments| - 1];
      AddStudentsSync(x, y, code, period, init, u, id);
      AddStudentsFacts(x, code, period, init, u);
      AddStudentSync(AddStudents(x, code, period, init, u), AddStudents(y, code, period, init, u),
                     Student(code, e, period, Some(u)), id);
    }
  }

  lemma AddStudentSync(x: Work, y: Work, s: Student, id: nat)
    requires Sync(x, y, id) && s.project in x.data.projects && s.project !in Own(x.data, id)
    ensures Sync(Work(x.data.(students := x.data.students[x.nextStudent := s]), x.nextStudent + 1, x.nextEvaluator),
                 Work(y.data.(students := y.data.students[y.nextStudent := s]), y.nextStudent + 1, y.nextEvaluator), id)
  {
    var d := x.data.(students := x.data.students[x.nextStudent := s]);
    assert Own(d, id) == Own(x.data, id);
    assert Rollback(d, id).students == y.data.students[y.nextStudent := s];
  }

  lemma ExistingSame(x: Work, y: Work, code: string, period: int, id: nat)
    requires Sync(x, y, id) && code !in Own(x.data, id)
    ensures Existing(x.data, code, period) <==> Existing(y.data, code, period)
    ensures code in x.data.projects <==> code in y.data.projects
  {
    if Existing(x.data, code, period) {
      var k :| k in x.data.students && x.data.students[k].project == code && x.data.students[k].period == period;
      assert k in y.data.students && y.data.students[k] == x.data.students[k];
    }
  }

  lemma PreparedSync(x: Work, y: Work, g: Group, period: int, u: nat, id: nat)
    requires Sync(x, y, id) && u != id && g.code !in Own(x.data, id)
    ensures match (Prepared(x, g, period, u), Prepared(y, g, period, u))
            case (Some(v), Some(z)) => Sync(v, z, id)
            case (None, None) => true
            case _ => false
  {
    ExistingSame(x, y, g.code, period, id);
    if !Existing(x.data, g.code, period) && g.code !in x.data.projects {
      var p := Project(Some(u), g.nameEs, g.nameEn);
      var x1 := x.(data := x.data.(projects := x.data.projects[g.code := p]));
      var y1 := y.(data := y.data.(projects := y.data.projects[g.code := p]));
      assert Own(x1.data, id) == Own(x.data, id);
      assert Rollback(x1.data, id).projects == y1.data.projects;
      AddStudentsSync(x1, y1, g.code, period, g.enrollments, u, id);
    }
  }

  lemma PreparedStaysOff(x: Work, y: Work, g: Group, period: int, u: nat, id: nat)
    requires Off(x, y, id) && u != id && Prepared(x, g, period, u).Some? && Prepared(y, g, period, u).Some?
    ensures Off(Prepared(x, g, period, u).value, Prepared(y, g, period, u).value, id)
  {
    PreparedFacts(x, g, period, u, id);
    PreparedFacts(y, g, period, u, id);
    hide Prepared, Own, WorkOk, RowsOf, ActiveFor;
    var x', y' := Prepared(x, g, period, u).value, Prepared(y, g, period, u).value;
    if k :| RowApart(x.data, y.data, k, id) {
      OffByRow(x', y', k, id);
    } else if q, r, p, v :| CountApart(x.data, y.data, q, r, p, v, id) {
      OffByCount(x', y', q, r, p, v, id);
    } else {
      var code :| ProjectApart(x.data, y.data, code, id);
      OffByProject(x', y', code, id);
    }
  }

  /** A group after the same group: in step, or apart for good, or failed where the upload is rolled back. */
  ghost predicate Follows(x: Option<Work>, y: Option<Work>, safe: bool, id: nat) {
    x.Some? ==>
      if safe then y.Some? && Sync(x.value, y.value, id)
      else y.Some? ==> Off(x.value, y.value, id)
  }

  lemma GroupExact(x: Work, y: Work, g: Group, period: int, u: nat, professors: Catalog, id: nat)
    requires Sync(x, y, id) && u != id
    ensures Follows(LoadGroup(x, g, period, u, professors), LoadGroup(y, g, period, u, professors),
                    GroupSafe(x, g, period, u, professors, id), id)
  {
    RollbackKeepsWorkOk(x, id);
    if Prepared(x, g, period, u).Some? {
      PreparedFacts(x, g, period, u, id);
      var v := Prepared(x, g, period, u).value;
      if g.code !in Own(x.data, id) {
        PreparedSync(x, y, g, period, u, id);
        RolesExact(v, Prepared(y, g, period, u).value, g, TYPES, u, professors, id);
      } else if Prepared(y, g, period, u).Some? {
        PreparedFacts(y, g, period, u, id);
        var z := Prepared(y, g, period, u).value;
        OffByProject(v, z, g.code, id);
        RolesStayOff(v, z, g, TYPES, u, professors, id);
      }
    }
  }

  lemma GroupStaysOff(x: Work, y: Work, g: Group, period: int, u: nat, professors: Catalog, id: nat)
    requires Off(x, y, id) && u != id
    requires LoadGroup(x, g, period, u, professors).Some? && LoadGroup(y, g, period, u, professors).Some?
    ensures Off(LoadGroup(x, g, period, u, professors).value, LoadGroup(y, g, period, u, professors).value, id)
  {
    hide Off, ReconcileAll;
    PreparedStaysOff(x, y, g, period, u, id);
    OffWorkOk(x, y, id);
    PreparedFacts(x, g, period, u, id);
    PreparedFacts(y, g, period, u, id);
    RolesStayOff(Prepared(x, g, period, u).value, Prepared(y, g, period, u).value, g, TYPES, u, professors, id);
  }

  lemma OffWorkOk(x: Work, y: Work, id: nat)
    requires Off(x, y, id)
    ensures WorkOk(x) && WorkOk(y)
  {}

  // ---------------------------------------------------------------- a file

  /** Every group of the file is safe when its turn comes. */
  ghost predicate FileSafe(w: Work, groups: seq<Group>, period: int, u: nat, professors: Catalog, id: nat) {
    groups == [] ||
    var init := groups[..|groups| - 1];
    && FileSafe(w, init, period, u, professors, id)
    && match Load(w, init, period, u, professors)
       case None => true
       case Some(v) => GroupSafe(v, groups[|groups| - 1], period, u, professors, id)
  }

  /** One later upload: its rows go in alike with and without the rolled-back upload iff it is safe. */
  lemma {:induction false} FileExact(x: Work, y: Work, groups: seq<Group>, period: int, u: nat, professors: Catalog,
                                     id: nat)
    requires Sync(x, y, id) && u != id
    ensures Follows(Load(x, groups, period, u, professors), Load(y, groups, period, u, professors),
                    FileSafe(x, groups, period, u, professors, id), id)
  {
    if groups != [] {
      hide Sync, Off, LoadGroup, GroupSafe;
      var init, g := groups[..|groups| - 1], groups[|groups| - 1];
      FileExact(x, y, init, period, u, professors, id);
      var v, z := Load(x, init, period, u, professors), Load(y, init, period, u, professors);
      if v.Some? && z.Some? {
        if FileSafe(x, init, period, u, professors, id) {
          GroupExact(v.value, z.value, g, period, u, professors, id);
        } else if LoadGroup(v.value, g, period, u, professors).Some? &&
          LoadGroup(z.value, g, period, u, professors).Some? {
          GroupStaysOff(v.value, z.value, g, period, u, professors, id);
        }
      }
    }
  }

  lemma {:induction false} FileStaysOff(x: Work, y: Work, groups: seq<Group>, period: int, u: nat,
                                        professors: Catalog, id: nat)
    requires Off(x, y, id) && u != id
    requires Load(x, groups, period, u, professors).Some? && Load(y, groups, period, u, professors).Some?
    ensures Off(Load(x, groups, period, u, professors).value, Load(y, groups, period, u, professors).value, id)
  {
    if groups != [] {
      hide Off, LoadGroup;
      var init, g := groups[..|groups| - 1], groups[|groups| - 1];
      FileStaysOff(x, y, init, period, u, professors, id);
      GroupStaysOff(Load(x, init, period, u, professors).value, Load(y, init, period, u, professors).value, g, period,
                    u, professors, id);
    }
  }

  /**
   * Upload `id` rolled back right after a later one, from any state: the tables are those that the later
   * file gives without it if and only if the later file is safe.
   */
  lemma RollbackCommutes(x: Work, groups: seq<Group>, period: int, u: nat, professors: Catalog, id: nat)
    requires WorkOk(x) && u != id && Load(x, groups, period, u, professors).Some?
    ensures var alone := Load(x.(data := Rollback(x.data, id)), groups, period, u, professors);
            alone.Some? && Rollback(Load(x, groups, period, u, professors).value.data, id) == alone.value.data <==>
            FileSafe(x, groups, period, u, professors, id)
  {
    hide Rollback, FileSafe, Load;
    var y := x.(data := Rollback(x.data, id));
    FileExact(x, y, groups, period, u, professors, id);
    var v, alone := Load(x, groups, period, u, professors), Load(y, groups, period, u, professors);
    if !FileSafe(x, groups, period, u, professors, id) && alone.Some? {
      ApartDiffers(v.value.data, alone.value.data, id);
    }
  }

  // ---------------------------------------------------------------- safety, read off the tables before

  function SlotRows(m: map<nat, Evaluator>, project: string, role: nat): map<nat, Evaluator> {
    map k | k in m && InSlot(m[k], project, role) :: m[k]
  }

  lemma ActiveInSlot(m: map<nat, Evaluator>, project: string, role: nat, p: nat)
    ensures ActiveFor(m, project, role, p) <==> ActiveFor(SlotRows(m, project, role), project, role, p)
  {
    var r := SlotRows(m, project, role);
    if k :| k in m && InSlot(m[k], project, role) && m[k].active && m[k].professor == p {
      assert k in r && r[k] == m[k];
    }
  }

  lemma UndoneInSlot(m: map<nat, Evaluator>, own: set<string>, project: string, role: nat, id: nat)
    ensures SlotRows(Undone(m, own, id), project, role) == Undone(SlotRows(m, project, role), own, id)
  {
    assert SlotRows(Undone(m, own, id), project, role).Keys == Undone(SlotRows(m, project, role), own, id).Keys;
  }

  /** Whether a slot is safe depends on its rows alone. */
  lemma SafeBySlot(d: Data, e: Data, project: string, role: nat, listed: seq<nat>, id: nat)
    requires SlotRows(d.evaluators, project, role) == SlotRows(e.evaluators, project, role) && Own(d, id) == Own(e, id)
    ensures SlotSafe(d, project, role, listed, id) ==> SlotSafe(e, project, role, listed, id)
  {
    var m, n, own := d.evaluators, e.evaluators, Own(d, id);
    UndoneInSlot(m, own, project, role, id);
    UndoneInSlot(n, own, project, role, id);
    forall p
      ensures ActiveFor(m, project, role, p) <==> ActiveFor(n, project, role, p)
      ensures ActiveFor(Undone(m, own, id), project, role, p) <==> ActiveFor(Undone(n, own, id), project, role, p)
    {
      ActiveInSlot(m, project, role, p);
      ActiveInSlot(n, project, role, p);
      ActiveInSlot(Undone(m, own, id), project, role, p);
      ActiveInSlot(Undone(n, own, id), project, role, p);
    }
    hide ActiveFor, Undone, Own;
    if SlotSafe(d, project, role, listed, id) {
      forall k | k in n && InSlot(n[k], project, role) && Woken(n[k], id) ensures n[k].professor in listed {
        assert k in SlotRows(n, project, role);
        assert k in SlotRows(m, project, role);
      }
    }
  }

  lemma OtherSlotRows(w: Work, project: string, role: nat, listed: seq<nat>, u: nat, project': string, role': nat)
    requires WorkOk(w) && (project != project' || role != role')
    ensures SlotRows(Reconcile(w, project, role, listed, u).data.evaluators, project', role') ==
            SlotRows(w.data.evaluators, project', role')
  {
    ReconcileAssigns(w, project, role, listed, u);
    var m, n := w.data.evaluators, Reconcile(w, project, role, listed, u).data.evaluators;
    forall k | k in m && InSlot(m[k], project', role') ensures k in n && n[k] == m[k] {
      assert Untouchable(m[k], project, role, listed);
    }
    forall k | k in n && InSlot(n[k], project', role') ensures k in m && InSlot(m[k], project', role') {
      if k in m {
        ReconcileKeepsSlot(w, project, role, listed, u, k);
      }
    }
    hide Reconcile, WorkOk;
    assert SlotRows(n, project', role').Keys == SlotRows(m, project', role').Keys;
  }

  /** The turn of a project leaves the slots of other projects, and those of its types still to come. */
  lemma {:induction false} OtherRowsKept(
      w: Work, g: Group, types: nat, u: nat, professors: Catalog, project: string, role: nat)
    requires WorkOk(w) && Has(w, g.code) && (project != g.code || role >= types)
    ensures var v := ReconcileAll(w, g, types, u, professors);
            WorkOk(v) && Has(v, g.code) &&
            SlotRows(v.data.evaluators, project, role) == SlotRows(w.data.evaluators, project, role)
    decreases types
  {
    hide Reconcile, SlotRows, WorkOk, ListedFor;
    if types > 0 {
      OtherRowsKept(w, g, types - 1, u, professors, project, role);
      var v, listed := ReconcileAll(w, g, types - 1, u, professors), ListedFor(g, types - 1, professors);
      ReconcileWorkOk(v, g.code, types - 1, listed, u);
      ReconcileOwn(v, g.code, types - 1, listed, u, u);
      OtherSlotRows(v, g.code, types - 1, listed, u, project, role);
    }
  }

  /** The group is safe, read off the tables before the whole file. */
  ghost predicate SafeAtOnce(d: Data, g: Group, types: nat, professors: Catalog, id: nat) {
    forall role :: 0 <= role < types ==> SlotSafe(d, g.code, role, ListedFor(g, role, professors), id)
  }

  ghost predicate GroupSafeAtOnce(d: Data, g: Group, professors: Catalog, id: nat) {
    g.code !in Own(d, id) && SafeAtOnce(d, g, TYPES, professors, id)
  }

  lemma SafeAtOnceStep(d: Data, g: Group, role: nat, professors: Catalog, id: nat)
    ensures SafeAtOnce(d, g, role + 1, professors, id) <==>
            SafeAtOnce(d, g, role, professors, id) && SlotSafe(d, g.code, role, ListedFor(g, role, professors), id)
  {
    hide SlotSafe, ListedFor;
  }

  lemma {:induction false} RolesAtOnce(w: Work, g: Group, types: nat, u: nat, professors: Catalog, id: nat)
    requires WorkOk(w) && Has(w, g.code)
    ensures RolesSafe(w, g, types, u, professors, id) <==> SafeAtOnce(w.data, g, types, professors, id)
    decreases types
  {
    hide SlotSafe, SafeAtOnce, ListedFor, WorkOk, Has, ReconcileAll, SlotRows, Own;
    if types > 0 {
      var role := types - 1;
      var v, listed := ReconcileAll(w, g, role, u, professors), ListedFor(g, role, professors);
      RolesAtOnce(w, g, role, u, professors, id);
      SafeAtOnceStep(w.data, g, role, professors, id);
      AllOwn(w, g, role, u, professors, id);
      OtherRowsKept(w, g, role, u, professors, g.code, role);
      SafeBySlot(v.data, w.data, g.code, role, listed, id);
      SafeBySlot(w.data, v.data, g.code, role, listed, id);
    } else {
      NoneAtOnce(w.data, g, professors, id);
    }
  }

  lemma NoneAtOnce(d: Data, g: Group, professors: Catalog, id: nat)
    ensures SafeAtOnce(d, g, 0, professors, id)
  {}

  /** A file in which each project has one group. */
  ghost predicate OneGroupEach(groups: seq<Group>) {
    forall i, j :: 0 <= i < j < |groups| ==> groups[i].code != groups[j].code
  }

  ghost predicate NotNamed(groups: seq<Group>, code: string) {
    forall i :: 0 <= i < |groups| ==> groups[i].code != code
  }

  /** Projects that the file does not name keep their evaluators. */
  lemma {:induction false} FileKeepsOthers(
      w: Work, groups: seq<Group>, period: int, u: nat, professors: Catalog, id: nat, code: string, role: nat)
    requires WorkOk(w) && u != id && Load(w, groups, period, u, professors).Some? && NotNamed(groups, code)
    ensures var v := Load(w, groups, period, u, professors).value;
            && WorkOk(v) && Own(v.data, id) == Own(w.data, id)
            && SlotRows(v.data.evaluators, code, role) == SlotRows(w.data.evaluators, code, role)
    decreases |groups|
  {
    hide WorkOk, Own, SlotRows, ReconcileAll, Prepared;
    if groups != [] {
      var init, g := groups[..|groups| - 1], groups[|groups| - 1];
      assert NotNamed(init, code) && g.code != code;
      FileKeepsOthers(w, init, period, u, professors, id, code, role);
      var v := Load(w, init, period, u, professors).value;
      PreparedFacts(v, g, period, u, id);
      var x := Prepared(v, g, period, u).value;
      AllOwn(x, g, TYPES, u, professors, id);
      OtherRowsKept(x, g, TYPES, u, professors, code, role);
    }
  }

  lemma GroupAtOnce(w: Work, v: Work, g: Group, period: int, u: nat, professors: Catalog, id: nat)
    requires WorkOk(v) && u != id && Prepared(v, g, period, u).Some? && Own(v.data, id) == Own(w.data, id)
    requires forall role :: SlotRows(v.data.evaluators, g.code, role) == SlotRows(w.data.evaluators, g.code, role)
    ensures GroupSafe(v, g, period, u, professors, id) <==> GroupSafeAtOnce(w.data, g, professors, id)
  {
    hide WorkOk, Own, SlotRows, SlotSafe, RolesSafe, Prepared, ListedFor;
    PreparedFacts(v, g, period, u, id);
    var x := Prepared(v, g, period, u).value;
    RolesAtOnce(x, g, TYPES, u, professors, id);
    forall role | 0 <= role < TYPES
      ensures var listed := ListedFor(g, role, professors);
              SlotSafe(x.data, g.code, role, listed, id) <==> SlotSafe(w.data, g.code, role, listed, id)
    {
      SafeBySlot(x.data, w.data, g.code, role, ListedFor(g, role, professors), id);
      SafeBySlot(w.data, x.data, g.code, role, ListedFor(g, role, professors), id);
    }
  }

  /**
   * For a file that names each project once, whether it is safe can be read off the tables before it, slot
   * by slot.
   */
  lemma {:induction false} FileSafeAtOnce(w: Work, groups: seq<Group>, period: int, u: nat, professors: Catalog,
                                          id: nat)
    requires WorkOk(w) && u != id && OneGroupEach(groups) && Load(w, groups, period, u, professors).Some?
    ensures FileSafe(w, groups, period, u, professors, id) <==>
            forall i :: 0 <= i < |groups| ==> GroupSafeAtOnce(w.data, groups[i], professors, id)
    decreases |groups|
  {
    hide WorkOk, GroupSafe, GroupSafeAtOnce, ReconcileAll, Prepared, SlotRows, Own;
    if groups != [] {
      var init, g := groups[..|groups| - 1], groups[|groups| - 1];
      assert forall i :: 0 <= i < |init| ==> groups[i] == init[i];
      FileSafeAtOnce(w, init, period, u, professors, id);
      var v := Load(w, init, period, u, professors).value;
      forall role ensures SlotRows(v.data.evaluators, g.code, role) == SlotRows(w.data.evaluators, g.code, role) {
        FileKeepsOthers(w, init, period, u, professors, id, g.code, role);
      }
      FileKeepsOthers(w, init, period, u, professors, id, g.code, 0);
      GroupAtOnce(w, v, g, period, u, professors, id);
    }
  }

  // ---------------------------------------------------------------- one slot, in terms of its lists

  ghost predicate AllListed(m: map<nat, Evaluator>, project: string, role: nat, listed: seq<nat>) {
    forall p :: ActiveFor(m, project, role, p) ==> p in listed
  }

  ghost predicate NoneNewListed(m: map<nat, Evaluator>, project: string, role: nat, first: seq<nat>, second: seq<nat>) {
    forall p :: p in first && !ActiveFor(m, project, role, p) ==> p !in second
  }

  /** The rows to be woken are those of active professors whom the first list does not name. */
  lemma WokenRows(w: Work, project: string, role: nat, first: seq<nat>, id: nat, p: nat)
    requires WorkOk(w) && Unmentioned(w.data, id)
    ensures var m := Reconcile(w, project, role, first, id).data.evaluators;
            ActiveFor(w.data.evaluators, project, role, p) && p !in first <==>
            exists k :: k in m && InSlot(m[k], project, role) && Woken(m[k], id) && m[k].professor == p
  {
    var m := w.data.evaluators;
    var kept := Deactivate(m, project, role, first, id);
    AddMissingExact(kept, w.nextEvaluator, project, role, first, id);
    var after := Reconcile(w, project, role, first, id).data.evaluators;
    if ActiveFor(m, project, role, p) && p !in first {
      var k :| k in m && InSlot(m[k], project, role) && m[k].active && m[k].professor == p;
      assert after[k] == kept[k] && Woken(kept[k], id);
    }
    if k :| k in after && InSlot(after[k], project, role) && Woken(after[k], id) && after[k].professor == p {
      assert k in kept && after[k] == kept[k] && k in m;
      assert m[k].active;
    }
  }

  lemma WokenListedBy(w: Work, project: string, role: nat, first: seq<nat>, second: seq<nat>, id: nat)
    requires WorkOk(w) && Unmentioned(w.data, id)
    ensures WokenListed(Reconcile(w, project, role, first, id).data.evaluators, project, role, second, id) <==>
            forall p :: ActiveFor(w.data.evaluators, project, role, p) && p !in first ==> p in second
  {
    hide ActiveFor, Reconcile, WorkOk, Unmentioned;
    var m := Reconcile(w, project, role, first, id).data.evaluators;
    if WokenListed(m, project, role, second, id) {
      forall p | ActiveFor(w.data.evaluators, project, role, p) && p !in first ensures p in second {
        WokenRows(w, project, role, first, id, p);
      }
    }
    if forall p :: ActiveFor(w.data.evaluators, project, role, p) && p !in first ==> p in second {
      forall k | k in m && InSlot(m[k], project, role) && Woken(m[k], id) ensures m[k].professor in second {
        WokenRows(w, project, role, first, id, m[k].professor);
      }
    }
  }

  lemma SameActiveBy(w: Work, project: string, role: nat, first: seq<nat>, second: seq<nat>, id: nat)
    requires WorkOk(w) && Rollback(Reconcile(w, project, role, first, id).data, id) == w.data
    ensures var x := Reconcile(w, project, role, first, id).data;
            SameActive(x.evaluators, Own(x, id), project, role, second, id) <==>
            forall p :: p in second ==> (p in first <==> ActiveFor(w.data.evaluators, project, role, p))
  {
    hide ActiveFor, Reconcile, WorkOk, Own, Undone, Rollback;
    var x := Reconcile(w, project, role, first, id).data;
    UndoneEvaluators(x, id);
    forall p ensures ActiveFor(x.evaluators, project, role, p) <==> p in first {
      ReconcileActive(w, project, role, first, id, project, role, p);
    }
  }

  /** In the slot, the first upload deactivated nobody and added nobody whom the second one lists. */
  lemma SlotSafeLists(w: Work, project: string, role: nat, first: seq<nat>, second: seq<nat>, id: nat)
    requires WorkOk(w) && Unmentioned(w.data, id)
    requires Rollback(Reconcile(w, project, role, first, id).data, id) == w.data
    ensures SlotSafe(Reconcile(w, project, role, first, id).data, project, role, second, id) <==>
            AllListed(w.data.evaluators, project, role, first) &&
            NoneNewListed(w.data.evaluators, project, role, first, second)
  {
    hide Reconcile, WorkOk, Unmentioned, ActiveFor, Rollback, Own, SameActive, WokenListed;
    WokenListedBy(w, project, role, first, second, id);
    SameActiveBy(w, project, role, first, second, id);
  }

  /**
   * Two uploads assign lists to one slot, and the first is rolled back. What is left is the second list
   * assigned to the rows from before both, if and only if the first upload deactivated nobody and added
   * nobody whom the second one lists.
   */
  lemma OneSlotExact(w: Work, project: string, role: nat, first: seq<nat>, second: seq<nat>, id: nat, u: nat)
    requires WorkOk(w) && Unmentioned(w.data, id) && project in w.data.projects && u != id
    ensures var x := Reconcile(w, project, role, first, id);
            Rollback(Reconcile(x, project, role, second, u).data, id) ==
            Reconcile(w.(nextEvaluator := x.nextEvaluator), project, role, second, u).data <==>
            AllListed(w.data.evaluators, project, role, first) &&
            NoneNewListed(w.data.evaluators, project, role, first, second)
  {
    var x := Reconcile(w, project, role, first, id);
    var y := w.(nextEvaluator := x.nextEvaluator);
    SlotRolledBack(w, project, role, first, id);
    hide Reconcile, WorkOk, Unmentioned, Rollback, AllListed, NoneNewListed, SlotSafe, Apart;
    SlotSafeLists(w, project, role, first, second, id);
    SlotExact(x, y, project, role, second, u, id);
    var x', y' := Reconcile(x, project, role, second, u), Reconcile(y, project, role, second, u);
    if Off(x', y', id) {
      ApartDiffers(x'.data, y'.data, id);
    }
  }

  lemma SlotRolledBack(w: Work, project: string, role: nat, listed: seq<nat>, id: nat)
    requires WorkOk(w) && Unmentioned(w.data, id) && project in w.data.projects
    ensures var x := Reconcile(w, project, role, listed, id);
            Sync(x, w.(nextEvaluator := x.nextEvaluator), id) && Rollback(x.data, id) == w.data &&
            project !in Own(x.data, id) && project in x.data.projects
  {
    ReconcileUnderWay(w, w, project, role, listed, id);
    RollbackRestores(w, Reconcile(w, project, role, listed, id).data, id);
    ReconcileOwn(w, project, role, listed, id, id);
  }
}
