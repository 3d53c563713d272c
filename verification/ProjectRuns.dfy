/**
 * Whole runs of project uploads and rollbacks: last in first out everything is restored, and in any
 * other order exactly the rollbacks that no later upload depends on.
 */
module ProjectRuns {
  import opened Wrappers
  import opened Histories
  import opened EvaluatorLists
  import opened SqlText
  import opened Projects
  import opened ProjectUndo

  /** An accepted upload, with where the id sequences stood. */
  datatype Upload = Upload(logId: nat, groups: seq<Group>, period: int, professors: Catalog,
                           nextStudent: nat, nextEvaluator: nat)

  function LogId(u: Upload): nat { u.logId }

  datatype State = State(work: Work, nextId: nat, survivors: seq<Upload>)

  datatype Event =
    | LoadFile(groups: seq<Group>, period: int, professors: Catalog, hasErrors: bool)
    | Undo(logId: nat, blocked: bool)     // blocked: a project of the upload has rubric evaluations

  function Step(s: State, ev: Event): State {
    match ev
    case LoadFile(groups, period, professors, hasErrors) =>
      (match Load(s.work, groups, period, s.nextId, professors)
       case None => s
       case Some(w) =>
         if hasErrors then s
         else State(w, s.nextId + 1, s.survivors + [Accepted(s, groups, period, professors)]))
    case Undo(logId, blocked) =>
      if blocked || logId >= s.nextId then s
      else s.(work := s.work.(data := Rollback(s.work.data, logId)), survivors := Without(s.survivors, logId, LogId))
  }

  function Accepted(s: State, groups: seq<Group>, period: int, professors: Catalog): Upload {
    Upload(s.nextId, groups, period, professors, s.work.nextStudent, s.work.nextEvaluator)
  }

  function Run(s: State, events: seq<Event>): State {
    if events == [] then s else Step(Run(s, events[..|events| - 1]), events[|events| - 1])
  }

  function LoadUpload(d: Data, u: Upload): Option<Work> {
    Load(At(d, u), u.groups, u.period, u.logId, u.professors)
  }

  /** The tables with the id sequences of an upload. */
  function At(d: Data, u: Upload): Work { Work(d, u.nextStudent, u.nextEvaluator) }

  /** The tables after the given uploads and no rollback. */
  function Replay(base: Data, h: seq<Upload>): Data {
    if h == [] then base
    else
      var before := Replay(base, h[..|h| - 1]);
      match LoadUpload(before, h[|h| - 1])
      case None => before
      case Some(w) => w.data
  }

  /** Every upload id in the tables is below `next`. */
  ghost predicate Older(d: Data, next: nat) {
    && (forall c :: c in d.projects && d.projects[c].uploadLogId.Some? ==> d.projects[c].uploadLogId.value < next)
    && (forall k :: k in d.students && d.students[k].uploadLogId.Some? ==> d.students[k].uploadLogId.value < next)
    && (forall k :: k in d.evaluators && d.evaluators[k].uploadLogId.Some? ==> d.evaluators[k].uploadLogId.value < next)
    && (forall k :: k in d.evaluators && d.evaluators[k].deactivatedBy.Some? ==>
          d.evaluators[k].deactivatedBy.value < next)
  }

  /** The upload can be loaded over these tables, under ids that they do not use yet. */
  ghost predicate Fits(d: Data, u: Upload) {
    WorkOk(At(d, u)) && Older(d, u.logId) && LoadUpload(d, u).Some?
  }

  ghost predicate HistoryOk(base: Data, h: seq<Upload>) {
    if h == [] then OneActive(base.evaluators)
    else HistoryOk(base, h[..|h| - 1]) && Fits(Replay(base, h[..|h| - 1]), h[|h| - 1])
  }

  // ---------------------------------------------------------------- one more upload

  lemma OlderGrows(before: Data, d: Data, logId: nat)
    requires Older(before, logId) && Grown(before, d, logId)
    ensures Older(d, logId + 1)
  {}

  lemma OlderUnmentioned(d: Data, next: nat)
    requires Older(d, next)
    ensures Unmentioned(d, next)
  {}

  lemma OlderRolledBack(d: Data, next: nat, id: nat)
    requires Older(d, next)
    ensures Older(Rollback(d, id), next)
  {}

  /** An upload that fits keeps every invariant, and its rollback restores the tables. */
  lemma FittingUpload(d: Data, u: Upload)
    requires Fits(d, u)
    ensures var w := LoadUpload(d, u).value;
            && WorkOk(w) && u.nextStudent <= w.nextStudent && u.nextEvaluator <= w.nextEvaluator
            && Older(w.data, u.logId + 1) && (OneActive(d.evaluators) ==> OneActive(w.data.evaluators))
            && Rollback(w.data, u.logId) == d
  {
    var w := At(d, u);
    OlderUnmentioned(d, u.logId);
    LoadUnderWay(w, u.groups, u.period, u.logId, u.professors);
    OlderGrows(d, LoadUpload(d, u).value.data, u.logId);
    UploadThenRollback(w, u.groups, u.period, u.logId, u.professors);
  }

  lemma {:induction false} ReplayOneActive(base: Data, h: seq<Upload>)
    requires HistoryOk(base, h)
    ensures OneActive(Replay(base, h).evaluators)
  {
    hide Fits, OneActive, LoadUpload;
    if h != [] {
      ReplayOneActive(base, h[..|h| - 1]);
      FitsLoads(Replay(base, h[..|h| - 1]), h[|h| - 1]);
      FittingUpload(Replay(base, h[..|h| - 1]), h[|h| - 1]);
    }
  }

  lemma FitsLoads(d: Data, u: Upload)
    requires Fits(d, u)
    ensures LoadUpload(d, u).Some?
  {}

  // ---------------------------------------------------------------- one upload less

  /** No upload after this one depends on it: each is safe over the tables as they were when it came. */
  ghost predicate Undisturbed(base: Data, h: seq<Upload>, id: nat) {
    h == [] ||
    var u := h[|h| - 1];
    u.logId == id || (Undisturbed(base, h[..|h| - 1], id) && SafeOver(Replay(base, h[..|h| - 1]), u, id))
  }

  ghost predicate SafeOver(d: Data, u: Upload, id: nat) {
    FileSafe(At(d, u), u.groups, u.period, u.logId, u.professors, id)
  }

  ghost predicate Ids(h: seq<Upload>) {
    forall i, j :: 0 <= i < j < |h| ==> h[i].logId < h[j].logId
  }

  ghost predicate Contains(h: seq<Upload>, id: nat) {
    exists i :: 0 <= i < |h| && h[i].logId == id
  }

  /** The upload over the tables with and without an earlier one. */
  lemma UploadExact(d: Data, u: Upload, id: nat)
    requires Fits(d, u) && u.logId != id
    ensures if SafeOver(d, u, id)
            then Fits(Rollback(d, id), u) &&
                 LoadUpload(Rollback(d, id), u).value.data == Rollback(LoadUpload(d, u).value.data, id)
            else Fits(Rollback(d, id), u) ==>
                 Apart(LoadUpload(d, u).value.data, LoadUpload(Rollback(d, id), u).value.data, id)
  {
    var x, y := At(d, u), At(Rollback(d, id), u);
    RollbackKeepsWorkOk(x, id);
    OlderRolledBack(d, u.logId, id);
    hide Load, FileSafe, WorkOk, Older, Apart, Rollback;
    FileExact(x, y, u.groups, u.period, u.logId, u.professors, id);
  }

  lemma UploadStaysApart(d: Data, e: Data, u: Upload, id: nat)
    requires Fits(d, u) && Fits(e, u) && u.logId != id && Apart(d, e, id)
    ensures Apart(LoadUpload(d, u).value.data, LoadUpload(e, u).value.data, id)
  {
    hide Load, WorkOk, Older, Apart;
    FileStaysOff(At(d, u), At(e, u), u.groups, u.period, u.logId, u.professors, id);
  }

  lemma HistoryAppend(base: Data, h: seq<Upload>, u: Upload)
    ensures HistoryOk(base, h + [u]) <==> HistoryOk(base, h) && Fits(Replay(base, h), u)
    ensures LoadUpload(Replay(base, h), u).Some? ==> Replay(base, h + [u]) == LoadUpload(Replay(base, h), u).value.data
  {
    hide Fits, LoadUpload;
    assert (h + [u])[..|h|] == h;
  }

  lemma UndisturbedAppend(base: Data, h: seq<Upload>, u: Upload, id: nat)
    ensures Undisturbed(base, h + [u], id) <==>
            u.logId == id || (Undisturbed(base, h, id) && SafeOver(Replay(base, h), u, id))
  {
    hide SafeOver, Replay;
    assert (h + [u])[..|h|] == h;
  }

  /** What the history without an upload has to do with the tables after its rollback. */
  ghost predicate Related(base: Data, h: seq<Upload>, id: nat) {
    var rest := Without(h, id, LogId);
    if Undisturbed(base, h, id)
    then HistoryOk(base, rest) && Replay(base, rest) == Rollback(Replay(base, h), id)
    else HistoryOk(base, rest) ==> Apart(Replay(base, h), Replay(base, rest), id)
  }

  lemma RelatedNewest(base: Data, h: seq<Upload>, u: Upload)
    requires HistoryOk(base, h + [u]) && forall i :: 0 <= i < |h| ==> h[i].logId < u.logId
    ensures Related(base, h + [u], u.logId)
  {
    hide Fits, LoadUpload, HistoryOk, Replay, SafeOver, Rollback, Apart;
    HistoryAppend(base, h, u);
    UndisturbedAppend(base, h, u, u.logId);
    FitsLoads(Replay(base, h), u);
    FittingUpload(Replay(base, h), u);
    WithoutAppend(h, u, u.logId, LogId);
    WithoutAbsent(h, u.logId, LogId);
  }

  lemma RelatedGrows(base: Data, h: seq<Upload>, u: Upload, id: nat)
    requires HistoryOk(base, h + [u]) && u.logId != id && Related(base, h, id)
    ensures Related(base, h + [u], id)
  {
    hide Fits, LoadUpload, HistoryOk, Replay, SafeOver, Rollback, Apart, Undisturbed, Without;
    var d, rest := Replay(base, h), Without(h, id, LogId);
    HistoryAppend(base, h, u);
    HistoryAppend(base, rest, u);
    UndisturbedAppend(base, h, u, id);
    WithoutAppend(h, u, id, LogId);
    FitsLoads(d, u);
    if Fits(Replay(base, rest), u) {
      FitsLoads(Replay(base, rest), u);
    }
    if Undisturbed(base, h, id) {
      UploadExact(d, u, id);
      if SafeOver(d, u, id) {
        FitsLoads(Rollback(d, id), u);
      }
    } else if HistoryOk(base, rest) && Fits(Replay(base, rest), u) {
      UploadStaysApart(d, Replay(base, rest), u, id);
    }
  }

  lemma {:induction false} AlwaysRelated(base: Data, h: seq<Upload>, id: nat)
    requires HistoryOk(base, h) && Ids(h) && Contains(h, id)
    ensures Related(base, h, id)
    decreases |h|
  {
    hide HistoryOk, Related;
    var init, u := h[..|h| - 1], h[|h| - 1];
    assert h == init + [u];
    if u.logId == id {
      RelatedNewest(base, init, u);
    } else {
      HistoryAppend(base, init, u);
      AlwaysRelated(base, init, id);
      RelatedGrows(base, init, u, id);
    }
  }

  /**
   * Rolling back any upload of a history, however old: the other uploads can all be loaded without it and
   * give the very tables that are left, if and only if no later upload depends on it.
   */
  lemma UndoExact(base: Data, h: seq<Upload>, id: nat)
    requires HistoryOk(base, h) && Ids(h) && Contains(h, id)
    ensures var rest := Without(h, id, LogId);
            HistoryOk(base, rest) && Rollback(Replay(base, h), id) == Replay(base, rest) <==> Undisturbed(base, h, id)
  {
    hide HistoryOk, Undisturbed, Replay, Rollback, Apart;
    AlwaysRelated(base, h, id);
    if !Undisturbed(base, h, id) && HistoryOk(base, Without(h, id, LogId)) {
      ApartDiffers(Replay(base, h), Replay(base, Without(h, id, LogId)), id);
    }
  }

  // ---------------------------------------------------------------- runs

  /** Rows that were there before all uploads. */
  ghost predicate Seed(base: Data) {
    forall id :: Unmentioned(base, id)
  }

  ghost predicate StateOk(base: Data, s: State) {
    && Seed(base) && WorkOk(s.work) && Older(s.work.data, s.nextId)
    && HistoryOk(base, s.survivors) && Ids(s.survivors)
    && (forall u :: u in s.survivors ==> u.logId < s.nextId)
    && s.work.data == Replay(base, s.survivors)
  }

  lemma UploadUnmentioned(d: Data, u: Upload, id: nat)
    requires Fits(d, u) && u.logId != id && Unmentioned(d, id)
    ensures Unmentioned(LoadUpload(d, u).value.data, id)
  {
    hide Load;
    LoadUnderWay(At(d, u), u.groups, u.period, u.logId, u.professors);
  }

  lemma {:induction false} ReplayUnmentioned(base: Data, h: seq<Upload>, id: nat)
    requires HistoryOk(base, h) && Unmentioned(base, id) && !Contains(h, id)
    ensures Unmentioned(Replay(base, h), id)
  {
    hide Fits, LoadUpload, Unmentioned;
    if h != [] {
      var n := |h| - 1;
      assert h[n].logId != id && forall i :: 0 <= i < n ==> h[..n][i] == h[i];
      ReplayUnmentioned(base, h[..n], id);
      FitsLoads(Replay(base, h[..n]), h[n]);
      UploadUnmentioned(Replay(base, h[..n]), h[n], id);
    }
  }

  lemma RollbackNothing(d: Data, id: nat)
    requires Unmentioned(d, id)
    ensures Rollback(d, id) == d
  {
    assert Own(d, id) == {};
    assert (map c | c in d.projects && c !in Own(d, id) :: d.projects[c]) == d.projects;
    assert (map k | k in d.students && d.students[k].project !in Own(d, id) :: d.students[k]) == d.students;
    assert Undone(d.evaluators, {}, id) == d.evaluators;
  }

  lemma {:induction false} IdsWithout(h: seq<Upload>, id: nat)
    requires Ids(h)
    ensures Ids(Without(h, id, LogId))
  {
    if h != [] {
      var n := |h| - 1;
      IdsWithout(h[..n], id);
      var w := Without(h[..n], id, LogId);
      forall i | 0 <= i < |w| ensures w[i].logId < h[n].logId {
        WithoutMembers(h[..n], id, LogId, w[i]);
      }
    }
  }

  lemma LoadKeepsOk(base: Data, s: State, groups: seq<Group>, period: int, professors: Catalog, hasErrors: bool)
    requires StateOk(base, s)
    ensures StateOk(base, Step(s, LoadFile(groups, period, professors, hasErrors)))
  {
    hide Seed, WorkOk, OneActive, Older, HistoryOk, Replay, Load, LoadUpload;
    var u := Accepted(s, groups, period, professors);
    assert At(s.work.data, u) == s.work;
    if !hasErrors && Load(s.work, groups, period, s.nextId, professors).Some? {
      LoadsAt(s.work.data, u);
      FittingUpload(s.work.data, u);
      HistoryAppend(base, s.survivors, u);
    }
  }

  lemma LoadsAt(d: Data, u: Upload)
    ensures LoadUpload(d, u) == Load(At(d, u), u.groups, u.period, u.logId, u.professors)
  {}

  /** A surviving upload is only rolled back while no later one depends on it. */
  ghost predicate Orderly(base: Data, s: State, ev: Event) {
    ev.Undo? && !ev.blocked && Contains(s.survivors, ev.logId) ==> Undisturbed(base, s.survivors, ev.logId)
  }

  lemma UndoKeepsOk(base: Data, s: State, id: nat)
    requires StateOk(base, s) && (Contains(s.survivors, id) ==> Undisturbed(base, s.survivors, id))
    ensures StateOk(base, Step(s, Undo(id, false)))
  {
    hide WorkOk, Older, HistoryOk, Replay, Rollback, Unmentioned, Undisturbed;
    var rest := Without(s.survivors, id, LogId);
    OlderRolledBack(s.work.data, s.nextId, id);
    RollbackKeepsWorkOk(s.work, id);
    IdsWithout(s.survivors, id);
    forall u | u in rest ensures u.logId < s.nextId {
      WithoutMembers(s.survivors, id, LogId, u);
    }
    if Contains(s.survivors, id) {
      UndoExact(base, s.survivors, id);
    } else {
      WithoutAbsent(s.survivors, id, LogId);
      ReplayUnmentioned(base, s.survivors, id);
      RollbackNothing(s.work.data, id);
    }
  }

  lemma StepKeepsOk(base: Data, s: State, ev: Event)
    requires StateOk(base, s) && Orderly(base, s, ev)
    ensures StateOk(base, Step(s, ev))
  {
    hide StateOk, Load, Rollback, Without, Undisturbed;
    match ev
    case LoadFile(groups, period, professors, hasErrors) => LoadKeepsOk(base, s, groups, period, professors, hasErrors);
    case Undo(logId, blocked) =>
      if !blocked {
        UndoKeepsOk(base, s, logId);
      }
  }

  /**
   * Over every run in which no rollback takes an upload that a later one depends on, the three tables are
   * those of the surviving uploads alone. Any other rollback leaves something else, as UndoExact says.
   */
  lemma {:induction false} AnyOrderTheorem(base: Data, start: State, events: seq<Event>)
    requires StateOk(base, start)
    requires forall n :: 0 <= n < |events| ==> Orderly(base, Run(start, events[..n]), events[n])
    ensures StateOk(base, Run(start, events))
    decreases |events|
  {
    hide StateOk, Orderly, Step;
    if events != [] {
      var n := |events| - 1;
      var init := events[..n];
      forall i | 0 <= i < n ensures Orderly(base, Run(start, init[..i]), init[i]) {
        assert init[..i] == events[..i];
      }
      AnyOrderTheorem(base, start, init);
      StepKeepsOk(base, Run(start, init), events[n]);
    }
  }

  /** Only the latest surviving upload is rolled back. */
  ghost predicate Lifo(s: State, ev: Event) {
    ev.Undo? && !ev.blocked && Contains(s.survivors, ev.logId) ==> s.survivors[|s.survivors| - 1].logId == ev.logId
  }

  /**
   * Over every run of uploads and last-in-first-out rollbacks: the three tables are those of the
   * surviving uploads alone, no active row is marked, and no two active rows are twins.
   */
  lemma LifoTheorem(base: Data, start: State, events: seq<Event>)
    requires StateOk(base, start)
    requires forall n :: 0 <= n < |events| ==> Lifo(Run(start, events[..n]), events[n])
    ensures StateOk(base, Run(start, events)) && OneActive(Run(start, events).work.data.evaluators)
  {
    hide StateOk, Step;
    forall n | 0 <= n < |events| ensures Orderly(base, Run(start, events[..n]), events[n]) {
      assert Lifo(Run(start, events[..n]), events[n]);
    }
    AnyOrderTheorem(base, start, events);
    StateOneActive(base, Run(start, events));
  }

  lemma StateOneActive(base: Data, s: State)
    requires StateOk(base, s)
    ensures OneActive(s.work.data.evaluators)
  {
    ReplayOneActive(base, s.survivors);
  }

  /** Undoing the latest surviving upload gives back, exactly, the tables from before that upload. */
  lemma UndoLastRestores(base: Data, s: State)
    requires StateOk(base, s) && s.survivors != []
    ensures var h := s.survivors;
            Step(s, Undo(h[|h| - 1].logId, false)).work.data == Replay(base, h[..|h| - 1])
  {
    var h := s.survivors;
    var u := h[|h| - 1];
    assert u in h;
    hide WorkOk, Older, HistoryOk, LoadUpload, Rollback;
    assert h == h[..|h| - 1] + [u];
    HistoryAppend(base, h[..|h| - 1], u);
    FittingUpload(Replay(base, h[..|h| - 1]), u);
  }

  // ---------------------------------------------------------------- two files, rolled back out of order

  /** A file for project "P" with one cell, in the first evaluator column. */
  function Names(cell: string): seq<Group> {
    [Group("P", "p", "p", [], [Some(cell)])]
  }

  const PROFESSORS: Catalog := map["7" := 7, "8" := 8]

  /** The project with one student of period 1, and these evaluators. */
  function ProjectP(evaluators: map<nat, Evaluator>, next: nat): Work {
    Work(Data(map["P" := Project(None, "p", "p")], map[0 := Student("P", 0, 1, None)], evaluators), 1, next)
  }

  /** Only the first evaluator column is in use. */
  ghost predicate FirstColumn(m: map<nat, Evaluator>) {
    forall k :: k in m && m[k].project == "P" ==> m[k].role == 0
  }

  lemma EmptySlot(w: Work, role: nat, u: nat)
    requires FirstColumn(w.data.evaluators) && role > 0
    ensures Reconcile(w, "P", role, [], u) == w
  {
    assert Deactivate(w.data.evaluators, "P", role, [], u) == w.data.evaluators;
  }

  lemma StaysFirstColumn(w: Work, listed: seq<nat>, u: nat)
    requires WorkOk(w) && FirstColumn(w.data.evaluators)
    ensures FirstColumn(Reconcile(w, "P", 0, listed, u).data.evaluators)
  {
    var m := Reconcile(w, "P", 0, listed, u).data.evaluators;
    forall k | k in m && m[k].project == "P" ensures m[k].role == 0 {
      ReconcileAssigns(w, "P", 0, listed, u);
      if k in w.data.evaluators {
        ReconcileKeepsSlot(w, "P", 0, listed, u, k);
      }
    }
  }

  lemma ListedHere(cell: string, p: nat)
    requires (cell == "7" && p == 7) || (cell == "8" && p == 8)
    ensures ListedFor(Names(cell)[0], 0, PROFESSORS) == [p]
  {
    assert Join([cell]) == cell;
    assert Clean(cell) by { assert cell[0] != ',' && Trim(cell) == cell; }
    CodesOfJoin([cell]);
    assert [cell][..0] == [];
    assert "7"[0] != "8"[0];
  }

  lemma {:induction false} FirstColumnOnly(w: Work, cell: string, types: nat, u: nat, listed: seq<nat>)
    requires WorkOk(w) && FirstColumn(w.data.evaluators) && types > 0
    requires listed == ListedFor(Names(cell)[0], 0, PROFESSORS)
    ensures ReconcileAll(w, Names(cell)[0], types, u, PROFESSORS) == Reconcile(w, "P", 0, listed, u)
    decreases types
  {
    hide Reconcile, FirstColumn, WorkOk, Codes, Listed;
    var g := Names(cell)[0];
    AllStep(w, g, types, u, PROFESSORS, u);
    if types > 1 {
      FirstColumnOnly(w, cell, types - 1, u, listed);
      StaysFirstColumn(w, listed, u);
      EmptySlot(Reconcile(w, "P", 0, listed, u), types - 1, u);
    }
  }

  /** Loading such a file assigns its one list to the one slot. */
  lemma NamesLoads(w: Work, cell: string, p: nat, u: nat)
    requires WorkOk(w) && FirstColumn(w.data.evaluators) && Existing(w.data, "P", 1)
    requires (cell == "7" && p == 7) || (cell == "8" && p == 8)
    ensures Load(w, Names(cell), 1, u, PROFESSORS) == Some(Reconcile(w, "P", 0, [p], u))
  {
    hide Reconcile, ReconcileAll, FirstColumn, WorkOk, Existing;
    ListedHere(cell, p);
    FirstColumnOnly(w, cell, TYPES, u, [p]);
    assert Names(cell)[..0] == [];
  }

  lemma StillExisting(w: Work, listed: seq<nat>, u: nat)
    requires WorkOk(w) && FirstColumn(w.data.evaluators) && Existing(w.data, "P", 1)
    ensures var v := Reconcile(w, "P", 0, listed, u);
            WorkOk(v) && FirstColumn(v.data.evaluators) && Existing(v.data, "P", 1)
  {
    ReconcileWorkOk(w, "P", 0, listed, u);
    StaysFirstColumn(w, listed, u);
  }

  /** Two files, one after the other. */
  function TwoFiles(w: Work, first: string, second: string): Option<Work> {
    match Load(w, Names(first), 1, 1, PROFESSORS)
    case None => None
    case Some(v) => Load(v, Names(second), 1, 2, PROFESSORS)
  }

  lemma TwoFilesLoad(w: Work, first: string, p: nat, second: string, q: nat)
    requires WorkOk(w) && FirstColumn(w.data.evaluators) && Existing(w.data, "P", 1)
    requires (first == "7" && p == 7) || (first == "8" && p == 8)
    requires (second == "7" && q == 7) || (second == "8" && q == 8)
    ensures TwoFiles(w, first, second) == Some(Reconcile(Reconcile(w, "P", 0, [p], 1), "P", 0, [q], 2))
  {
    hide Reconcile, Load, FirstColumn, WorkOk, Existing;
    NamesLoads(w, first, p, 1);
    StillExisting(w, [p], 1);
    NamesLoads(Reconcile(w, "P", 0, [p], 1), second, q, 2);
  }

  lemma ProjectPOk(evaluators: map<nat, Evaluator>, next: nat)
    requires forall k :: k in evaluators ==>
               k < next && evaluators[k].project == "P" && evaluators[k].role == 0 &&
                 evaluators[k].deactivatedBy == None
    ensures var w := ProjectP(evaluators, next);
            WorkOk(w) && FirstColumn(evaluators) && Existing(w.data, "P", 1)
  {
    var w := ProjectP(evaluators, next);
    assert 0 in w.data.students;
  }

  /** Professor 7 evaluates; the first file replaces 7 by 8, the second 8 by 7 again. */
  const SEVEN: map<nat, Evaluator> := map[0 := Evaluator("P", 7, 0, None, true, None)]

  lemma SlotOfSeven()
    ensures Reconcile(Reconcile(ProjectP(SEVEN, 1), "P", 0, [8], 1), "P", 0, [7], 2).data.evaluators ==
            map[0 := Evaluator("P", 7, 0, None, false, Some(1)), 1 := Evaluator("P", 8, 0, Some(1), false, Some(2)),
                2 := Evaluator("P", 7, 0, Some(2), true, None)]
  {
    hide AddMissing;
    EightForSeven();
    var one := Reconcile(ProjectP(SEVEN, 1), "P", 0, [8], 1);
    AddSingle(Deactivate(one.data.evaluators, "P", 0, [7], 2), 2, "P", 0, 7, 2);
  }

  lemma EightForSeven()
    ensures var one := Reconcile(ProjectP(SEVEN, 1), "P", 0, [8], 1);
            one.nextEvaluator == 2 && "P" in one.data.projects &&
            one.data.evaluators == map[0 := Evaluator("P", 7, 0, None, false, Some(1)),
                                       1 := Evaluator("P", 8, 0, Some(1), true, None)]
  {
    hide AddMissing;
    AddSingle(Deactivate(SEVEN, "P", 0, [8], 1), 1, "P", 0, 8, 1);
  }

  /** Inserting one professor who is not active. */
  lemma AddSingle(evaluators: map<nat, Evaluator>, next: nat, project: string, role: nat, p: nat, logId: nat)
    requires !ActiveFor(evaluators, project, role, p)
    ensures AddMissing(evaluators, next, project, role, [p], logId) ==
            (evaluators[next := Evaluator(project, p, role, Some(logId), true, None)], next + 1)
  {
    assert [p][..0] == [];
  }

  lemma SevenTwice(d: Data)
    requires "P" !in Own(d, 1)
    requires d.evaluators == map[0 := Evaluator("P", 7, 0, None, false, Some(1)),
                                 1 := Evaluator("P", 8, 0, Some(1), false, Some(2)),
                                 2 := Evaluator("P", 7, 0, Some(2), true, None)]
    ensures !OneActive(Rollback(d, 1).evaluators)
  {
    AfterRollback(d, 1, 0);
    AfterRollback(d, 1, 2);
    hide Rollback;
    assert Twins(Rollback(d, 1).evaluators[0], Rollback(d, 1).evaluators[2]);
  }

  lemma TwoFilesProjects(w: Work, first: string, p: nat, second: string, q: nat)
    requires WorkOk(w) && FirstColumn(w.data.evaluators) && Existing(w.data, "P", 1)
    requires (first == "7" && p == 7) || (first == "8" && p == 8)
    requires (second == "7" && q == 7) || (second == "8" && q == 8)
    requires "P" !in Own(w.data, 1)
    ensures TwoFiles(w, first, second).Some? && "P" !in Own(TwoFiles(w, first, second).value.data, 1)
  {
    hide TwoFiles, Reconcile, FirstColumn, WorkOk, Existing, Own;
    TwoFilesLoad(w, first, p, second, q);
    ReconcileOwn(w, "P", 0, [p], 1, 1);
    ReconcileOwn(Reconcile(w, "P", 0, [p], 1), "P", 0, [q], 2, 1);
  }

  /** Rolling back the first file before the second leaves professor 7 active twice. */
  lemma OutOfOrderBreaksOneActive()
    ensures WorkOk(ProjectP(SEVEN, 1)) && OneActive(SEVEN)
    ensures var two := TwoFiles(ProjectP(SEVEN, 1), "8", "7");
            two.Some? && !OneActive(Rollback(two.value.data, 1).evaluators)
  {
    hide TwoFiles, Reconcile, Rollback;
    var w := ProjectP(SEVEN, 1);
    ProjectPOk(SEVEN, 1);
    TwoFilesLoad(w, "8", 8, "7", 7);
    TwoFilesProjects(w, "8", 8, "7", 7);
    SlotOfSeven();
    SevenTwice(TwoFiles(w, "8", "7").value.data);
  }

  lemma EightLost(d: Data)
    requires d.evaluators == map[0 := Evaluator("P", 8, 0, Some(1), true, None)]
    ensures OneActive(d.evaluators) && !Replaced(d, 1) && Rollback(d, 1).evaluators == map[]
  {}

  lemma EightTwice()
    ensures Reconcile(Reconcile(ProjectP(map[], 0), "P", 0, [8], 1), "P", 0, [8], 2).data.evaluators ==
            map[0 := Evaluator("P", 8, 0, Some(1), true, None)]
  {
    hide AddMissing;
    AddSingle(Deactivate(map[], "P", 0, [8], 1), 0, "P", 0, 8, 1);
    var one := Reconcile(ProjectP(map[], 0), "P", 0, [8], 1).data.evaluators;
    assert one == map[0 := Evaluator("P", 8, 0, Some(1), true, None)];
    var kept := Deactivate(one, "P", 0, [8], 2);
    assert 0 in kept && kept[0] == one[0] && InSlot(kept[0], "P", 0);
    AddPresent(kept, 1, "P", 0, 8, 2);
  }

  lemma AddPresent(evaluators: map<nat, Evaluator>, next: nat, project: string, role: nat, p: nat, logId: nat)
    requires ActiveFor(evaluators, project, role, p)
    ensures AddMissing(evaluators, next, project, role, [p], logId) == (evaluators, next)
  {
    assert [p][..0] == [];
  }

  /**
   * Nobody evaluates; both files name professor 8, so the second one adds nothing. Rolling back the first
   * breaks no rule and loses the evaluator of the second, who would be there without the first.
   */
  lemma OutOfOrderLosesEvaluator()
    ensures var w := ProjectP(map[], 0);
            var two, alone := TwoFiles(w, "8", "8"), Load(w, Names("8"), 1, 2, PROFESSORS);
            && WorkOk(w) && two.Some? && alone.Some?
            && OneActive(two.value.data.evaluators) && !Replaced(two.value.data, 1)
            && ActiveFor(alone.value.data.evaluators, "P", 0, 8)
            && Rollback(two.value.data, 1).evaluators == map[]
  {
    hide TwoFiles, Load, Reconcile, Rollback, OneActive, Replaced;
    var w := ProjectP(map[], 0);
    ProjectPOk(map[], 0);
    TwoFilesLoad(w, "8", 8, "8", 8);
    NamesLoads(w, "8", 8, 2);
    ReconcileActive(w, "P", 0, [8], 2, "P", 0, 8);
    EightTwice();
    EightLost(TwoFiles(w, "8", "8").value.data);
  }
}
