/**
 * Staff uploads once more, from the files alone: replaying the surviving files row by row, each over
 * what the earlier ones left, gives the tables - for files that reach a staff row twice as well, as long
 * as those are not the ones that are rolled back.
 */
module StaffFiles {
  import opened Wrappers
  import opened SqlText
  import opened UndoTable
  import opened UndoReplay
  import opened TwoTables
  import opened Staff
  import Histories

  /** An accepted file, with where the sequence of staff ids stood. */
  datatype Upload = Upload(logId: nat, file: seq<FileRow>, next: nat)

  function FileReplay(base: Start, h: seq<Upload>): Start
    decreases |h|, 1
  {
    if h == [] then base
    else
      var u := h[|h| - 1];
      var w := LoadRows(Before(base, h), u.logId, u.file);
      Pair(w.staff, w.professors)
  }

  /** What the last file of a history finds. */
  function Before(base: Start, h: seq<Upload>): Work
    requires h != []
    decreases |h|, 0
  {
    var t := FileReplay(base, h[..|h| - 1]);
    Work(t.first, t.second, h[|h| - 1].next)
  }

  /** The tables of a history; where the sequence stands does not matter. */
  function TablesOf(base: Start, h: seq<Upload>): Work {
    Work(FileReplay(base, h).first, FileReplay(base, h).second, 0)
  }

  function WithoutFile(h: seq<Upload>, id: nat): seq<Upload> {
    Histories.Without(h, id, FileId)
  }

  function FileId(u: Upload): nat { u.logId }

  function SurvivingStep(db: State, h: seq<Upload>, call: Call, locale: Locale): seq<Upload> {
    match call
    case LoadFile(file) => if Validated(file, locale) then h + [Upload(db.nextId, file, db.work.next)] else h
    case RollBack(id, blocked) => if RollsBack(db, id, blocked) then WithoutFile(h, id) else h
    case OtherType => h
  }

  predicate RollsBack(db: State, id: nat, blocked: bool) {
    id in db.logs && !blocked && Newest(db.work.staff, id) && Newest(db.work.professors, id)
  }

  /** The files that survive a run. */
  function Surviving(start: State, calls: seq<Call>, locale: Locale): seq<Upload> {
    if calls == [] then []
    else
      var n := |calls| - 1;
      SurvivingStep(RunStaff(start, calls[..n], locale), Surviving(start, calls[..n], locale), calls[n], locale)
  }

  // ---------------------------------------------------------------- one file row and a rollback

  /** The tables without upload `id`; the sequence stays where it is. */
  function Undone(w: Work, id: nat): Work {
    Work(Rollback(w.staff, id), Rollback(w.professors, id), w.next)
  }

  ghost predicate NewestOnBoth(w: Work, id: nat) {
    Newest(w.staff, id) && Newest(w.professors, id)
  }

  lemma OneUploaded<K(!new), C(!new)>(t: Table<K, C>, u: nat, k: K, e: Edit<C>, schema: Schema)
    ensures UndoTable.Upload(t, u, map[k := e], schema) == t[k := UploadRow(Lookup(t, k), u, e, schema)]
  {
    hide UploadRow;
  }

  /** Writing one row, with an upload rolled back before or after. */
  lemma WriteCommutes<K(!new), C(!new)>(t: Table<K, C>, u: nat, k: K, e: Edit<C>, schema: Schema, id: nat)
    requires id != u && Newest(t[k := UploadRow(Lookup(t, k), u, e, schema)], id)
    ensures Newest(t, id) && (k in t ==> !Touched(t[k], id))
    ensures Rollback(t[k := UploadRow(Lookup(t, k), u, e, schema)], id) ==
            Rollback(t, id)[k := UploadRow(Lookup(Rollback(t, id), k), u, e, schema)]
  {
    hide Newest, Rollback, UploadRow, Touched;
    OneUploaded(t, u, k, e, schema);
    OneUploaded(Rollback(t, id), u, k, e, schema);
    var b := map[k := e];
    assert k in b && forall l :: l in b ==> l == k;
    NewestAfterUpload(t, Applied(u, b), schema, id);
    RollbackCommutes(t, Applied(u, b), schema, id);
  }

  /** A professor whose staff row an upload has not touched is there without it as well. */
  lemma ProfessorStays(w: Work, id: nat, c: string)
    requires Linked(w) && c in w.professors && !Touched(w.staff[StaffOf(w.professors[c])], id)
    ensures c in Rollback(w.professors, id) && Rollback(w.professors, id)[c] == w.professors[c]
  {}

  lemma TargetWithout(w: Work, r: FileRow, id: nat)
    requires Linked(w)
    requires match Target(w.professors, r)
             case Some(s) => s in w.staff && !Touched(w.staff[s], id)
             case None => true
    ensures Target(Rollback(w.professors, id), r) == Target(w.professors, r)
  {
    hide Linked, Touched, StaffOf;
    var code := Blank(r.professorCode);
    if code.Some? && code.value in w.professors {
      ProfessorStays(w, id, code.value);
    }
  }

  lemma UpdateCommutes(w: Work, u: nat, r: FileRow, s: nat, id: nat)
    requires Linked(w) && u != id && Target(w.professors, r) == Some(s) && s in w.staff
    requires NewestOnBoth(RowStep(w, u, r), id)
    ensures NewestOnBoth(w, id) && RowStep(Undone(w, id), u, r) == Undone(RowStep(w, u, r), id)
  {
    hide Newest, Rollback, Push, Touched, StaffEdit, Linked, Target;
    WriteCommutes(w.staff, u, s, StaffEdit(r), STAFF, id);
    TargetWithout(w, r, id);
    UntouchedStays(w.staff, id, s);
  }

  lemma UntouchedStays<K(!new), C(!new)>(t: Table<K, C>, id: nat, k: K)
    requires k in t && !Touched(t[k], id)
    ensures k in Rollback(t, id)
  {}

  lemma InsertCommutes(w: Work, u: nat, r: FileRow, id: nat)
    requires Linked(w) && u != id && Target(w.professors, r) == None
    requires NewestOnBoth(RowStep(w, u, r), id)
    ensures NewestOnBoth(w, id) && RowStep(Undone(w, id), u, r) == Undone(RowStep(w, u, r), id)
  {
    hide Newest, Rollback, Inserted, Touched, StaffEdit, ProfessorEdit, Linked;
    var code := Blank(r.professorCode);
    TargetWithout(w, r, id);
    FreshKey(w, id);
    WriteCommutes(w.staff, u, w.next, StaffEdit(r), STAFF, id);
    if code.Some? {
      AbsentStays(w.professors, id, code.value);
      WriteCommutes(w.professors, u, code.value, ProfessorEdit(w.next), PROFESSORS, id);
    }
  }

  lemma AbsentStays<K(!new), C(!new)>(t: Table<K, C>, id: nat, k: K)
    requires k !in t
    ensures k !in Rollback(t, id)
  {}

  lemma FreshKey(w: Work, id: nat)
    requires Linked(w)
    ensures w.next !in w.staff && w.next !in Rollback(w.staff, id)
  {}

  /** A file row does the same with and without an upload that is still the newest on all its rows afterwards. */
  lemma RowCommutes(w: Work, u: nat, r: FileRow, id: nat)
    requires Linked(w) && u != id && NewestOnBoth(RowStep(w, u, r), id)
    ensures NewestOnBoth(w, id) && RowStep(Undone(w, id), u, r) == Undone(RowStep(w, u, r), id)
  {
    hide NewestOnBoth, RowStep, Undone;
    match Target(w.professors, r)
    case Some(s) => UpdateCommutes(w, u, r, s, id);
    case None => InsertCommutes(w, u, r, id);
  }

  /** The same for a whole file, whatever staff rows it reaches, and how often. */
  lemma {:induction false} FileCommutes(w: Work, u: nat, file: seq<FileRow>, id: nat)
    requires Linked(w) && u != id && NewestOnBoth(LoadRows(w, u, file), id)
    ensures NewestOnBoth(w, id) && LoadRows(Undone(w, id), u, file) == Undone(LoadRows(w, u, file), id)
  {
    hide NewestOnBoth, RowStep, Undone, Linked;
    if file != [] {
      var n := |file| - 1;
      RowsKeepLinked(w, u, file[..n]);
      RowCommutes(LoadRows(w, u, file[..n]), u, file[n], id);
      FileCommutes(w, u, file[..n], id);
    }
  }

  // ---------------------------------------------------------------- what rows mention

  ghost predicate Mentions(w: Work, id: nat) {
    exists s :: s in w.staff && Touched(w.staff[s], id)
  }

  lemma PushUnmentioned<K(!new), C(!new)>(t: Table<K, C>, u: nat, k: K, e: Edit<C>, schema: Schema, id: nat)
    requires Unmentioned(t, id) && u != id && k in t
    ensures Unmentioned(t[k := Push(t[k], u, e, schema)], id)
  {
    PushStacks(t[k], u, e, schema, id);
  }

  lemma InsertUnmentioned<K(!new), C(!new)>(t: Table<K, C>, u: nat, k: K, e: Edit<C>, id: nat)
    requires Unmentioned(t, id) && u != id
    ensures Unmentioned(t[k := Inserted(u, e)], id)
  {}

  lemma {:induction false} RowsUnmentioned(w: Work, u: nat, file: seq<FileRow>, id: nat)
    requires Unmentioned(w.staff, id) && Unmentioned(w.professors, id) && u != id
    ensures Unmentioned(LoadRows(w, u, file).staff, id) && Unmentioned(LoadRows(w, u, file).professors, id)
  {
    if file != [] {
      hide Unmentioned;
      RowsUnmentioned(w, u, file[..|file| - 1], id);
      RowUnmentioned(LoadRows(w, u, file[..|file| - 1]), u, file[|file| - 1], id);
    }
  }

  lemma RowUnmentioned(w: Work, u: nat, r: FileRow, id: nat)
    requires Unmentioned(w.staff, id) && Unmentioned(w.professors, id) && u != id
    ensures Unmentioned(RowStep(w, u, r).staff, id) && Unmentioned(RowStep(w, u, r).professors, id)
  {
    hide Unmentioned, Push, Inserted, StaffEdit, ProfessorEdit, StaffOf;
    var code := Blank(r.professorCode);
    match Target(w.professors, r)
    case Some(s) =>
      if s in w.staff {
        PushUnmentioned(w.staff, u, s, StaffEdit(r), STAFF, id);
      }
    case None =>
      InsertUnmentioned(w.staff, u, w.next, StaffEdit(r), id);
      if code.Some? {
        InsertUnmentioned(w.professors, u, code.value, ProfessorEdit(w.next), id);
      }
  }

  /** What an upload has left on a staff row stays there when files are loaded. */
  lemma {:induction false} RowsMention(w: Work, u: nat, file: seq<FileRow>, id: nat)
    requires Linked(w) && Mentions(w, id)
    ensures Mentions(LoadRows(w, u, file), id)
  {
    if file != [] {
      hide Mentions, Linked;
      var n := |file| - 1;
      RowsKeepLinked(w, u, file[..n]);
      RowsMention(w, u, file[..n], id);
      RowMentions(LoadRows(w, u, file[..n]), u, file[n], id);
    }
  }

  lemma RowMentions(w: Work, u: nat, r: FileRow, id: nat)
    requires Linked(w) && Mentions(w, id)
    ensures Mentions(RowStep(w, u, r), id)
  {
    hide StaffEdit, ProfessorEdit, Push, Inserted, StaffOf;
    var s :| s in w.staff && Touched(w.staff[s], id);
    if Target(w.professors, r) == Some(s) {
      PushStacks(w.staff[s], u, StaffEdit(r), STAFF, id);
      PushKeepsInserter(w.staff[s], u, StaffEdit(r), STAFF, id);
    }
    assert Touched(RowStep(w, u, r).staff[s], id);
  }

  // ---------------------------------------------------------------- histories of files

  /** Later files have later ids, and each finds professors on staff rows and an unused staff id. */
  ghost predicate Fits(base: Start, h: seq<Upload>) {
    h == [] ||
    var u := h[|h| - 1];
    && Fits(base, h[..|h| - 1]) && Linked(Before(base, h)) && CodesApart(u.file)
    && forall i :: 0 <= i < |h| - 1 ==> h[i].logId < u.logId
  }

  lemma FitsInit(base: Start, h: seq<Upload>)
    requires h != [] && Fits(base, h)
    ensures var n := |h| - 1;
      && Fits(base, h[..n]) && Linked(Before(base, h)) && CodesApart(h[n].file)
      && forall i :: 0 <= i < n ==> h[..n][i].logId < h[n].logId
  {}

  lemma FitsAppend(base: Start, h: seq<Upload>, u: Upload)
    requires Fits(base, h) && CodesApart(u.file) && forall i :: 0 <= i < |h| ==> h[i].logId < u.logId
    requires Linked(Work(FileReplay(base, h).first, FileReplay(base, h).second, u.next))
    ensures Fits(base, h + [u])
    ensures var w := LoadRows(Work(FileReplay(base, h).first, FileReplay(base, h).second, u.next), u.logId, u.file);
            FileReplay(base, h + [u]) == Pair(w.staff, w.professors)
  {
    hide Linked, LoadRows;
    assert (h + [u])[..|h|] == h;
  }

  ghost predicate Absent(h: seq<Upload>, id: nat) {
    forall i :: 0 <= i < |h| ==> h[i].logId != id
  }

  ghost predicate BothUnmentioned(t: Start, id: nat) {
    Unmentioned(t.first, id) && Unmentioned(t.second, id)
  }

  lemma SeedUnmentioned(base: Start, id: nat)
    requires Seed(base.first, STAFF) && Seed(base.second, PROFESSORS)
    ensures BothUnmentioned(base, id)
  {}

  lemma {:induction false} ReplayUnmentions(base: Start, h: seq<Upload>, id: nat)
    requires Seed(base.first, STAFF) && Seed(base.second, PROFESSORS) && Absent(h, id)
    ensures BothUnmentioned(FileReplay(base, h), id)
  {
    if h == [] {
      SeedUnmentioned(base, id);
    } else {
      hide Seed, LoadRows, Unmentioned;
      ReplayUnmentions(base, h[..|h| - 1], id);
      RowsUnmentioned(Before(base, h), h[|h| - 1].logId, h[|h| - 1].file, id);
    }
  }

  ghost predicate BothOk(t: Start) {
    TableOk(t.first, STAFF) && TableOk(t.second, PROFESSORS)
  }

  lemma WriteOk<K(!new), C(!new)>(t: Table<K, C>, u: nat, k: K, e: Edit<C>, schema: Schema)
    requires TableOk(t, schema) && Recording(e, schema)
    ensures TableOk(t[k := UploadRow(Lookup(t, k), u, e, schema)], schema)
  {}

  lemma {:induction false} RowsOk(w: Work, u: nat, file: seq<FileRow>)
    requires Linked(w) && TableOk(w.staff, STAFF) && TableOk(w.professors, PROFESSORS)
    ensures TableOk(LoadRows(w, u, file).staff, STAFF) && TableOk(LoadRows(w, u, file).professors, PROFESSORS)
  {
    if file != [] {
      hide TableOk, Linked;
      var n := |file| - 1;
      RowsKeepLinked(w, u, file[..n]);
      RowsOk(w, u, file[..n]);
      RowStepOk(LoadRows(w, u, file[..n]), u, file[n]);
    }
  }

  lemma RowStepOk(w: Work, u: nat, r: FileRow)
    requires Linked(w) && TableOk(w.staff, STAFF) && TableOk(w.professors, PROFESSORS)
    ensures TableOk(RowStep(w, u, r).staff, STAFF) && TableOk(RowStep(w, u, r).professors, PROFESSORS)
  {
    hide TableOk, Push, Inserted, StaffEdit, ProfessorEdit, Linked, StaffOf, Recording;
    EditsRecord(r, w.next);
    var code := Blank(r.professorCode);
    match Target(w.professors, r)
    case Some(s) => WriteOk(w.staff, u, s, StaffEdit(r), STAFF);
    case None =>
      FreshKey(w, u);
      WriteOk(w.staff, u, w.next, StaffEdit(r), STAFF);
      if code.Some? {
        WriteOk(w.professors, u, code.value, ProfessorEdit(w.next), PROFESSORS);
      }
  }

  lemma {:induction false} ReplayOk(base: Start, h: seq<Upload>)
    requires BothOk(base) && Fits(base, h)
    ensures BothOk(FileReplay(base, h))
  {
    if h != [] {
      hide Linked, LoadRows, TableOk;
      FitsInit(base, h);
      ReplayOk(base, h[..|h| - 1]);
      RowsOk(Before(base, h), h[|h| - 1].logId, h[|h| - 1].file);
    }
  }

  // ---------------------------------------------------------------- rolling back any file of a history

  /** The upload's file reached no staff row twice when it was loaded. */
  ghost predicate ApartWhenLoaded(base: Start, h: seq<Upload>, id: nat) {
    h == [] ||
    var u := h[|h| - 1];
    if u.logId == id then TargetsApart(Before(base, h).professors, u.file)
    else ApartWhenLoaded(base, h[..|h| - 1], id)
  }

  lemma ApartInit(base: Start, h: seq<Upload>, id: nat)
    requires h != []
    ensures ApartWhenLoaded(base, h, id) <==>
            if h[|h| - 1].logId == id then TargetsApart(Before(base, h).professors, h[|h| - 1].file)
            else ApartWhenLoaded(base, h[..|h| - 1], id)
  {}

  lemma PopsOnce<K(!new), C(!new)>(t: Table<K, C>, id: nat, k: K)
    requires k in t && t[k].uploadLogId != Some(id)
    requires |Undo(t[k])| >= 2 && Undo(t[k])[|Undo(t[k])| - 2].logId == id
    ensures k in Rollback(t, id) && Touched(Rollback(t, id)[k], id)
  {
    var r := Rollback(t, id)[k];
    assert Undo(r)[|Undo(t[k])| - 2].logId == id;
  }

  /** The stack grows by entries of this upload. */
  ghost predicate Grows(before: Row<Cell>, after: Row<Cell>, id: nat) {
    && Undo(before) <= Undo(after)
    && forall i :: |Undo(before)| <= i < |Undo(after)| ==> Undo(after)[i].logId == id
  }

  lemma RowGrows(w: Work, id: nat, r: FileRow, s: nat)
    requires s in w.staff && s < w.next
    ensures var v := RowStep(w, id, r);
            s < v.next && s in v.staff && Grows(w.staff[s], v.staff[s], id)
  {
    hide StaffEdit, ProfessorEdit, StaffOf, Blank;
  }

  lemma GrowsOn(a: Row<Cell>, b: Row<Cell>, c: Row<Cell>, id: nat)
    requires Grows(a, b, id) && Grows(b, c, id)
    ensures Grows(a, c, id)
  {}

  lemma {:induction false} RowsGrow(w: Work, id: nat, file: seq<FileRow>, s: nat)
    requires s in w.staff && s < w.next
    ensures var v := LoadRows(w, id, file);
            s < v.next && s in v.staff && Grows(w.staff[s], v.staff[s], id)
  {
    if file != [] {
      hide RowStep, Grows;
      var v := LoadRows(w, id, file[..|file| - 1]);
      RowsGrow(w, id, file[..|file| - 1], s);
      RowGrows(v, id, file[|file| - 1], s);
      GrowsOn(w.staff[s], v.staff[s], LoadRows(w, id, file).staff[s], id);
    }
  }

  lemma StaffBelowNext(w: Work, s: nat)
    requires WorkOk(w) && s in w.staff
    ensures s < w.next
  {}

  lemma SharedLeavesMention(w: Work, id: nat, file: seq<FileRow>)
    requires WorkOk(w) && CodesApart(file) && Unmentioned(w.staff, id) && !TargetsApart(w.professors, file)
    ensures Mentions(Undone(LoadRows(w, id, file), id), id)
  {
    hide LoadRows, Rollback, WorkOk, StaffOf;
    var i, j :| 0 <= i < j < |file| && Target(w.professors, file[i]).Some? &&
                Target(w.professors, file[i]) == Target(w.professors, file[j]);
    var s := Target(w.professors, file[i]).value;
    StaffOfPoints(w, Blank(file[i].professorCode).value);
    LoadRowsPushes(w, id, file, s);
    StaffBelowNext(w, s);
    RowsGrow(w, id, file, s);
    ReachingTwice(w.professors, file, i, j, s);
    PopsOnce(LoadRows(w, id, file).staff, id, s);
  }

  /** What is left when upload `id` is rolled back: the other files' tables, or a staff row that mentions it. */
  ghost predicate Leaves(base: Start, h: seq<Upload>, id: nat) {
    var left := Undone(TablesOf(base, h), id);
    if ApartWhenLoaded(base, h, id)
    then Pair(left.staff, left.professors) == FileReplay(base, WithoutFile(h, id)) && Fits(base, WithoutFile(h, id))
    else Mentions(left, id)
  }

  lemma NothingLeaves(base: Start, id: nat)
    requires Seed(base.first, STAFF) && Seed(base.second, PROFESSORS)
    ensures Leaves(base, [], id)
  {
    SeedUnmentioned(base, id);
    assert Rollback(base.first, id) == base.first && Rollback(base.second, id) == base.second;
  }

  lemma LastLeaves(base: Start, h: seq<Upload>, id: nat)
    requires Seed(base.first, STAFF) && Seed(base.second, PROFESSORS) && Fits(base, h)
    requires h != [] && h[|h| - 1].logId == id
    ensures Leaves(base, h, id)
  {
    hide Seed, Linked, LoadRows, Unmentioned, TableOk, Rollback, CodesApart, TargetsApart, WorkOk, Mentions;
    var n := |h| - 1;
    var w, file := Before(base, h), h[n].file;
    FitsInit(base, h);
    ReplayUnmentions(base, h[..n], id);
    BaseOk(base);
    ReplayOk(base, h[..n]);
    LinkedOk(w);
    ApartInit(base, h, id);
    Histories.WithoutAbsent(h[..n], id, FileId);
    assert WithoutFile(h, id) == h[..n] by {
      assert h == h[..n] + [h[n]];
      Histories.WithoutAppend(h[..n], h[n], id, FileId);
    }
    if TargetsApart(w.professors, file) {
      UndoApart(w, id, file);
    } else {
      SharedLeavesMention(w, id, file);
      MentionsStaff(Undone(LoadRows(w, id, file), id), id, 0);
    }
  }

  lemma BaseOk(base: Start)
    requires Seed(base.first, STAFF) && Seed(base.second, PROFESSORS)
    ensures BothOk(base)
  {}

  lemma MentionsStaff(w: Work, id: nat, next: nat)
    requires Mentions(w, id)
    ensures Mentions(w.(next := next), id)
  {}

  lemma OlderLeaves(base: Start, h: seq<Upload>, id: nat)
    requires Fits(base, h) && h != [] && h[|h| - 1].logId != id && Leaves(base, h[..|h| - 1], id)
    requires NewestOnBoth(LoadRows(Before(base, h), h[|h| - 1].logId, h[|h| - 1].file), id)
    ensures Leaves(base, h, id)
  {
    hide Linked, LoadRows, Rollback, CodesApart, Mentions, NewestOnBoth, ApartWhenLoaded;
    var n := |h| - 1;
    var w, u, init := Before(base, h), h[n], h[..n];
    FitsInit(base, h);
    FileCommutes(w, u.logId, u.file, id);
    RollbackKeepsLinked(w, id);
    ApartInit(base, h, id);
    if ApartWhenLoaded(base, init, id) {
      var g := WithoutFile(init, id);
      assert WithoutFile(h, id) == g + [u] by {
        assert h == init + [u];
        Histories.WithoutAppend(init, u, id, FileId);
      }
      WithoutOlder(init, id, u.logId);
      FitsAppend(base, g, u);
    } else {
      MentionsStaff(Undone(w.(next := 0), id), id, w.next);
      RowsMention(Undone(w, id), u.logId, u.file, id);
      MentionsStaff(Undone(LoadRows(w, u.logId, u.file), id), id, 0);
    }
  }

  lemma WithoutOlder(h: seq<Upload>, id: nat, bound: nat)
    requires forall i :: 0 <= i < |h| ==> h[i].logId < bound
    ensures forall i :: 0 <= i < |WithoutFile(h, id)| ==> WithoutFile(h, id)[i].logId < bound
    ensures Absent(WithoutFile(h, id), id)
  {
    var g := WithoutFile(h, id);
    forall i | 0 <= i < |g| ensures g[i].logId < bound && g[i].logId != id {
      Histories.WithoutMembers(h, id, FileId, g[i]);
    }
  }

  lemma {:induction false} UndoneLeaves(base: Start, h: seq<Upload>, id: nat)
    requires Seed(base.first, STAFF) && Seed(base.second, PROFESSORS) && Fits(base, h)
    requires NewestOnBoth(TablesOf(base, h), id)
    ensures Leaves(base, h, id)
    decreases |h|
  {
    hide Seed, Linked, LoadRows, Rollback, Leaves, Newest, Fits, FileReplay;
    if h == [] {
      NothingLeaves(base, id);
    } else if h[|h| - 1].logId == id {
      LastLeaves(base, h, id);
    } else {
      ReplayedLast(base, h, id);
      UndoneLeaves(base, h[..|h| - 1], id);
      OlderLeaves(base, h, id);
    }
  }

  lemma ReplayedLast(base: Start, h: seq<Upload>, id: nat)
    requires Fits(base, h) && h != [] && h[|h| - 1].logId != id
    requires NewestOnBoth(TablesOf(base, h), id)
    ensures Fits(base, h[..|h| - 1])
    ensures NewestOnBoth(LoadRows(Before(base, h), h[|h| - 1].logId, h[|h| - 1].file), id)
    ensures NewestOnBoth(TablesOf(base, h[..|h| - 1]), id)
  {
    hide Linked, LoadRows, Newest;
    FitsInit(base, h);
    FileCommutes(Before(base, h), h[|h| - 1].logId, h[|h| - 1].file, id);
  }

  /**
   * An accepted rollback of any upload of a history, however old, leaves what the other files give when
   * only they are loaded if and only if its own file reached no staff row twice.
   */
  lemma UndoneExact(base: Start, h: seq<Upload>, id: nat)
    requires Seed(base.first, STAFF) && Seed(base.second, PROFESSORS) && Fits(base, h)
    requires Newest(FileReplay(base, h).first, id) && Newest(FileReplay(base, h).second, id)
    ensures FileReplay(base, WithoutFile(h, id)) ==
            Pair(Rollback(FileReplay(base, h).first, id), Rollback(FileReplay(base, h).second, id)) <==>
            ApartWhenLoaded(base, h, id)
    ensures ApartWhenLoaded(base, h, id) ==> Fits(base, WithoutFile(h, id))
  {
    hide Seed, Fits, FileReplay, ApartWhenLoaded, WithoutFile, Newest, Rollback;
    UndoneLeaves(base, h, id);
    AbsentWithout(h, id);
    ReplayUnmentions(base, WithoutFile(h, id), id);
  }

  lemma AbsentWithout(h: seq<Upload>, id: nat)
    ensures Absent(WithoutFile(h, id), id)
  {
    var g := WithoutFile(h, id);
    forall i | 0 <= i < |g| ensures g[i].logId != id {
      Histories.WithoutMembers(h, id, FileId, g[i]);
    }
  }

  // ---------------------------------------------------------------- whole runs

  /** The tables are those of the files. */
  ghost predicate FilesOk(base: Start, db: State, files: seq<Upload>) {
    && Linked(db.work) && Fits(base, files)
    && FileReplay(base, files) == Pair(db.work.staff, db.work.professors)
    && (forall i :: 0 <= i < |files| ==> files[i].logId < db.nextId)
  }

  /** An accepted rollback takes a file that reached no staff row twice. */
  ghost predicate Orderly(base: Start, db: State, files: seq<Upload>, call: Call) {
    call.RollBack? && RollsBack(db, call.logId, call.blocked) ==> ApartWhenLoaded(base, files, call.logId)
  }

  lemma StepFilesOk(base: Start, db: State, files: seq<Upload>, call: Call, locale: Locale)
    requires Seed(base.first, STAFF) && Seed(base.second, PROFESSORS)
    requires FilesOk(base, db, files) && Orderly(base, db, files, call)
    ensures FilesOk(base, StepStaff(db, call, locale), SurvivingStep(db, files, call, locale))
  {
    hide Seed, Linked, LoadRows, Fits, FileReplay, Newest, Rollback, ApartWhenLoaded, Validated, WithoutFile, EffectOf;
    StepKeepsLinked(db, call, locale);
    match call
    case LoadFile(file) =>
      if Validated(file, locale) {
        ValidatedApart(file, locale);
        FitsAppend(base, files, Upload(db.nextId, file, db.work.next));
      }
    case RollBack(id, blocked) =>
      if RollsBack(db, id, blocked) {
        UndoneExact(base, files, id);
        WithoutOlder(files, id, db.nextId);
      }
    case OtherType =>
  }

  /**
   * Over any run of uploads and rollbacks in which only the files that are rolled back have to reach no
   * staff row twice: both tables are what the surviving files give when only they are loaded, in order,
   * row by row, and every professor has its staff row.
   */
  lemma {:induction false} StaffFilesReplay(base: Start, start: State, calls: seq<Call>, locale: Locale)
    requires Seed(base.first, STAFF) && Seed(base.second, PROFESSORS)
    requires start == State(Work(base.first, base.second, start.work.next), start.nextId, {}, [])
    requires Linked(start.work)
    requires forall n :: 0 <= n < |calls| ==>
               Orderly(base, RunStaff(start, calls[..n], locale), Surviving(start, calls[..n], locale), calls[n])
    ensures FilesOk(base, RunStaff(start, calls, locale), Surviving(start, calls, locale))
    decreases |calls|
  {
    hide Seed, Linked, StepStaff, SurvivingStep, Orderly, FilesOk;
    if calls == [] {
      NoFiles(base, start);
    } else {
      var n := |calls| - 1;
      forall i | 0 <= i < n
        ensures Orderly(base, RunStaff(start, calls[..n][..i], locale), Surviving(start, calls[..n][..i], locale),
                        calls[..n][i])
      {
        assert calls[..n][..i] == calls[..i];
      }
      StaffFilesReplay(base, start, calls[..n], locale);
      StepFilesOk(base, RunStaff(start, calls[..n], locale), Surviving(start, calls[..n], locale), calls[n], locale);
    }
  }

  lemma NoFiles(base: Start, start: State)
    requires Linked(start.work) && start.work.staff == base.first && start.work.professors == base.second
    ensures FilesOk(base, start, [])
  {}
}
