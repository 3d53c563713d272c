/**
 * UNIQUE (email) when an upload of students is rolled back: a pop gives a student its earlier address,
 * which another student may have by now. The newest-upload guard does not look at addresses.
 */
module EmailRollbacks {
  import opened Wrappers
  import opened SqlText
  import opened UndoTable
  import opened UndoReplay
  import opened UndoLoad
  import opened TwoTables
  import opened Students
  import opened StudentEmails

  type Entry = UndoEntry<Cell>

  function SavedEmail(e: Entry): Cell {
    if "email" in e.prior then e.prior["email"] else Null
  }

  /** The address that a pop gives back. */
  function TopEmail(r: Row<Cell>): Cell
    requires Undo(r) != []
  {
    SavedEmail(Undo(r)[|Undo(r)| - 1])
  }

  // ---------------------------------------------------------------- what the stacks hold

  /** The column is there, now and in every undo entry. */
  ghost predicate Saves(r: Row<Cell>) {
    "email" in r.columns && forall i :: 0 <= i < |Undo(r)| ==> "email" in Undo(r)[i].prior
  }

  /** Two addresses that one upload has overwritten. */
  predicate Clash(d: Entry, e: Entry) {
    d.logId == e.logId && SavedEmail(d) != Null && SavedEmail(d) == SavedEmail(e)
  }

  ghost predicate StacksApart(r: Row<Cell>, s: Row<Cell>) {
    forall d, e :: d in Undo(r) && e in Undo(s) ==> !Clash(d, e)
  }

  /** Addresses differ now, and those that one upload overwrote differed then. */
  ghost predicate Kept(t: StudentTable) {
    && EmailsApart(t)
    && (forall a :: a in t ==> Saves(t[a]))
    && (forall a, c :: a in t && c in t && a != c ==> StacksApart(t[a], t[c]))
  }

  /** The stacks with the next entry on top. */
  lemma PushedStacks(r: Row<Cell>, id: nat, e: Edit<Cell>)
    ensures var top := Undo(Push(r, id, e, STUDENTS))[|Undo(r)|];
      && Undo(Push(r, id, e, STUDENTS)) == Undo(r) + [top]
      && top.logId == id && SavedEmail(top) == EmailOf(r)
  {}

  lemma PushSaves(r: Row<Cell>, id: nat, e: Edit<Cell>)
    requires Saves(r)
    ensures Saves(Push(r, id, e, STUDENTS))
  {
    var p := Push(r, id, e, STUDENTS);
    assert Undo(p) == Undo(r) + [Undo(p)[|Undo(r)|]];
    assert "email" in Undo(p)[|Undo(r)|].prior;
  }

  lemma NotStacked(r: Row<Cell>, id: nat, e: Entry)
    requires !Stacked(r, id) && e in Undo(r)
    ensures e.logId != id
  {}

  lemma PushesApart(r: Row<Cell>, s: Row<Cell>, id: nat, d: Edit<Cell>, e: Edit<Cell>)
    requires StacksApart(r, s) && !Stacked(r, id) && !Stacked(s, id)
    requires EmailOf(r) == Null || EmailOf(r) != EmailOf(s)
    ensures StacksApart(Push(r, id, d, STUDENTS), Push(s, id, e, STUDENTS))
  {
    hide Push, Stacked, SavedEmail, EmailOf;
    PushedStacks(r, id, d);
    PushedStacks(s, id, e);
    forall x | x in Undo(r) ensures x.logId != id { NotStacked(r, id, x); }
    forall x | x in Undo(s) ensures x.logId != id { NotStacked(s, id, x); }
  }

  lemma PushApart(r: Row<Cell>, s: Row<Cell>, id: nat, d: Edit<Cell>)
    requires StacksApart(r, s) && StacksApart(s, r) && !Stacked(s, id)
    ensures StacksApart(Push(r, id, d, STUDENTS), s) && StacksApart(s, Push(r, id, d, STUDENTS))
  {
    hide Push, Stacked, SavedEmail;
    PushedStacks(r, id, d);
    forall x | x in Undo(s) ensures x.logId != id { NotStacked(s, id, x); }
  }

  lemma UploadRowsApart(t: StudentTable, b: StudentBatch, id: nat, a: string, c: string)
    requires Kept(t) && Unmentioned(t, id) && a != c && a in t.Keys + b.Keys && c in t.Keys + b.Keys
    ensures StacksApart(Upload(t, id, b, STUDENTS)[a], Upload(t, id, b, STUDENTS)[c])
  {
    hide Push, StacksApart, Stacked, Saves, EmailOf;
    if a in t && c in t {
      if a in b && c in b {
        PushesApart(t[a], t[c], id, b[a], b[c]);
      } else if a in b {
        PushApart(t[a], t[c], id, b[a]);
      } else if c in b {
        PushApart(t[c], t[a], id, b[c]);
      }
    } else if a !in t {
      NothingStacked(Upload(t, id, b, STUDENTS)[a], Upload(t, id, b, STUDENTS)[c]);
    } else {
      NothingStacked(Upload(t, id, b, STUDENTS)[c], Upload(t, id, b, STUDENTS)[a]);
    }
  }

  lemma NothingStacked(r: Row<Cell>, s: Row<Cell>)
    requires Undo(r) == []
    ensures StacksApart(r, s) && StacksApart(s, r)
  {}

  lemma UploadKept(t: StudentTable, b: StudentBatch, id: nat)
    requires Kept(t) && Unmentioned(t, id) && WritesOwn(b) && EmailsApart(Upload(t, id, b, STUDENTS))
    ensures Kept(Upload(t, id, b, STUDENTS))
  {
    var t' := Upload(t, id, b, STUDENTS);
    forall a | a in t' ensures Saves(t'[a]) {
      hide Push, StacksApart;
      if a in t && a in b {
        PushSaves(t[a], id, b[a]);
      }
    }
    forall a, c | a in t' && c in t' && a != c ensures StacksApart(t'[a], t'[c]) {
      UploadRowsApart(t, b, id, a, c);
    }
  }

  lemma PopFacts(r: Row<Cell>)
    requires Saves(r) && Undo(r) != []
    ensures Saves(Pop(r)) && EmailOf(Pop(r)) == TopEmail(r)
    ensures forall e :: e in Undo(Pop(r)) ==> e in Undo(r)
  {}

  lemma RestoredRow(t: StudentTable, id: nat, a: string)
    requires Kept(t) && a in t
    ensures var r := Restored(t, id)[a];
      && Saves(r) && (forall e :: e in Undo(r) ==> e in Undo(t[a]))
      && EmailOf(r) == if OnTop(t[a], id) then TopEmail(t[a]) else EmailOf(t[a])
  {
    hide Pop, Saves, EmailOf, TopEmail;
    if OnTop(t[a], id) {
      PopFacts(t[a]);
    }
  }

  lemma RollbackKept(t: StudentTable, id: nat)
    requires Kept(t) && EmailsApart(Restored(t, id))
    ensures Kept(Rollback(t, id))
  {
    hide Pop, Saves, EmailOf, Clash;
    var t' := Rollback(t, id);
    forall a | a in t' ensures t'[a] == Restored(t, id)[a] && Saves(t'[a]) {
      RestoredRow(t, id, a);
    }
    forall a, c | a in t' && c in t' && a != c ensures StacksApart(t'[a], t'[c]) {
      RestoredRow(t, id, a);
      RestoredRow(t, id, c);
      assert StacksApart(t[a], t[c]);
    }
  }

  // ---------------------------------------------------------------- exactly when a rollback meets the constraint

  /** The pops give student `a` an address that another one, which they leave alone, has. */
  predicate Retakes(t: StudentTable, id: nat, a: string, c: string) {
    && a in t && c in t && OnTop(t[a], id) && !OnTop(t[c], id)
    && TopEmail(t[a]) != Null && TopEmail(t[a]) == EmailOf(t[c])
  }

  ghost predicate Retaken(t: StudentTable, id: nat) {
    exists a, c :: Retakes(t, id, a, c)
  }

  lemma TopsDiffer(t: StudentTable, id: nat, a: string, c: string)
    requires Kept(t) && a in t && c in t && a != c && OnTop(t[a], id) && OnTop(t[c], id)
    ensures TopEmail(t[a]) == Null || TopEmail(t[a]) != TopEmail(t[c])
  {
    hide SavedEmail;
    var d, e := Undo(t[a])[|Undo(t[a])| - 1], Undo(t[c])[|Undo(t[c])| - 1];
    assert StacksApart(t[a], t[c]) && d in Undo(t[a]) && e in Undo(t[c]);
    assert !Clash(d, e);
  }

  /** The pops break UNIQUE (email), once they are done, exactly when there is such a pair. */
  lemma RestoreClashesIff(t: StudentTable, id: nat)
    requires Kept(t)
    ensures EmailsApart(Restored(t, id)) <==> !Retaken(t, id)
  {
    hide Pop, EmailOf, TopEmail, Saves, StacksApart;
    var r := Restored(t, id);
    forall a | a in t
      ensures EmailOf(r[a]) == if OnTop(t[a], id) then TopEmail(t[a]) else EmailOf(t[a])
    {
      RestoredRow(t, id, a);
    }
    if Retaken(t, id) {
      var a, c :| Retakes(t, id, a, c);
      assert EmailOf(r[a]) == EmailOf(r[c]);
    } else {
      forall a, c | a in r && c in r && EmailOf(r[a]) != Null && EmailOf(r[a]) == EmailOf(r[c]) ensures a == c {
        var held := Retakes(t, id, a, c) || Retakes(t, id, c, a);
        if a != c && OnTop(t[a], id) && OnTop(t[c], id) {
          TopsDiffer(t, id, a, c);
        }
      }
    }
  }

  /** The address that a pop gives `a` is at that moment, if no other row was popped before, that of `c`. */
  predicate Meets(t: StudentTable, id: nat, a: string, c: string) {
    && a in t && c in t && a != c && OnTop(t[a], id)
    && TopEmail(t[a]) != Null && TopEmail(t[a]) == EmailOf(t[c])
  }

  /** In whatever order the rows are popped, none ever meets the constraint, exactly when there is no such pair. */
  lemma AnyOrderRestoresIff(t: StudentTable, id: nat)
    requires Kept(t)
    ensures (forall m :: Midway(t, Restored(t, id), m) ==> EmailsApart(m)) <==> forall a, c :: !Meets(t, id, a, c)
  {
    hide EmailsApart, Restored, Midway, Meets, Kept;
    if a, c :| Meets(t, id, a, c) {
      RestoreClashMidway(t, id, a, c);
    } else {
      forall m | Midway(t, Restored(t, id), m) ensures EmailsApart(m) {
        RestoreApartMidway(t, id, m);
      }
    }
  }

  lemma RestoreClashMidway(t: StudentTable, id: nat, a: string, c: string)
    requires Kept(t) && Meets(t, id, a, c)
    ensures exists m :: Midway(t, Restored(t, id), m) && !EmailsApart(m)
  {
    hide Pop, EmailOf, TopEmail, Kept;
    var t' := Restored(t, id);
    var m := map[a := t'[a], c := t[c]];
    RestoredRow(t, id, a);
    assert Midway(t, t', m);
    assert EmailOf(m[a]) == EmailOf(m[c]) != Null;
  }

  lemma RestoreApartMidway(t: StudentTable, id: nat, m: StudentTable)
    requires Kept(t) && Midway(t, Restored(t, id), m) && forall a, c :: !Meets(t, id, a, c)
    ensures EmailsApart(m)
  {
    hide Pop, EmailOf, TopEmail, Saves, StacksApart;
    var r := Restored(t, id);
    forall a | a in t
      ensures EmailOf(r[a]) == if OnTop(t[a], id) then TopEmail(t[a]) else EmailOf(t[a])
    {
      RestoredRow(t, id, a);
    }
    forall a, c | a in m && c in m && EmailOf(m[a]) != Null && EmailOf(m[a]) == EmailOf(m[c]) ensures a == c {
      var met := Meets(t, id, a, c) || Meets(t, id, c, a);
      if a != c && OnTop(t[a], id) && OnTop(t[c], id) {
        TopsDiffer(t, id, a, c);
      }
    }
  }

  // ---------------------------------------------------------------- whole runs

  lemma SeedKept(base: StudentTable)
    requires Seed(base, STUDENTS) && EmailsApart(base)
    ensures Kept(base)
  {
    forall a | a in base ensures Saves(base[a]) && Undo(base[a]) == [] {
      assert "email" in STUDENT_COLUMNS;
    }
  }

  lemma StepKept(base: Start, db: State, ev: Call, locale: Locale)
    requires StateOk(base, db) && Kept(db.students)
    ensures Kept(StepBoth(db, ev, locale).students)
  {
    hide Kept, Validated, Accepts, Upload, Rollback, Restored, EmailsApart, StateOk, Unmentioned, WritesOwn;
    match ev
    case LoadFile(file, cat, aborts) =>
      if Loads(db, file, cat, aborts, locale) {
        FileWritesOwn(db.nextId, file, cat, locale);
        FreshId(base, db);
        UploadKept(db.students, FileBatch(db.nextId, file, cat, locale).first, db.nextId);
      }
    case RollBack(id, blocked) =>
      if EmailsApart(Restored(db.students, id)) {
        RollbackKept(db.students, id);
      }
    case OtherType =>
  }

  lemma {:induction false} RunKept(base: Start, start: State, events: seq<Call>, locale: Locale)
    requires StartOk(base) && EmailsApart(base.first)
    requires start == State(base.first, base.second, start.nextId, {}, [])
    ensures StateOk(base, RunBoth(start, events, locale)) && Kept(RunBoth(start, events, locale).students)
  {
    hide Kept, StepBoth, StateOk, EmailsApart, Referential;
    TwoTableReplay(base, start, events, locale);
    if events == [] {
      SeedKept(base.first);
    } else {
      var n := |events| - 1;
      RunKept(base, start, events[..n], locale);
      StepKept(base, RunBoth(start, events[..n], locale), events[n], locale);
    }
  }

  /**
   * After any run from tables in which addresses differ, a rollback that nothing else blocks is carried out
   * exactly when no later surviving upload names one of its students and no pop gives a student an address
   * that belongs to one whom the rollback does not pop.
   */
  lemma RollbackRunsIff(base: Start, start: State, events: seq<Call>, locale: Locale, id: nat, blocked: bool)
    requires StartOk(base) && EmailsApart(base.first)
    requires start == State(base.first, base.second, start.nextId, {}, [])
    ensures var db := RunBoth(start, events, locale);
            StepBoth(db, RollBack(id, blocked), locale) ==
            if id in db.logs && !blocked && LastOnItsStudents(db.survivors, id) && !Retaken(db.students, id)
            then db.(students := Rollback(db.students, id), enrollments := Rollback(db.enrollments, id),
                     survivors := WithoutBoth(db.survivors, id))
            else db
  {
    hide Kept, StateOk, EmailsApart, Restored, Retaken, Accepts, LastOnItsStudents, Rollback, WithoutBoth;
    RunKept(base, start, events, locale);
    var db := RunBoth(start, events, locale);
    AcceptedExactly(base, db, id);
    RestoreClashesIff(db.students, id);
  }

  // ---------------------------------------------------------------- accepted, and then undone

  /** A file of one row that loads. */
  ghost predicate Single(r: FileRow, cat: Catalog, locale: Locale, code: string) {
    Validated([r], cat, locale) && StudentItem(r, cat, locale).Some? && StudentItem(r, cat, locale).value.0 == code
  }

  lemma SingleBatch(r: FileRow, cat: Catalog, locale: Locale, code: string, id: nat)
    requires Single(r, cat, locale, code)
    ensures BatchOf(StudentItems([r], cat, locale)).Keys == {code}
    ensures FileBatch(id, [r], cat, locale).first.Keys == {code}
    ensures FileBatch(id, [r], cat, locale).first == BatchOf(StudentItems([r], cat, locale))
    ensures WritesOwn(BatchOf(StudentItems([r], cat, locale)))
  {
    hide StudentItem, Validated, WritesOwn, EnrollmentItem;
    var items := StudentItems([r], cat, locale);
    assert items == [StudentItem(r, cat, locale)] && items[..0] == [];
    FileWritesOwn(id, [r], cat, locale);
  }

  lemma SingleLoads(db: State, r: FileRow, cat: Catalog, locale: Locale, code: string)
    requires Single(r, cat, locale, code) && EmailsApart(db.students)
    requires forall x :: x in db.students && x != code ==> EmailOf(db.students[x]) != OwnAddress(code)
    ensures Loads(db, [r], cat, false, locale)
  {
    hide EmailsApart, EmailsHold, WritesOwn, StudentItems, BatchOf, OwnAddress, EmailOf;
    var b := BatchOf(StudentItems([r], cat, locale));
    SingleBatch(r, cat, locale, code, db.nextId);
    UploadClashesIff(db.students, b, db.nextId);
    forall x, c ensures !HoldsOn(db.students, b, x, c) {
      assert c in b ==> c in b.Keys;
    }
  }

  /** The students' table after a file of one row. */
  lemma SingleUploaded(db: State, r: FileRow, cat: Catalog, locale: Locale, code: string)
    requires Single(r, cat, locale, code) && Loads(db, [r], cat, false, locale)
    ensures var next := StepBoth(db, LoadFile([r], cat, false), locale);
            var b := FileBatch(db.nextId, [r], cat, locale).first;
      && b.Keys == {code} && code in b && EmailsApart(next.students)
      && next.students == db.students[code := UploadRow(Lookup(db.students, code), db.nextId, b[code], STUDENTS)]
      && EmailOf(next.students[code]) == OwnAddress(code)
      && next.survivors == db.survivors + [FileBatch(db.nextId, [r], cat, locale)]
      && next.logs == db.logs + {db.nextId} && next.nextId == db.nextId + 1
  {
    hide EmailsApart, WritesOwn, StudentItems, EnrollmentItems, BatchOf, OwnAddress, EmailOf, Upload, UploadRow, Single;
    SingleBatch(r, cat, locale, code, db.nextId);
    var b := FileBatch(db.nextId, [r], cat, locale).first;
    OneWritten(db.students, b, db.nextId, code);
    EmailWritten(db.students, b, db.nextId, code);
  }

  lemma OneWritten(t: StudentTable, b: StudentBatch, id: nat, code: string)
    requires b.Keys == {code}
    ensures code in b && Upload(t, id, b, STUDENTS) == t[code := UploadRow(Lookup(t, code), id, b[code], STUDENTS)]
  {
    hide UploadRow;
    assert code in b.Keys;
    assert forall k :: k in b ==> k in b.Keys;
  }

  lemma LastOfTwo(h: seq<Loaded>, u: Loaded, v: Loaded)
    requires (forall w :: w in h ==> w.logId != u.logId) && u.first.Keys !! v.first.Keys && u.logId != v.logId
    ensures LastOnItsStudents(h + [u] + [v], u.logId)
  {
    var all := h + [u] + [v];
    assert forall k :: 0 <= k < |h| ==> all[k] == h[k] && h[k] in h;
  }

  lemma AddressNotNull(code: string)
    ensures OwnAddress(code) != Null
  {}

  /** Nobody else has the address that `a` has. */
  lemma OthersElsewhere(t: StudentTable, a: string, c: string)
    requires EmailsApart(t) && a in t && EmailOf(t[a]) == OwnAddress(c)
    ensures forall x :: x in t && x != a ==> EmailOf(t[x]) != OwnAddress(c)
  {
    AddressNotNull(c);
    hide EmailOf, OwnAddress;
  }

  lemma OlderIds(base: Start, db: State)
    requires StateOk(base, db)
    ensures forall w :: w in db.survivors ==> w.logId < db.nextId
  {}

  lemma EmailComesBack(r: Row<Cell>, id: nat, e: Edit<Cell>)
    requires EmailOf(r) != Null
    ensures var p := Push(r, id, e, STUDENTS);
            OnTop(p, id) && TopEmail(p) == EmailOf(Pop(p)) == EmailOf(r)
  {
    assert "email" in STUDENT_COLUMNS;
  }

  lemma ClashAfterRollback(t: StudentTable, t2: StudentTable, a: string, c: string, e: Edit<Cell>, id: nat)
    requires a in t && a in t2 && t2[a] == Push(t[a], id, e, STUDENTS)
    requires c in t2 && !OnTop(t2[c], id) && EmailOf(t2[c]) == EmailOf(t[a]) != Null
    ensures Retakes(t2, id, a, c) && !EmailsApart(Restored(t2, id))
  {
    hide Push, Pop, EmailOf, TopEmail;
    EmailComesBack(t[a], id, e);
    var r := Restored(t2, id);
    assert EmailOf(r[a]) == EmailOf(r[c]) != Null;
  }

  /** Student `a` is stored with the address of `c`, who is not stored, and nobody has the address of `a`. */
  ghost predicate Crossed(t: StudentTable, a: string, c: string) {
    && a in t && c !in t && EmailOf(t[a]) == OwnAddress(c)
    && forall x :: x in t && x != a ==> EmailOf(t[x]) != OwnAddress(a)
  }

  function OneLoaded(db: State, r: FileRow, cat: Catalog, locale: Locale): State {
    StepBoth(db, LoadFile([r], cat, false), locale)
  }

  lemma FirstLoads(db: State, r: FileRow, cat: Catalog, locale: Locale, a: string, c: string)
    requires EmailsApart(db.students) && Single(r, cat, locale, a) && Crossed(db.students, a, c)
    ensures Loads(db, [r], cat, false, locale)
    ensures var one := OneLoaded(db, r, cat, locale).students;
            c !in one && EmailsApart(one) && forall x :: x in one ==> EmailOf(one[x]) != OwnAddress(c)
  {
    hide EmailsApart, Loads, Single, StepBoth, EmailOf, OwnAddress, UploadRow;
    if OwnAddress(a) == OwnAddress(c) {
      AddressesDiffer(a, c);
    }
    OthersElsewhere(db.students, a, c);
    SingleLoads(db, r, cat, locale, a);
    SingleUploaded(db, r, cat, locale, a);
  }

  /** The two files load, one after the other. */
  lemma BothLoad(db: State, r1: FileRow, r2: FileRow, cat: Catalog, locale: Locale, a: string, c: string)
    requires EmailsApart(db.students) && Single(r1, cat, locale, a) && Single(r2, cat, locale, c)
    requires Crossed(db.students, a, c)
    ensures var one := OneLoaded(db, r1, cat, locale);
            var two := OneLoaded(one, r2, cat, locale);
            var u, v := FileBatch(db.nextId, [r1], cat, locale), FileBatch(db.nextId + 1, [r2], cat, locale);
      && Loads(db, [r1], cat, false, locale) && Loads(one, [r2], cat, false, locale)
      && two.survivors == db.survivors + [u] + [v] && two.logs == db.logs + {db.nextId} + {db.nextId + 1}
      && u.first.Keys == {a} && v.first.Keys == {c} && a in u.first
      && a in two.students && two.students[a] == Push(db.students[a], db.nextId, u.first[a], STUDENTS)
      && c in two.students && Undo(two.students[c]) == [] && EmailOf(two.students[c]) == OwnAddress(c)
  {
    hide EmailsApart, Loads, Single, StepBoth, EmailOf, OwnAddress, Push, FileBatch;
    FirstLoads(db, r1, cat, locale, a, c);
    SingleUploaded(db, r1, cat, locale, a);
    SingleLoads(OneLoaded(db, r1, cat, locale), r2, cat, locale, c);
    SingleUploaded(OneLoaded(db, r1, cat, locale), r2, cat, locale, c);
  }

  lemma FirstOfTwoAccepted(base: Start, db: State, r1: FileRow, r2: FileRow, cat: Catalog, locale: Locale,
                           a: string, c: string)
    requires StateOk(base, db) && a != c
    requires var two := OneLoaded(OneLoaded(db, r1, cat, locale), r2, cat, locale);
             var u, v := FileBatch(db.nextId, [r1], cat, locale), FileBatch(db.nextId + 1, [r2], cat, locale);
             two.survivors == db.survivors + [u] + [v] && u.first.Keys == {a} && v.first.Keys == {c}
    ensures Accepts(OneLoaded(OneLoaded(db, r1, cat, locale), r2, cat, locale), db.nextId)
  {
    hide StateOk, Accepts, StepBoth, LastOnItsStudents;
    var one := OneLoaded(db, r1, cat, locale);
    LoadKeepsOk(base, db, [r1], cat, false, locale);
    LoadKeepsOk(base, one, [r2], cat, false, locale);
    OlderIds(base, db);
    FileBatchOk(db.nextId, [r1], cat, locale);
    FileBatchOk(db.nextId + 1, [r2], cat, locale);
    LastOfTwo(db.survivors, FileBatch(db.nextId, [r1], cat, locale), FileBatch(db.nextId + 1, [r2], cat, locale));
    AcceptedExactly(base, OneLoaded(one, r2, cat, locale), db.nextId);
  }

  /**
   * A file with `a` loads, then one with `c`. All five tests let the first upload go, and its rollback
   * would give `a` the address that `c` has by now, so the transaction is undone.
   */
  lemma AcceptedRollbackClashes(base: Start, db: State, r1: FileRow, r2: FileRow, cat: Catalog, locale: Locale,
                                a: string, c: string)
    requires StateOk(base, db) && EmailsApart(db.students) && Single(r1, cat, locale, a) && Single(r2, cat, locale, c)
    requires Crossed(db.students, a, c)
    ensures var one := OneLoaded(db, r1, cat, locale);
            var two := OneLoaded(one, r2, cat, locale);
      && Loads(db, [r1], cat, false, locale) && Loads(one, [r2], cat, false, locale)
      && db.nextId in two.logs && Accepts(two, db.nextId)
      && Retaken(two.students, db.nextId) && !EmailsApart(Restored(two.students, db.nextId))
      && StepBoth(two, RollBack(db.nextId, false), locale) == two
  {
    hide StateOk, Accepts, EmailsApart, Restored, Single, Push, OwnAddress, Loads, OneLoaded, EmailOf, Retakes;
    var id, two := db.nextId, OneLoaded(OneLoaded(db, r1, cat, locale), r2, cat, locale);
    BothLoad(db, r1, r2, cat, locale, a, c);
    FirstOfTwoAccepted(base, db, r1, r2, cat, locale, a, c);
    AddressNotNull(c);
    ClashAfterRollback(db.students, two.students, a, c, FileBatch(id, [r1], cat, locale).first[a], id);
  }

  function Same(x: string): string { x }

  const PLAIN := Locale(Same, Same)
  const CATALOG := Catalog(map["P" := 1], map["K" := 1], map["TG103-T001" := 1], map[1 := 1])

  function RowOf(code: string): FileRow {
    FileRow(Some(code), Some("L"), Some("F"), Some("P"), Some("K"), Some("P"))
  }

  lemma RowOfCode(code: string)
    requires Trim(code) == code && 0 < |code| <= 50
    ensures Single(RowOf(code), CATALOG, PLAIN, code)
  {
    var r := RowOf(code);
    assert Trim("L") == "L" && Trim("F") == "F" && Trim("P") == "P" && Trim("K") == "K";
    assert Blank(r.lastName) == Some("L") && Blank(r.firstName) == Some("F");
    assert Blank(r.programCode) == Some("P") && Blank(r.campusCode) == Some("K") && Blank(r.modality) == Some("P");
    assert ModalityCode(r.modality, PLAIN) == Some("TG103-T001");
    assert "P" in CATALOG.programs && "K" in CATALOG.campuses && "TG103-T001" in CATALOG.modalities;
    assert RowValid(r, CATALOG, PLAIN);
  }

  /** Student "A" is stored with the address of "C". */
  function OneStudent(): StudentTable {
    map["A" := Row(None, map["email" := OwnAddress("C"), "program_id" := Id(1), "first_name" := Text("F"),
                             "last_name" := Text("L"), "graduation_modality_type_id" := Id(1)], Extra(map[], None))]
  }

  lemma OneStudentOk()
    ensures StartOk(Pair(OneStudent(), map[])) && EmailsApart(OneStudent())
    ensures OneStudent().Keys == {"A"} && EmailOf(OneStudent()["A"]) == OwnAddress("C")
  {
    hide OwnAddress;
    assert OneStudent()["A"].columns.Keys == STUDENT_COLUMNS;
  }

  lemma TwoEvents(start: State, first: Call, second: Call, locale: Locale)
    ensures RunBoth(start, [first, second], locale) == StepBoth(StepBoth(start, first, locale), second, locale)
  {
    hide StepBoth;
    assert [first, second][..1] == [first] && [first][..0] == [];
    NoEvents(start, locale);
    assert RunBoth(start, [first], locale) == StepBoth(start, first, locale);
  }

  /** The input: files of "A" and of "C", and then a rollback of the first. */
  lemma ClashReached()
    ensures var base := Pair(OneStudent(), map[]);
            var two := RunBoth(State(OneStudent(), map[], 0, {}, []),
                               [LoadFile([RowOf("A")], CATALOG, false), LoadFile([RowOf("C")], CATALOG, false)], PLAIN);
      && StartOk(base) && EmailsApart(OneStudent()) && two.logs == {0, 1} && Accepts(two, 0)
      && !EmailsApart(Restored(two.students, 0)) && StepBoth(two, RollBack(0, false), PLAIN) == two
  {
    hide RunBoth, StepBoth, StateOk, StartOk, EmailsApart, Accepts, Restored, Loads, Single, OwnAddress, EmailOf;
    hide OneStudent, RowOf, Retaken;
    var base, db := Pair(OneStudent(), map[]), State(OneStudent(), map[], 0, {}, []);
    OneStudentOk();
    assert Trim("A") == "A" && Trim("C") == "C" && "A"[0] != "C"[0];
    RowOfCode("A");
    RowOfCode("C");
    TwoTableReplay(base, db, [], PLAIN);
    NoEvents(db, PLAIN);
    assert forall x :: x in OneStudent() ==> x in OneStudent().Keys;
    assert Crossed(OneStudent(), "A", "C");
    AcceptedRollbackClashes(base, db, RowOf("A"), RowOf("C"), CATALOG, PLAIN, "A", "C");
    TwoEvents(db, LoadFile([RowOf("A")], CATALOG, false), LoadFile([RowOf("C")], CATALOG, false), PLAIN);
    LogsOfTwo(db, RowOf("A"), RowOf("C"));
  }

  lemma NoEvents(db: State, locale: Locale)
    ensures RunBoth(db, [], locale) == db
  {}

  lemma LogsOfTwo(db: State, r1: FileRow, r2: FileRow)
    requires db.nextId == 0 && db.logs == {} && Loads(db, [r1], CATALOG, false, PLAIN)
    requires Loads(StepBoth(db, LoadFile([r1], CATALOG, false), PLAIN), [r2], CATALOG, false, PLAIN)
    ensures var one := StepBoth(db, LoadFile([r1], CATALOG, false), PLAIN);
            StepBoth(one, LoadFile([r2], CATALOG, false), PLAIN).logs == {0, 1}
  {
    hide Loads;
  }
}
