/**
 * UNIQUE (email) on academic.students. An upload writes every student the address derived from its
 * code, so the constraint can only fail where a stored row holds the address of another student.
 */
module StudentEmails {
  import opened Wrappers
  import opened SqlText
  import opened UndoTable
  import opened UndoReplay
  import opened UndoLoad
  import opened Students

  type StudentTable = Table<string, Cell>
  type StudentBatch = Batch<string, Cell>

  function OwnAddress(code: string): Cell {
    Text("U" + code + "@upc.edu.pe")
  }

  lemma AddressesDiffer(a: string, b: string)
    requires OwnAddress(a) == OwnAddress(b)
    ensures a == b
  {
    var prefix, suffix := "U", "@upc.edu.pe";
    assert prefix + a + suffix == prefix + b + suffix;
    assert a == (prefix + a + suffix)[|prefix|..|prefix| + |a|];
    assert b == (prefix + b + suffix)[|prefix|..|prefix| + |b|];
  }

  /** No address, or the one derived from the code. */
  predicate Own(code: string, columns: map<string, Cell>) {
    "email" in columns ==> columns["email"] in {Null, OwnAddress(code)}
  }

  /** Now, and after any number of pops. */
  ghost predicate OwnRow(code: string, r: Row<Cell>) {
    Own(code, r.columns) && forall i :: 0 <= i < |Undo(r)| ==> Own(code, Undo(r)[i].prior)
  }

  ghost predicate OwnEmails(t: StudentTable) {
    forall code :: code in t ==> OwnRow(code, t[code])
  }

  /** Each edit writes the address derived from the code. */
  ghost predicate WritesOwn(b: StudentBatch) {
    forall code :: code in b ==>
      && "email" in b[code].onInsert && b[code].onInsert["email"] == OwnAddress(code)
      && "email" in b[code].onUpdate && b[code].onUpdate["email"] == OwnAddress(code)
  }

  lemma OwnEmailsApart(t: StudentTable)
    requires OwnEmails(t)
    ensures EmailsApart(t)
  {
    forall a, b | a in t && b in t && EmailOf(t[a]) != Null && EmailOf(t[a]) == EmailOf(t[b]) ensures a == b {
      assert OwnRow(a, t[a]) && OwnRow(b, t[b]);
      AddressesDiffer(a, b);
    }
  }

  lemma {:induction false} ItemsWriteOwn(items: seq<Item<string, Cell>>)
    requires forall i :: 0 <= i < |items| && items[i].Some? ==>
               WritesOwn(map[items[i].value.0 := items[i].value.1])
    ensures WritesOwn(BatchOf(items))
  {
    if items != [] {
      var n := |items| - 1;
      ItemsWriteOwn(items[..n]);
      if items[n].Some? {
        assert items[n].value.0 in map[items[n].value.0 := items[n].value.1];
      }
    }
  }

  lemma FileWritesOwn(id: nat, file: seq<FileRow>, cat: Catalog, locale: Locale)
    ensures WritesOwn(FileBatch(id, file, cat, locale).first)
  {
    ItemsWriteOwn(StudentItems(file, cat, locale));
  }

  // ---------------------------------------------------------------- when an upload meets the constraint

  lemma EmailWritten(t: StudentTable, b: StudentBatch, id: nat, code: string)
    requires WritesOwn(b) && code in b
    ensures EmailOf(Upload(t, id, b, STUDENTS)[code]) == OwnAddress(code)
  {}

  /** One stored student has the address that the file gives to another one. */
  predicate Holds(t: StudentTable, b: StudentBatch, a: string, c: string) {
    a in t && c in b && a != c && EmailOf(t[a]) == OwnAddress(c)
  }

  /** The file does not change that, or it inserts the other one before. */
  predicate HoldsOn(t: StudentTable, b: StudentBatch, a: string, c: string) {
    Holds(t, b, a, c) && (a !in b || c !in t)
  }

  ghost predicate Taken(t: StudentTable, b: StudentBatch) {
    exists a, c :: HoldsOn(t, b, a, c)
  }

  lemma NewEmail(t: StudentTable, b: StudentBatch, id: nat, code: string)
    requires WritesOwn(b) && code in b && code !in t
    ensures EmailOf((t + Added(t, id, b))[code]) == OwnAddress(code)
  {}

  lemma InsertClashesIff(t: StudentTable, b: StudentBatch, id: nat)
    requires EmailsApart(t) && WritesOwn(b)
    ensures EmailsApart(t + Added(t, id, b)) <==> forall a, c :: Holds(t, b, a, c) ==> c in t
  {
    hide WritesOwn, EmailOf, OwnAddress;
    var t' := t + Added(t, id, b);
    forall c | c in b && c !in t ensures EmailOf(t'[c]) == OwnAddress(c) {
      NewEmail(t, b, id, c);
    }
    if a, c :| Holds(t, b, a, c) && c !in t {
      Addressed(c);
      assert EmailOf(t'[a]) == EmailOf(t'[c]);
    } else {
      forall a, c | a in t' && c in t' && EmailOf(t'[a]) != Null && EmailOf(t'[a]) == EmailOf(t'[c])
        ensures a == c
      {
        var held := Holds(t, b, a, c) || Holds(t, b, c, a);
        if a !in t && c !in t {
          AddressesDiffer(a, c);
        }
      }
    }
  }

  lemma UpdateClashesIff(t: StudentTable, b: StudentBatch, id: nat)
    requires EmailsApart(t) && WritesOwn(b)
    ensures EmailsApart(Upload(t, id, b, STUDENTS)) <==> forall a, c :: Holds(t, b, a, c) ==> a in b
  {
    hide WritesOwn, EmailOf, OwnAddress;
    var t' := Upload(t, id, b, STUDENTS);
    forall c | c in b ensures EmailOf(t'[c]) == OwnAddress(c) {
      EmailWritten(t, b, id, c);
    }
    if a, c :| Holds(t, b, a, c) && a !in b {
      Addressed(c);
      assert EmailOf(t'[a]) == EmailOf(t'[c]);
    } else {
      forall a, c | a in t' && c in t' && EmailOf(t'[a]) != Null && EmailOf(t'[a]) == EmailOf(t'[c])
        ensures a == c
      {
        var held := Holds(t, b, a, c) || Holds(t, b, c, a);
        if a in b && c in b {
          AddressesDiffer(a, c);
        }
      }
    }
  }

  /** The INSERT or the UPDATE breaks UNIQUE (email), once it is done, exactly when such a student is stored. */
  lemma UploadClashesIff(t: StudentTable, b: StudentBatch, id: nat)
    requires EmailsApart(t) && WritesOwn(b)
    ensures EmailsHold(t, id, b) <==> !Taken(t, b)
  {
    hide EmailsApart, Upload, Added, Holds;
    InsertClashesIff(t, b, id);
    UpdateClashesIff(t, b, id);
    if !Taken(t, b) {
      forall a, c | Holds(t, b, a, c) ensures a in b && c in t {
        assert !HoldsOn(t, b, a, c);
      }
    } else {
      var a, c :| HoldsOn(t, b, a, c);
    }
  }

  /** Some of the rows of a statement are written, the others not yet. */
  ghost predicate Midway(t: StudentTable, t': StudentTable, m: StudentTable) {
    forall code :: code in m ==> (code in t && m[code] == t[code]) || (code in t' && m[code] == t'[code])
  }

  /** In whatever order the rows are written, none ever meets the constraint, exactly when there is no such pair. */
  lemma AnyOrderClashesIff(t: StudentTable, b: StudentBatch, id: nat)
    requires EmailsApart(t) && WritesOwn(b)
    ensures (forall m :: Midway(t, Upload(t, id, b, STUDENTS), m) ==> EmailsApart(m)) <==>
            forall a, c :: !Holds(t, b, a, c)
  {
    hide EmailsApart, Holds, Upload, Midway;
    if a, c :| Holds(t, b, a, c) {
      ClashMidway(t, b, id, a, c);
    } else {
      forall m | Midway(t, Upload(t, id, b, STUDENTS), m) ensures EmailsApart(m) {
        ApartMidway(t, b, id, m);
      }
    }
  }

  lemma ClashMidway(t: StudentTable, b: StudentBatch, id: nat, a: string, c: string)
    requires WritesOwn(b) && Holds(t, b, a, c)
    ensures exists m :: Midway(t, Upload(t, id, b, STUDENTS), m) && !EmailsApart(m)
  {
    hide WritesOwn, EmailOf, OwnAddress;
    var t' := Upload(t, id, b, STUDENTS);
    var m := map[a := t[a], c := t'[c]];
    EmailWritten(t, b, id, c);
    Addressed(c);
    assert Midway(t, t', m);
    assert EmailOf(m[a]) == EmailOf(m[c]) != Null;
  }

  lemma ApartMidway(t: StudentTable, b: StudentBatch, id: nat, m: StudentTable)
    requires EmailsApart(t) && WritesOwn(b) && Midway(t, Upload(t, id, b, STUDENTS), m)
    requires forall a, c :: !Holds(t, b, a, c)
    ensures EmailsApart(m)
  {
    hide WritesOwn, EmailOf, OwnAddress;
    var t' := Upload(t, id, b, STUDENTS);
    forall c | c in b ensures EmailOf(t'[c]) == OwnAddress(c) {
      EmailWritten(t, b, id, c);
    }
    forall a, c | a in m && c in m && EmailOf(m[a]) != Null && EmailOf(m[a]) == EmailOf(m[c]) ensures a == c {
      var held := Holds(t, b, a, c) || Holds(t, b, c, a);
      if a in b && c in b {
        AddressesDiffer(a, c);
      }
    }
  }

  lemma Addressed(code: string)
    ensures OwnAddress(code) != Null
  {}

  // ---------------------------------------------------------------- when it never does

  lemma PushKeepsOwn(code: string, r: Row<Cell>, id: nat, e: Edit<Cell>)
    requires OwnRow(code, r) && Own(code, e.onUpdate)
    ensures OwnRow(code, Push(r, id, e, STUDENTS))
  {
    var p := Push(r, id, e, STUDENTS);
    var top := Undo(p)[|Undo(r)|];
    assert Own(code, top.prior);
    forall i | 0 <= i < |Undo(p)| ensures Own(code, Undo(p)[i].prior) {
      if i < |Undo(r)| {
        assert Undo(p)[i] == Undo(r)[i];
      }
    }
  }

  lemma UploadKeepsOwn(t: StudentTable, b: StudentBatch, id: nat)
    requires OwnEmails(t) && WritesOwn(b)
    ensures OwnEmails(Upload(t, id, b, STUDENTS))
  {
    hide Push;
    forall code | code in t.Keys + b.Keys ensures OwnRow(code, Upload(t, id, b, STUDENTS)[code]) {
      if code in t && code in b {
        PushKeepsOwn(code, t[code], id, b[code]);
      }
    }
  }

  lemma RestoredKeepsOwn(t: StudentTable, id: nat)
    requires OwnEmails(t)
    ensures OwnEmails(Restored(t, id))
  {
    forall code | code in Restored(t, id) ensures OwnRow(code, Restored(t, id)[code]) {
      assert OwnRow(code, t[code]);
      if OnTop(t[code], id) {
        assert Own(code, Undo(t[code])[|Undo(t[code])| - 1].prior);
      }
    }
  }

  lemma RollbackKeepsOwn(t: StudentTable, id: nat)
    requires OwnEmails(t)
    ensures OwnEmails(Rollback(t, id))
  {
    RestoredKeepsOwn(t, id);
    assert forall code :: code in Rollback(t, id) ==>
      code in Restored(t, id) && Rollback(t, id)[code] == Restored(t, id)[code];
  }

  lemma StepKeepsOwn(db: State, ev: Call, locale: Locale)
    requires OwnEmails(db.students)
    ensures OwnEmails(StepBoth(db, ev, locale).students)
  {
    hide OwnEmails, Loads, Validated, Accepts, Upload, Rollback, Restored, EmailsApart;
    match ev
    case LoadFile(file, cat, aborts) =>
      FileWritesOwn(db.nextId, file, cat, locale);
      UploadKeepsOwn(db.students, FileBatch(db.nextId, file, cat, locale).first, db.nextId);
    case RollBack(id, blocked) => RollbackKeepsOwn(db.students, id);
    case OtherType =>
  }

  lemma {:induction false} RunKeepsOwn(start: State, events: seq<Call>, locale: Locale)
    requires OwnEmails(start.students)
    ensures OwnEmails(RunBoth(start, events, locale).students)
  {
    hide OwnEmails, StepBoth;
    if events != [] {
      var n := |events| - 1;
      RunKeepsOwn(start, events[..n], locale);
      StepKeepsOwn(RunBoth(start, events[..n], locale), events[n], locale);
    }
  }

  lemma MidwayApart(t: StudentTable, t': StudentTable, m: StudentTable)
    requires OwnEmails(t) && OwnEmails(t') && Midway(t, t', m)
    ensures EmailsApart(m)
  {
    OwnEmailsApart(m);
  }

  /**
   * Where each stored address is missing or derived from its own code, no run of uploads and rollbacks
   * ever meets the constraint, whatever the order in which a statement writes its rows.
   */
  lemma EmailsNeverClash(start: State, events: seq<Call>, locale: Locale, id: nat, file: seq<FileRow>, cat: Catalog,
                         m: StudentTable)
    requires OwnEmails(start.students)
    ensures var t := RunBoth(start, events, locale).students;
            var uploaded := Upload(t, id, FileBatch(id, file, cat, locale).first, STUDENTS);
            && EmailsApart(t) && EmailsApart(uploaded) && EmailsApart(Restored(t, id))
            && (Midway(t, uploaded, m) || Midway(t, Restored(t, id), m) ==> EmailsApart(m))
  {
    hide OwnEmails, EmailsApart, Upload, Restored, Midway, WritesOwn;
    RunKeepsOwn(start, events, locale);
    var t := RunBoth(start, events, locale).students;
    var b := FileBatch(id, file, cat, locale).first;
    FileWritesOwn(id, file, cat, locale);
    UploadKeepsOwn(t, b, id);
    RestoredKeepsOwn(t, id);
    OwnEmailsApart(t);
    OwnEmailsApart(Upload(t, id, b, STUDENTS));
    OwnEmailsApart(Restored(t, id));
    if Midway(t, Upload(t, id, b, STUDENTS), m) {
      MidwayApart(t, Upload(t, id, b, STUDENTS), m);
    }
    if Midway(t, Restored(t, id), m) {
      MidwayApart(t, Restored(t, id), m);
    }
  }
}
