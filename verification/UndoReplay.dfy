/**
 * Whole runs of uploads and rollbacks over one table. Rollbacks may come in any order the guard lets
 * through, and the table is still what replaying the surviving uploads would give.
 */
module UndoReplay {
  import opened Wrappers
  import opened UndoTable
  import Histories

  datatype Applied<K, C> = Applied(logId: nat, batch: Batch<K, C>)

  /** Rows that were there before the first upload: no inserter and an empty stack. */
  ghost predicate Seed<K(!new), C(!new)>(base: Table<K, C>, schema: Schema) {
    TableOk(base, schema) &&
    forall k :: k in base ==> base[k].uploadLogId == None && base[k].extra.uploadUndo == None
  }

  ghost predicate HistoryOk<K(!new), C(!new)>(h: seq<Applied<K, C>>, schema: Schema) {
    && (forall i, j :: 0 <= i < j < |h| ==> h[i].logId < h[j].logId)
    && (forall i :: 0 <= i < |h| ==> BatchOk(h[i].batch, schema))
  }

  /** The table that results from applying uploads one after another, with no rollback. */
  function Replay<K, C>(base: Table<K, C>, h: seq<Applied<K, C>>, schema: Schema): Table<K, C> {
    if h == [] then base
    else
      var last := h[|h| - 1];
      Upload(Replay(base, h[..|h| - 1], schema), last.logId, last.batch, schema)
  }

  /** The history with one upload erased. */
  function Without<K, C>(h: seq<Applied<K, C>>, logId: nat): seq<Applied<K, C>> {
    Histories.Without(h, logId, LogId<K, C>)
  }

  function LogId<K, C>(u: Applied<K, C>): nat { u.logId }

  ghost predicate Touched<C(!new)>(r: Row<C>, logId: nat) {
    r.uploadLogId == Some(logId) || Stacked(r, logId)
  }

  // ---------------------------------------------------------------- one more upload

  lemma PushStacks<C>(r: Row<C>, logId: nat, e: Edit<C>, schema: Schema, id: nat)
    ensures Stacked(Push(r, logId, e, schema), id) <==> id == logId || Stacked(r, id)
  {
    var p := Push(r, logId, e, schema);
    assert Undo(p)[|Undo(r)|].logId == logId;
    assert forall i :: 0 <= i < |Undo(r)| ==> Undo(p)[i] == Undo(r)[i];
  }

  lemma PushKeepsInserter<C>(r: Row<C>, logId: nat, e: Edit<C>, schema: Schema, id: nat)
    ensures Push(r, logId, e, schema).uploadLogId == r.uploadLogId
    ensures OnTop(Push(r, logId, e, schema), id) <==> id == logId
    ensures Inserted(logId, e).uploadLogId == Some(logId) && Undo(Inserted(logId, e)) == []
  {}

  lemma UploadTouches<K(!new), C(!new)>(t: Table<K, C>, u: Applied<K, C>, schema: Schema, k: K, id: nat)
    requires k in t.Keys + u.batch.Keys
    ensures Touched(Upload(t, u.logId, u.batch, schema)[k], id) <==>
            (k in u.batch && id == u.logId) || (k in t && Touched(t[k], id))
  {
    if k in u.batch && k in t {
      PushStacks(t[k], u.logId, u.batch[k], schema, id);
    }
  }

  lemma UploadKeepsOk<K(!new), C(!new)>(t: Table<K, C>, u: Applied<K, C>, schema: Schema)
    requires TableOk(t, schema) && BatchOk(u.batch, schema)
    ensures TableOk(Upload(t, u.logId, u.batch, schema), schema)
  {
    forall k | k in t.Keys + u.batch.Keys
      ensures RowOk(Upload(t, u.logId, u.batch, schema)[k], schema)
    {
      if k in u.batch {
        assert Recording(u.batch[k], schema);
      }
    }
  }

  /** A fresh upload rolled back at once leaves the table as it was. */
  lemma RollbackUndoesUpload<K(!new), C(!new)>(t: Table<K, C>, u: Applied<K, C>, schema: Schema)
    requires TableOk(t, schema) && BatchOk(u.batch, schema) && Unmentioned(t, u.logId)
    ensures Newest(Upload(t, u.logId, u.batch, schema), u.logId)
    ensures Rollback(Upload(t, u.logId, u.batch, schema), u.logId) == t
  {
    var t' := Upload(t, u.logId, u.batch, schema);
    forall k | k in t'
      ensures Stacked(t'[k], u.logId) ==> OnTop(t'[k], u.logId)
      ensures t'[k].uploadLogId == Some(u.logId) ==> Undo(t'[k]) == []
      ensures k in t ==> t'[k].uploadLogId != Some(u.logId)
      ensures k in t ==> (if OnTop(t'[k], u.logId) then Pop(t'[k]) else t'[k]) == t[k]
    {
      if k in t && k in u.batch {
        assert Recording(u.batch[k], schema);
        PopPush(t[k], u.logId, u.batch[k], schema);
      }
    }
    assert Rollback(t', u.logId) == t;
  }

  /** The guard after one more upload: passed before, and the new upload touched none of its rows. */
  lemma NewestAfterUpload<K(!new), C(!new)>(t: Table<K, C>, u: Applied<K, C>, schema: Schema, id: nat)
    requires id != u.logId
    ensures Newest(Upload(t, u.logId, u.batch, schema), id) <==>
            Newest(t, id) && forall k :: k in t && k in u.batch ==> !Touched(t[k], id)
  {
    var t' := Upload(t, u.logId, u.batch, schema);
    forall k | k in t && k in u.batch
      ensures Stacked(t'[k], id) <==> Stacked(t[k], id)
      ensures !OnTop(t'[k], id) && Undo(t'[k]) != [] && t'[k].uploadLogId == t[k].uploadLogId
    {
      PushStacks(t[k], u.logId, u.batch[k], schema, id);
    }
    forall k | k in t && k !in u.batch ensures t'[k] == t[k] {}
    forall k | k in t' && k !in t ensures !Touched(t'[k], id) {}
    if Newest(t, id) && forall k :: k in t && k in u.batch ==> !Touched(t[k], id) {
      forall k | k in t'
        ensures Stacked(t'[k], id) ==> OnTop(t'[k], id)
        ensures t'[k].uploadLogId == Some(id) ==> Undo(t'[k]) == []
      {
        assert k in t && k in u.batch ==> !Touched(t[k], id);
      }
    }
    if Newest(t', id) {
      forall k | k in t
        ensures Stacked(t[k], id) ==> OnTop(t[k], id)
        ensures t[k].uploadLogId == Some(id) ==> Undo(t[k]) == []
        ensures k in u.batch ==> !Touched(t[k], id)
      {
        assert k in t';
      }
    }
  }

  /** An upload that touched no row of `id` commutes with the rollback of `id`. */
  lemma RollbackCommutes<K(!new), C(!new)>(t: Table<K, C>, u: Applied<K, C>, schema: Schema, id: nat)
    requires id != u.logId
    requires forall k :: k in t && k in u.batch ==> !Touched(t[k], id)
    ensures Rollback(Upload(t, u.logId, u.batch, schema), id)
         == Upload(Rollback(t, id), u.logId, u.batch, schema)
  {
    hide Push, Pop, Inserted;
    var t' := Upload(t, u.logId, u.batch, schema);
    var l := Rollback(t', id);
    var r := Upload(Rollback(t, id), u.logId, u.batch, schema);
    forall k | k in t && k in u.batch
      ensures k in Rollback(t, id) && Rollback(t, id)[k] == t[k]
      ensures !OnTop(t'[k], id) && t'[k].uploadLogId != Some(id)
    {
      assert !Touched(t[k], id);
      PushStacks(t[k], u.logId, u.batch[k], schema, id);
      PushKeepsInserter(t[k], u.logId, u.batch[k], schema, id);
    }
    forall k | k in u.batch && k !in t
      ensures t'[k].uploadLogId != Some(id) && !OnTop(t'[k], id)
    {
      PushKeepsInserter(t'[k], u.logId, u.batch[k], schema, id);
    }
    assert l.Keys == r.Keys;
    assert l == r;
  }

  // ---------------------------------------------------------------- histories

  lemma HistoryPrefix<K(!new), C(!new)>(h: seq<Applied<K, C>>, schema: Schema)
    requires HistoryOk(h, schema) && h != []
    ensures HistoryOk(h[..|h| - 1], schema) && BatchOk(h[|h| - 1].batch, schema)
  {}

  /** Some upload of the history has the key in its batch. */
  ghost predicate Written<K(!new), C(!new)>(h: seq<Applied<K, C>>, k: K) {
    exists i :: 0 <= i < |h| && k in h[i].batch
  }

  /** The upload of this id has the key in its batch. */
  ghost predicate WrittenBy<K(!new), C(!new)>(h: seq<Applied<K, C>>, k: K, id: nat) {
    exists i :: 0 <= i < |h| && h[i].logId == id && k in h[i].batch
  }

  lemma WrittenGrows<K(!new), C(!new)>(h: seq<Applied<K, C>>, u: Applied<K, C>, k: K, id: nat)
    ensures Written(h + [u], k) <==> Written(h, k) || k in u.batch
    ensures WrittenBy(h + [u], k, id) <==> WrittenBy(h, k, id) || (u.logId == id && k in u.batch)
  {
    var g := h + [u];
    assert g[|h|] == u && forall i :: 0 <= i < |h| ==> g[i] == h[i];
  }

  /** Exactly the uploads whose batch has the key are mentioned by its row. */
  lemma {:induction false} ReplayTouches<K(!new), C(!new)>(
      base: Table<K, C>, h: seq<Applied<K, C>>, schema: Schema, k: K, id: nat)
    requires Seed(base, schema) && HistoryOk(h, schema)
    ensures k in Replay(base, h, schema) <==> k in base || Written(h, k)
    ensures k in Replay(base, h, schema) && Touched(Replay(base, h, schema)[k], id) <==> WrittenBy(h, k, id)
  {
    if h != [] {
      hide Upload, HistoryOk, Touched, Seed, Written, WrittenBy;
      var n := |h| - 1;
      var t, u := Replay(base, h[..n], schema), h[n];
      HistoryPrefix(h, schema);
      ReplayTouches(base, h[..n], schema, k, id);
      WrittenGrows(h[..n], u, k, id);
      assert h == h[..n] + [u];
      UploadedKeys(t, u, schema);
      if k in t.Keys + u.batch.Keys {
        UploadTouches(t, u, schema, k, id);
      }
    }
  }

  lemma UploadedKeys<K(!new), C(!new)>(t: Table<K, C>, u: Applied<K, C>, schema: Schema)
    ensures Upload(t, u.logId, u.batch, schema).Keys == t.Keys + u.batch.Keys
  {}

  lemma {:induction false} ReplayOk<K(!new), C(!new)>(base: Table<K, C>, h: seq<Applied<K, C>>, schema: Schema)
    requires Seed(base, schema) && HistoryOk(h, schema)
    ensures TableOk(Replay(base, h, schema), schema)
  {
    if h != [] {
      var n := |h| - 1;
      HistoryPrefix(h, schema);
      ReplayOk(base, h[..n], schema);
      UploadKeepsOk(Replay(base, h[..n], schema), h[n], schema);
    }
  }

  lemma ReplayUnmentioned<K(!new), C(!new)>(
      base: Table<K, C>, h: seq<Applied<K, C>>, schema: Schema, id: nat)
    requires Seed(base, schema) && HistoryOk(h, schema)
    requires forall i :: 0 <= i < |h| ==> h[i].logId != id
    ensures Unmentioned(Replay(base, h, schema), id)
  {
    var t := Replay(base, h, schema);
    forall k | k in t ensures !Touched(t[k], id) {
      ReplayTouches(base, h, schema, k, id);
    }
  }

  lemma UnmentionedRollback<K(!new), C(!new)>(t: Table<K, C>, id: nat)
    requires Unmentioned(t, id)
    ensures Newest(t, id) && Rollback(t, id) == t
  {
    forall k | k in t ensures !OnTop(t[k], id) {
      assert OnTop(t[k], id) ==> Stacked(t[k], id);
    }
  }

  lemma WithoutMembers<K(!new), C(!new)>(h: seq<Applied<K, C>>, id: nat, u: Applied<K, C>)
    ensures u in Without(h, id) <==> u in h && u.logId != id
  {
    Histories.WithoutMembers(h, id, LogId<K, C>, u);
  }

  lemma WithoutAbsent<K(!new), C(!new)>(h: seq<Applied<K, C>>, id: nat)
    requires forall i :: 0 <= i < |h| ==> h[i].logId != id
    ensures Without(h, id) == h
  {
    Histories.WithoutAbsent(h, id, LogId<K, C>);
  }

  lemma {:induction false} WithoutKeeps<K(!new), C(!new)>(h: seq<Applied<K, C>>, id: nat, schema: Schema)
    requires HistoryOk(h, schema)
    ensures HistoryOk(Without(h, id), schema)
  {
    if h != [] {
      var n := |h| - 1;
      HistoryPrefix(h, schema);
      WithoutKeeps(h[..n], id, schema);
      var w := Without(h[..n], id);
      forall i | 0 <= i < |w| ensures w[i].logId < h[n].logId {
        WithoutMembers(h[..n], id, w[i]);
      }
    }
  }

  /**
   * The heart of the engine: an accepted rollback of any upload, however old, gives the table that
   * would be there had that upload never happened.
   */
  lemma {:induction false} RollbackErases<K(!new), C(!new)>(
      base: Table<K, C>, h: seq<Applied<K, C>>, schema: Schema, id: nat)
    requires Seed(base, schema) && HistoryOk(h, schema)
    requires Newest(Replay(base, h, schema), id)
    ensures Rollback(Replay(base, h, schema), id) == Replay(base, Without(h, id), schema)
  {
    if h == [] {
      ReplayUnmentioned(base, h, schema, id);
      UnmentionedRollback(base, id);
    } else {
      var n := |h| - 1;
      var t := Replay(base, h[..n], schema);
      HistoryPrefix(h, schema);
      if h[n].logId == id {
        ReplayOk(base, h[..n], schema);
        ReplayUnmentioned(base, h[..n], schema, id);
        RollbackUndoesUpload(t, h[n], schema);
        WithoutAbsent(h[..n], id);
      } else {
        NewestAfterUpload(t, h[n], schema, id);
        RollbackErases(base, h[..n], schema, id);
        RollbackCommutes(t, h[n], schema, id);
        var w := Without(h[..n], id);
        assert (w + [h[n]])[..|w|] == w;
      }
    }
  }

  /** No later upload of the history shares a key with this one. */
  ghost predicate Unshared<K(!new), C(!new)>(h: seq<Applied<K, C>>, id: nat) {
    forall i, j :: 0 <= i < j < |h| && h[i].logId == id ==> h[i].batch.Keys !! h[j].batch.Keys
  }

  /** None of the uploads of this id shares a key with a batch. */
  ghost predicate Avoids<K(!new), C(!new)>(h: seq<Applied<K, C>>, id: nat, b: Batch<K, C>) {
    forall i :: 0 <= i < |h| && h[i].logId == id ==> h[i].batch.Keys !! b.Keys
  }

  lemma UnsharedGrows<K(!new), C(!new)>(h: seq<Applied<K, C>>, u: Applied<K, C>, id: nat)
    ensures Unshared(h + [u], id) <==> Unshared(h, id) && Avoids(h, id, u.batch)
  {
    var g := h + [u];
    assert g[|h|] == u && forall i :: 0 <= i < |h| ==> g[i] == h[i];
    if Unshared(g, id) {
      forall i | 0 <= i < |h| && h[i].logId == id ensures h[i].batch.Keys !! u.batch.Keys {
        assert g[i].batch.Keys !! g[|h|].batch.Keys;
      }
      forall i, j | 0 <= i < j < |h| && h[i].logId == id ensures h[i].batch.Keys !! h[j].batch.Keys {
        assert g[i].batch.Keys !! g[j].batch.Keys;
      }
    }
  }

  /** A batch touches no row of this upload exactly when it shares no key with it. */
  lemma AvoidsUntouched<K(!new), C(!new)>(
      base: Table<K, C>, h: seq<Applied<K, C>>, schema: Schema, id: nat, b: Batch<K, C>)
    requires Seed(base, schema) && HistoryOk(h, schema)
    ensures var t := Replay(base, h, schema);
            Avoids(h, id, b) <==> forall k :: k in t && k in b ==> !Touched(t[k], id)
  {
    hide Seed, HistoryOk, Replay, Touched;
    var t := Replay(base, h, schema);
    forall k | k in b
      ensures k in t && Touched(t[k], id) <==> exists i :: 0 <= i < |h| && h[i].logId == id && k in h[i].batch
    {
      ReplayTouches(base, h, schema, k, id);
    }
    if Avoids(h, id, b) {
      forall k | k in t && k in b ensures !Touched(t[k], id) {
        assert forall i :: 0 <= i < |h| && h[i].logId == id ==> k !in h[i].batch.Keys;
      }
    }
  }

  /** The guard refuses a rollback exactly when a later surviving upload shares a key with it. */
  lemma {:induction false} GuardExact<K(!new), C(!new)>(
      base: Table<K, C>, h: seq<Applied<K, C>>, schema: Schema, id: nat)
    requires Seed(base, schema) && HistoryOk(h, schema)
    ensures Newest(Replay(base, h, schema), id) <==> Unshared(h, id)
  {
    if h == [] {
      ReplayUnmentioned(base, h, schema, id);
      UnmentionedRollback(base, id);
    } else {
      hide Upload, Newest, Rollback, Touched, Seed, Unshared, Avoids;
      var n := |h| - 1;
      var t, u := Replay(base, h[..n], schema), h[n];
      HistoryPrefix(h, schema);
      assert h == h[..n] + [u];
      UnsharedGrows(h[..n], u, id);
      if u.logId == id {
        ReplayOk(base, h[..n], schema);
        ReplayUnmentioned(base, h[..n], schema, id);
        RollbackUndoesUpload(t, u, schema);
        AbsentUnshared(h[..n], id, u.batch);
      } else {
        GuardExact(base, h[..n], schema, id);
        NewestAfterUpload(t, u, schema, id);
        AvoidsUntouched(base, h[..n], schema, id, u.batch);
      }
    }
  }

  lemma AbsentUnshared<K(!new), C(!new)>(h: seq<Applied<K, C>>, id: nat, b: Batch<K, C>)
    requires forall i :: 0 <= i < |h| ==> h[i].logId != id
    ensures Unshared(h, id) && Avoids(h, id, b)
  {}

  /** Log ids of a row, inserter first: each upload at most once and in the order they happened. */
  ghost predicate Disciplined<C(!new)>(r: Row<C>) {
    && (forall i, j :: 0 <= i < j < |Undo(r)| ==> Undo(r)[i].logId < Undo(r)[j].logId)
    && (forall i :: 0 <= i < |Undo(r)| && r.uploadLogId.Some? ==> r.uploadLogId.value < Undo(r)[i].logId)
  }

  /** All uploads that a row mentions are older than this one. */
  ghost predicate OlderThan<C>(r: Row<C>, logId: nat) {
    && (r.uploadLogId.Some? ==> r.uploadLogId.value < logId)
    && (forall i :: 0 <= i < |Undo(r)| ==> Undo(r)[i].logId < logId)
  }

  lemma PushDisciplined<C(!new)>(r: Row<C>, logId: nat, e: Edit<C>, schema: Schema)
    requires Disciplined(r) && OlderThan(r, logId)
    ensures Disciplined(Push(r, logId, e, schema))
  {}

  lemma ReplayOlder<K(!new), C(!new)>(base: Table<K, C>, h: seq<Applied<K, C>>, schema: Schema, k: K, logId: nat)
    requires Seed(base, schema) && HistoryOk(h, schema)
    requires forall i :: 0 <= i < |h| ==> h[i].logId < logId
    requires k in Replay(base, h, schema)
    ensures OlderThan(Replay(base, h, schema)[k], logId)
  {
    hide Seed, HistoryOk, Replay;
    var r := Replay(base, h, schema)[k];
    forall i | 0 <= i < |Undo(r)| ensures Undo(r)[i].logId < logId {
      assert Stacked(r, Undo(r)[i].logId);
      ReplayTouches(base, h, schema, k, Undo(r)[i].logId);
    }
    if r.uploadLogId.Some? {
      ReplayTouches(base, h, schema, k, r.uploadLogId.value);
    }
  }

  lemma {:induction false} StackDiscipline<K(!new), C(!new)>(
      base: Table<K, C>, h: seq<Applied<K, C>>, schema: Schema, k: K)
    requires Seed(base, schema) && HistoryOk(h, schema)
    requires k in Replay(base, h, schema)
    ensures Disciplined(Replay(base, h, schema)[k])
  {
    if h != [] {
      hide Seed, Push, OlderThan;
      var n := |h| - 1;
      HistoryPrefix(h, schema);
      var t := Replay(base, h[..n], schema);
      if k in t {
        StackDiscipline(base, h[..n], schema, k);
        ReplayOlder(base, h[..n], schema, k, h[n].logId);
        if k in h[n].batch {
          PushDisciplined(t[k], h[n].logId, h[n].batch[k], schema);
        }
      }
    }
  }

  lemma {:induction false} SeedRowsHaveNoInserter<K(!new), C(!new)>(
      base: Table<K, C>, h: seq<Applied<K, C>>, schema: Schema, k: K)
    requires Seed(base, schema) && k in Replay(base, h, schema)
    ensures k in base <==> Replay(base, h, schema)[k].uploadLogId == None
    ensures k !in base ==> exists i :: 0 <= i < |h| && k in h[i].batch &&
                             Replay(base, h, schema)[k].uploadLogId == Some(h[i].logId)
  {
    if h != [] {
      var n := |h| - 1;
      assert forall i :: 0 <= i < n ==> h[..n][i] == h[i];
      if k in Replay(base, h[..n], schema) {
        SeedRowsHaveNoInserter(base, h[..n], schema, k);
      } else {
        assert k !in base by {
          KeysGrow(base, h[..n], schema, k);
        }
      }
    }
  }

  lemma {:induction false} KeysGrow<K(!new), C(!new)>(base: Table<K, C>, h: seq<Applied<K, C>>, schema: Schema, k: K)
    ensures k in base ==> k in Replay(base, h, schema)
  {
    if h != [] {
      KeysGrow(base, h[..|h| - 1], schema, k);
    }
  }

  /** What readers see of a key: the first edit's fresh columns, overwritten by each later edit. */
  function Visible<K, C>(base: Table<K, C>, h: seq<Applied<K, C>>, k: K): Option<map<string, C>> {
    if h == [] then (if k in base then Some(base[k].columns) else None)
    else
      var before := Visible(base, h[..|h| - 1], k);
      var b := h[|h| - 1].batch;
      if k !in b then before
      else match before
        case None => Some(b[k].onInsert)
        case Some(v) => Some(v + b[k].onUpdate)
  }

  lemma {:induction false} ReplayShowsVisible<K(!new), C(!new)>(
      base: Table<K, C>, h: seq<Applied<K, C>>, schema: Schema, k: K)
    ensures Visible(base, h, k) ==
            (if k in Replay(base, h, schema) then Some(Replay(base, h, schema)[k].columns) else None)
  {
    if h != [] {
      ReplayShowsVisible(base, h[..|h| - 1], schema, k);
    }
  }

  // ---------------------------------------------------------------- runs

  datatype Event<K, C> =
    | Load(batch: Batch<K, C>, hasErrors: bool)
    | Undone(logId: nat, blocked: bool)   // blocked: a row created by the upload is referenced elsewhere
    | OtherLog                            // another upload type takes an id from the same sequence

  datatype Db<K, C> = Db(rows: Table<K, C>, nextId: nat, logs: set<nat>, survivors: seq<Applied<K, C>>)

  function Step<K, C>(db: Db<K, C>, ev: Event<K, C>, schema: Schema): Db<K, C> {
    match ev
    case Load(batch, hasErrors) =>
      if hasErrors then db
      else Db(Upload(db.rows, db.nextId, batch, schema), db.nextId + 1, db.logs + {db.nextId},
              db.survivors + [Applied(db.nextId, batch)])
    case Undone(logId, blocked) =>
      if logId !in db.logs || blocked || !Newest(db.rows, logId) then db
      else db.(rows := Rollback(db.rows, logId), survivors := Without(db.survivors, logId))
    case OtherLog => db.(nextId := db.nextId + 1, logs := db.logs + {db.nextId})
  }

  function Run<K, C>(db: Db<K, C>, events: seq<Event<K, C>>, schema: Schema): Db<K, C> {
    if events == [] then db
    else Step(Run(db, events[..|events| - 1], schema), events[|events| - 1], schema)
  }

  ghost predicate EventsOk<K(!new), C(!new)>(events: seq<Event<K, C>>, schema: Schema) {
    forall i :: 0 <= i < |events| && events[i].Load? ==> BatchOk(events[i].batch, schema)
  }

  ghost predicate DbOk<K(!new), C(!new)>(base: Table<K, C>, db: Db<K, C>, schema: Schema) {
    && Seed(base, schema)
    && HistoryOk(db.survivors, schema)
    && (forall u :: u in db.survivors ==> u.logId in db.logs)
    && (forall id :: id in db.logs ==> id < db.nextId)
    && db.rows == Replay(base, db.survivors, schema)
  }

  lemma UploadStepOk<K(!new), C(!new)>(base: Table<K, C>, db: Db<K, C>, batch: Batch<K, C>, schema: Schema)
    requires DbOk(base, db, schema) && BatchOk(batch, schema)
    ensures DbOk(base, Step(db, Load(batch, false), schema), schema)
  {
    hide Upload, BatchOk, Seed;
    var s, u := db.survivors, Applied(db.nextId, batch);
    assert (s + [u])[..|s|] == s;
    forall i | 0 <= i < |s| ensures s[i].logId < db.nextId {
      assert s[i] in s;
    }
  }

  lemma RollbackStepOk<K(!new), C(!new)>(base: Table<K, C>, db: Db<K, C>, logId: nat, schema: Schema)
    requires DbOk(base, db, schema) && Newest(db.rows, logId)
    ensures DbOk(base, db.(rows := Rollback(db.rows, logId), survivors := Without(db.survivors, logId)), schema)
  {
    hide Newest, Rollback, HistoryOk, Seed, Replay, Without;
    WithoutKeeps(db.survivors, logId, schema);
    RollbackErases(base, db.survivors, schema, logId);
    forall u | u in Without(db.survivors, logId) ensures u.logId in db.logs {
      WithoutMembers(db.survivors, logId, u);
    }
  }

  lemma StepKeepsOk<K(!new), C(!new)>(base: Table<K, C>, db: Db<K, C>, ev: Event<K, C>, schema: Schema)
    requires DbOk(base, db, schema) && EventsOk([ev], schema)
    ensures DbOk(base, Step(db, ev, schema), schema)
  {
    hide Newest, Rollback, Upload, Replay, HistoryOk, Seed, BatchOk;
    match ev
    case Load(batch, hasErrors) =>
      if !hasErrors {
        assert [ev][0] == ev;
        UploadStepOk(base, db, batch, schema);
      }
    case Undone(logId, blocked) =>
      if Newest(db.rows, logId) {
        RollbackStepOk(base, db, logId, schema);
      }
    case OtherLog =>
  }

  /**
   * After any run of uploads and rollbacks, in any order, the whole table - inserters, columns and
   * undo stacks - is the replay of the uploads that survive.
   */
  lemma {:induction false} ReplayTheorem<K(!new), C(!new)>(
      base: Table<K, C>, start: Db<K, C>, events: seq<Event<K, C>>, schema: Schema)
    requires Seed(base, schema) && EventsOk(events, schema)
    requires start == Db(base, start.nextId, {}, [])
    ensures var db := Run(start, events, schema);
            db.rows == Replay(base, db.survivors, schema) && DbOk(base, db, schema)
  {
    if events != [] {
      var n := |events| - 1;
      ReplayTheorem(base, start, events[..n], schema);
      assert [events[n]][0] == events[n];
      StepKeepsOk(base, Run(start, events[..n], schema), events[n], schema);
    }
  }

  /** Rolling the same upload back a second time leaves every row alone. */
  lemma SecondRollbackIsNoOp<K(!new), C(!new)>(
      base: Table<K, C>, db: Db<K, C>, logId: nat, schema: Schema)
    requires DbOk(base, db, schema)
    requires logId in db.logs && Newest(db.rows, logId)
    ensures var once := Step(db, Undone(logId, false), schema);
            Newest(once.rows, logId) && Step(once, Undone(logId, false), schema).rows == once.rows
  {
    var once := Step(db, Undone(logId, false), schema);
    StepKeepsOk(base, db, Undone(logId, false), schema);
    forall i | 0 <= i < |once.survivors| ensures once.survivors[i].logId != logId {
      WithoutMembers(db.survivors, logId, once.survivors[i]);
    }
    ReplayUnmentioned(base, once.survivors, schema, logId);
    UnmentionedRollback(once.rows, logId);
  }
}
