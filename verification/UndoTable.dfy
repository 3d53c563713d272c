/**
 * One table written by a bulk upload, as audit.fn_upload_* and audit.fn_rollback_* see it.
 *
 * A row carries the id of the upload that inserted it, its columns, and a jsonb `extra` in which
 * later uploads stack the values they overwrite under the key `upload_undo`.
 */
module UndoTable {
  import opened Wrappers

  datatype UndoEntry<C> = UndoEntry(logId: nat, prior: map<string, C>)

  /** `extra`: the `upload_undo` key (absent until something is pushed) and all the other keys. */
  datatype Extra<C> = Extra(others: map<string, C>, uploadUndo: Option<seq<UndoEntry<C>>>)

  datatype Row<C> = Row(uploadLogId: Option<nat>, columns: map<string, C>, extra: Extra<C>)

  /** What one file row asks for: the columns of a fresh row, or the columns written on an old one. */
  datatype Edit<C> = Edit(onInsert: map<string, C>, onUpdate: map<string, C>)

  /** The columns of a table and those that its upload saves in an undo entry. */
  datatype Schema = Schema(columns: set<string>, recorded: set<string>)

  type Table<K, C> = map<K, Row<C>>
  type Batch<K, C> = map<K, Edit<C>>

  function Undo<C>(r: Row<C>): seq<UndoEntry<C>> {
    r.extra.uploadUndo.GetOr([])
  }

  predicate Stacked<C>(r: Row<C>, logId: nat) {
    exists i :: 0 <= i < |Undo(r)| && Undo(r)[i].logId == logId
  }

  predicate OnTop<C>(r: Row<C>, logId: nat) {
    Undo(r) != [] && Undo(r)[|Undo(r)| - 1].logId == logId
  }

  /** A row nothing has been pushed on yet, just inserted by an upload. */
  function Inserted<C>(logId: nat, e: Edit<C>): Row<C> {
    Row(Some(logId), e.onInsert, Extra(map[], None))
  }

  function Push<C>(r: Row<C>, logId: nat, e: Edit<C>, schema: Schema): Row<C> {
    var prior := map c | c in r.columns && c in schema.recorded :: r.columns[c];
    Row(r.uploadLogId, r.columns + e.onUpdate,
        r.extra.(uploadUndo := Some(Undo(r) + [UndoEntry(logId, prior)])))
  }

  function Pop<C>(r: Row<C>): Row<C>
    requires Undo(r) != []
  {
    var top := Undo(r)[|Undo(r)| - 1];
    Row(r.uploadLogId, r.columns + top.prior,
        r.extra.(uploadUndo := if |Undo(r)| <= 1 then None else Some(Undo(r)[..|Undo(r)| - 1])))
  }

  /** Every row has the table's columns, and `upload_undo` is never present and empty. */
  predicate RowOk<C>(r: Row<C>, schema: Schema) {
    r.columns.Keys == schema.columns && r.extra.uploadUndo != Some([])
  }

  predicate EditOk<C>(e: Edit<C>, schema: Schema) {
    e.onInsert.Keys == schema.columns && e.onUpdate.Keys <= schema.columns
  }

  /** The undo entry of a table saves every column that its UPDATE statement writes. */
  predicate Recording<C>(e: Edit<C>, schema: Schema) {
    EditOk(e, schema) && e.onUpdate.Keys <= schema.recorded
  }

  ghost predicate TableOk<K(!new), C(!new)>(t: Table<K, C>, schema: Schema) {
    forall k :: k in t ==> RowOk(t[k], schema)
  }

  ghost predicate BatchOk<K(!new), C(!new)>(b: Batch<K, C>, schema: Schema) {
    forall k :: k in b ==> Recording(b[k], schema)
  }

  /** No row mentions this upload, neither as inserter nor in its stack. */
  ghost predicate Unmentioned<K(!new), C(!new)>(t: Table<K, C>, logId: nat) {
    forall k :: k in t ==> t[k].uploadLogId != Some(logId) && !Stacked(t[k], logId)
  }

  function UploadRow<C>(old_: Option<Row<C>>, logId: nat, e: Edit<C>, schema: Schema): Row<C> {
    match old_
    case None => Inserted(logId, e)
    case Some(r) => Push(r, logId, e, schema)
  }

  function Lookup<K, V>(t: map<K, V>, k: K): Option<V> {
    if k in t then Some(t[k]) else None
  }

  /** The table after an upload, key by key. */
  function Upload<K, C>(t: Table<K, C>, logId: nat, b: Batch<K, C>, schema: Schema): (t': Table<K, C>) {
    map k | k in t.Keys + b.Keys ::
      if k in b then UploadRow(Lookup(t, k), logId, b[k], schema) else t[k]
  }

  /** The rollback guard: this upload is the newest that touched each row it changed. */
  predicate Newest<K, C>(t: Table<K, C>, logId: nat) {
    && (forall k | k in t :: Stacked(t[k], logId) ==> OnTop(t[k], logId))
    && (forall k | k in t :: t[k].uploadLogId == Some(logId) ==> Undo(t[k]) == [])
  }

  function Rollback<K, C>(t: Table<K, C>, logId: nat): (t': Table<K, C>) {
    map k | k in t && t[k].uploadLogId != Some(logId) ::
      if OnTop(t[k], logId) then Pop(t[k]) else t[k]
  }

  // ---------------------------------------------------------------- one row

  /** A pop undoes a push exactly when every column the push changed was saved. */
  lemma PopPush<C>(r: Row<C>, logId: nat, e: Edit<C>, schema: Schema)
    requires RowOk(r, schema) && EditOk(e, schema)
    ensures OnTop(Push(r, logId, e, schema), logId)
    ensures Pop(Push(r, logId, e, schema)) == r <==>
            forall c :: c in e.onUpdate && c !in schema.recorded ==> e.onUpdate[c] == r.columns[c]
  {
    var p := Push(r, logId, e, schema);
    assert Undo(p)[..|Undo(p)| - 1] == Undo(r);
    var top := Undo(p)[|Undo(p)| - 1];
    var back := p.columns + top.prior;
    assert back.Keys == r.columns.Keys;
    if forall c :: c in e.onUpdate && c !in schema.recorded ==> e.onUpdate[c] == r.columns[c] {
      assert back == r.columns;
    } else {
      var c :| c in e.onUpdate && c !in schema.recorded && e.onUpdate[c] != r.columns[c];
      assert back[c] == e.onUpdate[c];
    }
  }
}
