/**
 * The INSERT ... SELECT and UPDATE ... FROM statements of an upload, file row by file row. An item is
 * what the joins make of one file row; None means that some join found nothing.
 */
module UndoLoad {
  import opened Wrappers
  import opened UndoTable

  type Item<K, C> = Option<(K, Edit<C>)>

  function BatchOf<K, C>(items: seq<Item<K, C>>): Batch<K, C> {
    if items == [] then map[]
    else
      var b := BatchOf(items[..|items| - 1]);
      match items[|items| - 1]
      case None => b
      case Some(item) => b[item.0 := item.1]
  }

  /** How many file rows survive the joins. */
  function Joined<K, C>(items: seq<Item<K, C>>): nat {
    if items == [] then 0
    else Joined(items[..|items| - 1]) + if items[|items| - 1].Some? then 1 else 0
  }

  ghost predicate KeysApart<K, C>(items: seq<Item<K, C>>) {
    forall i, j :: 0 <= i < j < |items| && items[i].Some? && items[j].Some? ==>
      items[i].value.0 != items[j].value.0
  }

  lemma {:induction false} BatchKeys<K, C>(items: seq<Item<K, C>>)
    ensures forall k :: k in BatchOf(items) <==>
              exists i :: 0 <= i < |items| && items[i].Some? && items[i].value.0 == k
  {
    if items != [] {
      var n := |items| - 1;
      BatchKeys(items[..n]);
      assert forall i :: 0 <= i < n ==> items[..n][i] == items[i];
    }
  }

  /** With different keys, each joined row is what the batch holds under its key. */
  lemma {:induction false} BatchHolds<K, C>(items: seq<Item<K, C>>, i: nat)
    requires KeysApart(items) && i < |items| && items[i].Some?
    ensures items[i].value.0 in BatchOf(items) && BatchOf(items)[items[i].value.0] == items[i].value.1
  {
    var n := |items| - 1;
    if i < n {
      BatchHolds(items[..n], i);
      assert items[..n][i] == items[i];
    }
  }

  lemma {:induction false} BatchSize<K, C>(items: seq<Item<K, C>>)
    requires KeysApart(items)
    ensures |BatchOf(items)| == Joined(items)
  {
    if items != [] {
      var n := |items| - 1;
      assert forall i :: 0 <= i < n ==> items[..n][i] == items[i];
      BatchSize(items[..n]);
      BatchKeys(items[..n]);
    }
  }

  lemma {:induction false} AllJoined<K, C>(items: seq<Item<K, C>>)
    ensures Joined(items) <= |items|
    ensures Joined(items) == |items| <==> forall i :: 0 <= i < |items| ==> items[i].Some?
  {
    if items != [] {
      var n := |items| - 1;
      assert forall i :: 0 <= i < n ==> items[..n][i] == items[i];
      AllJoined(items[..n]);
    }
  }

  lemma DisjointSizes<K>(a: set<K>, b: set<K>, c: set<K>)
    requires a !! b && a + b == c
    ensures |a| + |b| == |c|
  {}

  lemma SetSizes<K>(t: set<K>, b: set<K>)
    ensures |b - t| + |b * t| == |b| && |t| + |b - t| == |t + b|
  {
    DisjointSizes(b - t, b * t, b);
    DisjointSizes(t, b - t, t + b);
  }

  lemma MapSize<K, V>(m: map<K, V>, keys: set<K>)
    requires m.Keys == keys
    ensures |m| == |keys|
  {}

  /** What a joined row leaves in the table. */
  lemma ItemStored<K(!new), C(!new)>(t: Table<K, C>, id: nat, items: seq<Item<K, C>>, i: nat, schema: Schema)
    requires KeysApart(items) && i < |items| && items[i].Some?
    ensures var k, e := items[i].value.0, items[i].value.1;
            var after := Upload(t, id, BatchOf(items), schema);
      && k in after && after[k].columns == (if k in t then t[k].columns + e.onUpdate else e.onInsert)
      && after[k].uploadLogId == (if k in t then t[k].uploadLogId else Some(id))
  {
    BatchHolds(items, i);
  }

  /** A key that no joined row has is left alone. */
  lemma NoItemStored<K(!new), C(!new)>(t: Table<K, C>, id: nat, items: seq<Item<K, C>>, k: K, schema: Schema)
    requires forall i :: 0 <= i < |items| && items[i].Some? ==> items[i].value.0 != k
    ensures var after := Upload(t, id, BatchOf(items), schema);
            (k in after <==> k in t) && (k in t ==> after[k] == t[k])
  {
    BatchKeys(items);
  }

  /** The rows that INSERT ... WHERE NOT EXISTS adds. */
  function Added<K, C>(t: Table<K, C>, id: nat, b: Batch<K, C>): Table<K, C> {
    map k | k in b && k !in t :: Inserted(id, b[k])
  }

  /** The rows that the UPDATE rewrites. */
  function Pushed<K, C>(t: Table<K, C>, id: nat, b: Batch<K, C>, schema: Schema): Table<K, C> {
    map k | k in b && k in t :: Push(t[k], id, b[k], schema)
  }

  lemma AddedThenPushed<K(!new), C(!new)>(t: Table<K, C>, id: nat, b: Batch<K, C>, schema: Schema)
    ensures t + Added(t, id, b) + Pushed(t, id, b, schema) == Upload(t, id, b, schema)
  {
    var l, u := t + Added(t, id, b) + Pushed(t, id, b, schema), Upload(t, id, b, schema);
    assert l.Keys == u.Keys;
    forall k | k in l ensures l[k] == u[k] {}
  }

  lemma AddedPushedKeys<K(!new), C(!new)>(t: Table<K, C>, id: nat, b: Batch<K, C>, schema: Schema)
    ensures Added(t, id, b).Keys == b.Keys - t.Keys
    ensures Pushed(t, id, b, schema).Keys == b.Keys * t.Keys
    ensures Upload(t, id, b, schema).Keys == t.Keys + b.Keys
  {}

  lemma AddedPushedSizes<K(!new), C(!new)>(t: Table<K, C>, id: nat, b: Batch<K, C>, schema: Schema)
    ensures |Added(t, id, b)| + |Pushed(t, id, b, schema)| == |b|
    ensures |t| + |Added(t, id, b)| == |Upload(t, id, b, schema)|
  {
    AddedPushedKeys(t, id, b, schema);
    SetSizes(t.Keys, b.Keys);
    MapSize(t, t.Keys);
    MapSize(b, b.Keys);
    MapSize(Added(t, id, b), b.Keys - t.Keys);
    MapSize(Pushed(t, id, b, schema), b.Keys * t.Keys);
    MapSize(Upload(t, id, b, schema), t.Keys + b.Keys);
  }

  lemma AddedStep<K(!new), C(!new)>(t: Table<K, C>, id: nat, items: seq<Item<K, C>>, n: nat)
    requires n < |items|
    ensures var a := Added(t, id, BatchOf(items[..n]));
            Added(t, id, BatchOf(items[..n + 1])) ==
            if items[n].Some? && items[n].value.0 !in t
            then a[items[n].value.0 := Inserted(id, items[n].value.1)] else a
  {
    assert items[..n + 1][..n] == items[..n];
  }

  lemma PushedStep<K(!new), C(!new)>(t: Table<K, C>, id: nat, items: seq<Item<K, C>>, n: nat, schema: Schema)
    requires n < |items|
    ensures var p := Pushed(t, id, BatchOf(items[..n]), schema);
            Pushed(t, id, BatchOf(items[..n + 1]), schema) ==
            if items[n].Some? && items[n].value.0 in t
            then p[items[n].value.0 := Push(t[items[n].value.0], id, items[n].value.1, schema)] else p
  {
    assert items[..n + 1][..n] == items[..n];
  }

  lemma NothingYet<K(!new), C(!new)>(t: Table<K, C>, id: nat, items: seq<Item<K, C>>, schema: Schema)
    ensures Added(t, id, BatchOf(items[..0])) == map[] && Pushed(t, id, BatchOf(items[..0]), schema) == map[]
  {}

  /** After the INSERT, the rows that are not this upload's are the rows from before. */
  lemma OldRows<K(!new), C(!new)>(t: Table<K, C>, id: nat, b: Batch<K, C>, k: K)
    requires Unmentioned(t, id) && k in b
    ensures var t' := t + Added(t, id, b);
            k in t' && (t'[k].uploadLogId != Some(id) <==> k in t) && (k in t ==> t'[k] == t[k])
  {}

  class RowTable<K(!new, ==), C(!new, ==)> {
    var rows: Table<K, C>

    constructor (rows: Table<K, C>)
      ensures this.rows == rows
    {
      this.rows := rows;
    }

    /**
     * Every joined file row is inserted once or pushed once, never both; a row is lost only when a
     * join loses it.
     */
    method Load(items: seq<Item<K, C>>, id: nat, schema: Schema) returns (inserted: nat, updated: nat)
      requires KeysApart(items) && Unmentioned(rows, id)
      modifies this
      ensures rows == Upload(old(rows), id, BatchOf(items), schema)
      ensures inserted == |rows| - |old(rows)|
      ensures inserted + updated == Joined(items)
      ensures inserted + updated == |items| <==> forall i :: 0 <= i < |items| ==> items[i].Some?
    {
      hide Upload, Added, Pushed, BatchOf, Push, Inserted, Joined, Unmentioned;
      ghost var before, batch := rows, BatchOf(items);
      assert items[..|items|] == items;
      NothingYet(before, id, items, schema);
      var added: Table<K, C> := map[];
      for n := 0 to |items|
        invariant rows == before && added == Added(before, id, BatchOf(items[..n]))
      {
        AddedStep(before, id, items, n);
        if items[n].Some? && items[n].value.0 !in rows {
          added := added[items[n].value.0 := Inserted(id, items[n].value.1)];
        }
      }
      rows := rows + added;
      var pushed: Table<K, C> := map[];
      for n := 0 to |items|
        invariant rows == before + Added(before, id, batch)
        invariant pushed == Pushed(before, id, BatchOf(items[..n]), schema)
      {
        PushedStep(before, id, items, n, schema);
        if items[n].Some? {
          BatchKeys(items);
          OldRows(before, id, batch, items[n].value.0);
          if rows[items[n].value.0].uploadLogId != Some(id) {
            pushed := pushed[items[n].value.0 := Push(rows[items[n].value.0], id, items[n].value.1, schema)];
          }
        }
      }
      rows := rows + pushed;
      inserted, updated := |added|, |pushed|;
      AddedThenPushed(before, id, batch, schema);
      AddedPushedSizes(before, id, batch, schema);
      BatchSize(items);
      AllJoined(items);
    }

    /** Restores the rows whose top undo entry is this upload's, then deletes the rows it inserted. */
    method Undo(id: nat)
      modifies this
      ensures rows == Rollback(old(rows), id)
    {
      ghost var before := rows;
      rows := map k | k in rows :: if OnTop(rows[k], id) then Pop(rows[k]) else rows[k];
      rows := map k | k in rows && rows[k].uploadLogId != Some(id) :: rows[k];
      assert rows.Keys == Rollback(before, id).Keys;
    }

    /** The two EXISTS tests behind rollbackBlockedNewerUpload. */
    method BlockedByNewer(id: nat) returns (blocked: bool)
      ensures blocked <==> !Newest(rows, id)
    {
      blocked := (exists k :: k in rows && Stacked(rows[k], id) && !OnTop(rows[k], id))
              || (exists k :: k in rows && rows[k].uploadLogId == Some(id) && |UndoTable.Undo(rows[k])| > 0);
    }
  }
}
