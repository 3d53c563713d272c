/**
 * Histories of uploads that write two tables at once. The two tables share the upload-log ids, so one
 * rollback erases the upload from both or from neither.
 */
module TwoTables {
  import opened Wrappers
  import opened UndoTable
  import opened UndoReplay
  import Histories

  datatype Both<K, L, C> = Both(logId: nat, first: Batch<K, C>, second: Batch<L, C>)

  datatype Pair<K, L, C> = Pair(first: Table<K, C>, second: Table<L, C>)

  function First<K, L, C>(h: seq<Both<K, L, C>>): (s: seq<Applied<K, C>>)
    ensures |s| == |h| && forall i :: 0 <= i < |h| ==> s[i] == Applied(h[i].logId, h[i].first)
  {
    seq(|h|, i requires 0 <= i < |h| => Applied(h[i].logId, h[i].first))
  }

  function Second<K, L, C>(h: seq<Both<K, L, C>>): (s: seq<Applied<L, C>>)
    ensures |s| == |h| && forall i :: 0 <= i < |h| ==> s[i] == Applied(h[i].logId, h[i].second)
  {
    seq(|h|, i requires 0 <= i < |h| => Applied(h[i].logId, h[i].second))
  }

  function WithoutBoth<K, L, C>(h: seq<Both<K, L, C>>, id: nat): seq<Both<K, L, C>> {
    Histories.Without(h, id, BothId<K, L, C>)
  }

  function BothId<K, L, C>(u: Both<K, L, C>): nat { u.logId }

  /** Both tables are the replay of the history. */
  ghost predicate Replayed<K(!new), L(!new), C(!new)>(
      base: Pair<K, L, C>, h: seq<Both<K, L, C>>, now: Pair<K, L, C>, schema1: Schema, schema2: Schema)
  {
    && Seed(base.first, schema1) && Seed(base.second, schema2)
    && HistoryOk(First(h), schema1) && HistoryOk(Second(h), schema2)
    && now.first == Replay(base.first, First(h), schema1)
    && now.second == Replay(base.second, Second(h), schema2)
  }

  lemma SidesAppend<K, L, C>(h: seq<Both<K, L, C>>, u: Both<K, L, C>)
    ensures First(h + [u]) == First(h) + [Applied(u.logId, u.first)]
    ensures Second(h + [u]) == Second(h) + [Applied(u.logId, u.second)]
  {}

  lemma WithoutBothMembers<K(!new), L(!new), C(!new)>(h: seq<Both<K, L, C>>, id: nat, u: Both<K, L, C>)
    ensures u in WithoutBoth(h, id) <==> u in h && u.logId != id
  {
    Histories.WithoutMembers(h, id, BothId<K, L, C>, u);
  }

  lemma WithoutAppend<K, C>(h: seq<Applied<K, C>>, u: Applied<K, C>, id: nat)
    ensures Without(h + [u], id) == if u.logId == id then Without(h, id) else Without(h, id) + [u]
  {
    Histories.WithoutAppend(h, u, id, LogId<K, C>);
  }

  lemma {:induction false} SidesWithout<K, L, C>(h: seq<Both<K, L, C>>, id: nat)
    ensures First(WithoutBoth(h, id)) == Without(First(h), id)
    ensures Second(WithoutBoth(h, id)) == Without(Second(h), id)
  {
    if h != [] {
      var n := |h| - 1;
      var init, u := h[..n], h[n];
      assert h == init + [u];
      SidesWithout(init, id);
      SidesAppend(init, u);
      SidesAppend(WithoutBoth(init, id), u);
      WithoutAppend(First(init), Applied(u.logId, u.first), id);
      WithoutAppend(Second(init), Applied(u.logId, u.second), id);
    }
  }

  lemma HistoryAppend<K(!new), C(!new)>(h: seq<Applied<K, C>>, u: Applied<K, C>, base: Table<K, C>, schema: Schema)
    requires HistoryOk(h, schema) && BatchOk(u.batch, schema)
    requires forall i :: 0 <= i < |h| ==> h[i].logId < u.logId
    ensures HistoryOk(h + [u], schema)
    ensures Replay(base, h + [u], schema) == Upload(Replay(base, h, schema), u.logId, u.batch, schema)
  {
    assert (h + [u])[..|h|] == h;
  }

  lemma ReplayedUpload<K(!new), L(!new), C(!new)>(
      base: Pair<K, L, C>, h: seq<Both<K, L, C>>, now: Pair<K, L, C>, u: Both<K, L, C>,
      schema1: Schema, schema2: Schema)
    requires Replayed(base, h, now, schema1, schema2)
    requires BatchOk(u.first, schema1) && BatchOk(u.second, schema2)
    requires forall i :: 0 <= i < |h| ==> h[i].logId < u.logId
    ensures Replayed(base, h + [u], Pair(Upload(now.first, u.logId, u.first, schema1),
                                         Upload(now.second, u.logId, u.second, schema2)), schema1, schema2)
  {
    SidesAppend(h, u);
    HistoryAppend(First(h), Applied(u.logId, u.first), base.first, schema1);
    HistoryAppend(Second(h), Applied(u.logId, u.second), base.second, schema2);
  }

  lemma ReplayedRollback<K(!new), L(!new), C(!new)>(
      base: Pair<K, L, C>, h: seq<Both<K, L, C>>, now: Pair<K, L, C>, id: nat, schema1: Schema, schema2: Schema)
    requires Replayed(base, h, now, schema1, schema2)
    requires Newest(now.first, id) && Newest(now.second, id)
    ensures Replayed(base, WithoutBoth(h, id), Pair(Rollback(now.first, id), Rollback(now.second, id)),
                     schema1, schema2)
  {
    SidesWithout(h, id);
    RollbackErases(base.first, First(h), schema1, id);
    RollbackErases(base.second, Second(h), schema2, id);
    WithoutKeeps(First(h), id, schema1);
    WithoutKeeps(Second(h), id, schema2);
  }

  lemma ReplayedFresh<K(!new), L(!new), C(!new)>(
      base: Pair<K, L, C>, h: seq<Both<K, L, C>>, now: Pair<K, L, C>, id: nat, schema1: Schema, schema2: Schema)
    requires Replayed(base, h, now, schema1, schema2)
    requires forall i :: 0 <= i < |h| ==> h[i].logId != id
    ensures Unmentioned(now.first, id) && Unmentioned(now.second, id)
  {
    ReplayUnmentioned(base.first, First(h), schema1, id);
    ReplayUnmentioned(base.second, Second(h), schema2, id);
  }
}
