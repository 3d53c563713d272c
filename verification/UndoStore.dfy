/**
 * The upload and rollback functions themselves: a table changed in place, together with the sequence
 * of upload-log ids that all upload types share.
 */
module UndoStore {
  import opened Wrappers
  import opened UndoTable
  import opened UndoReplay
  import opened UndoLoad

  lemma NextIsFresh<K(!new), C(!new)>(base: Table<K, C>, db: Db<K, C>, schema: Schema)
    requires DbOk(base, db, schema)
    ensures Unmentioned(db.rows, db.nextId)
  {
    forall i | 0 <= i < |db.survivors| ensures db.survivors[i].logId != db.nextId {
      assert db.survivors[i] in db.survivors;
    }
    ReplayUnmentioned(base, db.survivors, schema, db.nextId);
  }

  lemma OneStep<K(!new), C(!new)>(base: Table<K, C>, db: Db<K, C>, ev: Event<K, C>, schema: Schema)
    requires DbOk(base, db, schema) && (ev.Load? ==> BatchOk(ev.batch, schema))
    ensures DbOk(base, Step(db, ev, schema), schema)
  {
    assert [ev][0] == ev;
    StepKeepsOk(base, db, ev, schema);
  }

  class Store<K(!new, ==), C(!new, ==)> {
    const schema: Schema
    const table: RowTable<K, C>
    ghost const base: Table<K, C>
    var nextId: nat
    var logs: set<nat>
    ghost var survivors: seq<Applied<K, C>>

    ghost function State(): Db<K, C>
      reads this, table
    {
      Db(table.rows, nextId, logs, survivors)
    }

    ghost predicate Valid()
      reads this, table
    {
      DbOk(base, State(), schema)
    }

    constructor (base: Table<K, C>, schema: Schema)
      requires Seed(base, schema)
      ensures Valid() && this.base == base && this.schema == schema && fresh(table)
      ensures State() == Db(base, 0, {}, [])
    {
      this.schema, this.base := schema, base;
      table := new RowTable(base);
      nextId, logs, survivors := 0, {}, [];
    }

    /** fn_upload_*: a file with errors changes nothing, otherwise INSERT and then UPDATE. */
    method Load(items: seq<Item<K, C>>, hasErrors: bool)
      returns (logId: Option<nat>, inserted: nat, updated: nat)
      requires Valid() && BatchOk(BatchOf(items), schema)
      requires !hasErrors ==> KeysApart(items)
      modifies this, table
      ensures Valid()
      ensures State() == Step(old(State()), Event.Load(BatchOf(items), hasErrors), schema)
      ensures logId == if hasErrors then None else Some(old(nextId))
      ensures inserted + updated == if hasErrors then 0 else Joined(items)
      ensures inserted == |table.rows| - |old(table.rows)|
    {
      OneStep(base, State(), Event.Load(BatchOf(items), hasErrors), schema);
      if hasErrors {
        return None, 0, 0;
      }
      var id := nextId;
      NextIsFresh(base, State(), schema);
      nextId, logs := id + 1, logs + {id};
      inserted, updated := table.Load(items, id, schema);
      survivors := survivors + [Applied(id, BatchOf(items))];
      logId := Some(id);
    }

    /** fn_rollback_*: Refused stands for any of its RAISE EXCEPTION statements. */
    method Rollback(id: nat, blocked: bool) returns (done: Outcome<string>)
      requires Valid()
      modifies this, table
      ensures Valid()
      ensures State() == Step(old(State()), Undone(id, blocked), schema)
      ensures done == Refused <==> id !in logs || blocked || !Newest(old(table.rows), id)
      ensures done == Refused ==> State() == old(State())
    {
      OneStep(base, State(), Undone(id, blocked), schema);
      if id !in logs || blocked {
        return Refused;
      }
      var newer := table.BlockedByNewer(id);
      if newer {
        return Refused;
      }
      table.Undo(id);
      survivors := Without(survivors, id);
      done := Ok("ok");
    }

    /** Another upload type takes the next id. */
    method OtherUpload()
      requires Valid()
      modifies this
      ensures Valid()
      ensures State() == Step(old(State()), OtherLog, schema)
    {
      OneStep(base, State(), OtherLog, schema);
      nextId, logs := nextId + 1, logs + {nextId};
    }
  }
}
