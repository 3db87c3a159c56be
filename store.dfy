/**
 The destination table and its connection, as the importer sees them: a
 sequence of saved entities, the connection's transaction levels, and the
 entity factory (`getModel` followed by `fill`). The database itself is not
 modelled; whether it accepts an insert is a predicate the connection is
 created with.
 */
module Store {
  import opened RowBuilding

  /** A model instance for the destination table, with its attributes. */
  datatype Entity = Entity(table: string, attributes: Record)

  /** `getModel()->fill($data)`: a new model for the configured table, filled
      with the data dictionary. */
  function NewEntity(table: string, data: Record): (e: Entity)
    ensures e.table == table && e.attributes == data
  {
    Entity(table, data)
  }

  /** The connection returned by `Model::resolveConnection()`. */
  class Connection {
    /** The rows of the destination table, committed or pending. */
    var rows: seq<Entity>
    /** One snapshot of `rows` per open transaction level, innermost last;
        `rollBack` restores the innermost one. */
    var snapshots: seq<seq<Entity>>
    /** Whether the database accepts inserting an entity into the current rows
        (constraints, connection health). */
    const accepts: (seq<Entity>, Entity) -> bool
    /** Whether the database commits a transaction that leaves these rows
        (deferred constraints, serialization conflicts, connection health). */
    const commits: seq<Entity> -> bool

    constructor (initial: seq<Entity>, accepts: (seq<Entity>, Entity) -> bool, commits: seq<Entity> -> bool)
      ensures rows == initial && snapshots == []
      ensures this.accepts == accepts && this.commits == commits
    {
      rows := initial;
      snapshots := [];
      this.accepts := accepts;
      this.commits := commits;
    }

    /** Open a transaction level: remember the current rows. */
    method BeginTransaction()
      modifies this`snapshots
      ensures snapshots == old(snapshots) + [rows]
    {
      snapshots := snapshots + [rows];
    }

    /** `$model->save()`: append the entity when the database accepts it. */
    method Save(e: Entity) returns (saved: bool)
      modifies this`rows
      ensures saved == accepts(old(rows), e)
      ensures rows == if saved then old(rows) + [e] else old(rows)
    {
      saved := accepts(rows, e);
      if saved {
        rows := rows + [e];
      }
    }

    /** Close the innermost transaction level. Only closing the outermost level
        asks the database to commit; if it refuses, the database discards the
        transaction's writes and the level is closed all the same. */
    method Commit() returns (committed: bool)
      modifies this`rows, this`snapshots
      ensures committed == (|old(snapshots)| != 1 || commits(old(rows)))
      ensures snapshots == if old(snapshots) == [] then [] else old(snapshots)[..|old(snapshots)| - 1]
      ensures rows == if committed then old(rows) else old(snapshots)[0]
    {
      committed := |snapshots| != 1 || commits(rows);
      if !committed {
        rows := snapshots[0];
      }
      if snapshots != [] {
        snapshots := snapshots[..|snapshots| - 1];
      }
    }

    /** Close the innermost transaction level, discarding its writes; with no
        transaction open, nothing happens. */
    method RollBack()
      modifies this`rows, this`snapshots
      ensures old(snapshots) == [] ==> rows == old(rows) && snapshots == []
      ensures old(snapshots) != [] ==>
                rows == old(snapshots)[|old(snapshots)| - 1] && snapshots == old(snapshots)[..|old(snapshots)| - 1]
    {
      if snapshots != [] {
        rows := snapshots[|snapshots| - 1];
        snapshots := snapshots[..|snapshots| - 1];
      }
    }
  }
}
