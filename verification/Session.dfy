/** The shared database and a session, as the objects that carry out transaction
statements. Each method is specified by the functions of `Transactions` and
`CommitHistory`.
*/
module Session {
  import opened Collections
  import opened Transactions
  import opened CommitHistory

  /** The shared database, its commit bookkeeping and the WAL. */
  class Shared {
    var db: Db
    var version: nat
    var stamps: map<string, nat>
    var wal: seq<Stmt>

    constructor (first: Db)
      ensures db == first && version == 0 && stamps == map[] && wal == []
    {
      db, version, stamps, wal := first, 0, map[], [];
    }

    /** `has_conflicting_commit`: stop at the first table stamped later. */
    method HasConflictingCommit(writeSet: set<string>, snapshot: nat) returns (r: bool)
      ensures r == Conflicts(stamps, writeSet, snapshot)
    {
      var todo := writeSet;
      while todo != {}
        invariant todo <= writeSet
        invariant forall t :: t in writeSet && t !in todo ==> Version(stamps, t) <= snapshot
        decreases todo
      {
        var t := Pick(todo);
        if Version(stamps, t) > snapshot {
          return true;
        }
        todo := todo - {t};
      }
      return false;
    }

    /** `record_commit`: bump the version and stamp the tables one by one. */
    method RecordCommit(writeSet: set<string>)
      modifies this`version, this`stamps
      ensures version == old(version) + 1
      ensures stamps == Stamp(old(stamps), writeSet, version)
    {
      version := version + 1;
      var todo, now := writeSet, stamps;
      while todo != {}
        invariant todo <= writeSet
        invariant version == old(version) + 1 && now == Stamp(old(stamps), writeSet - todo, version)
        decreases todo
      {
        var t := Pick(todo);
        todo := todo - {t};
        now := now[t := version];
      }
      assert writeSet - todo == writeSet;
      stamps := now;
    }

    /** Publish a working copy and append its statements to the WAL. */
    method Install(working: Db, writeSet: set<string>, buffered: seq<Stmt>)
      modifies this
      ensures db == working && version == old(version) + 1
      ensures stamps == Stamp(old(stamps), writeSet, version) && wal == old(wal) + buffered
    {
      RecordCommit(writeSet);
      db := working;
      var log := wal;
      for i := 0 to |buffered|
        invariant log == wal + buffered[..i]
      {
        assert buffered[..i + 1] == buffered[..i] + [buffered[i]];
        log := log + [buffered[i]];
      }
      assert buffered[..|buffered|] == buffered;
      wal := log;
    }
  }

  class Session {
    const engine: Engine
    var tx: Option<Tx>

    constructor (e: Engine)
      ensures engine == e && tx.None?
    {
      engine, tx := e, None;
    }

    /** A nested BEGIN changes nothing. */
    method BeginBlock(shared: Shared, level: Isolation, readOnly: bool)
      modifies this
      ensures tx == if old(tx).Some? then old(tx)
                    else Some(Begin(engine, shared.db, shared.version, level, readOnly))
      ensures old(tx).None? ==>
        && tx.value.db == engine.configure(shared.db, level, readOnly) && tx.value.snapshotVersion == shared.version
        && tx.value.isolation == level && tx.value.readOnly == readOnly && !tx.value.failed
        && tx.value.buffered == [] && tx.value.savepoints == [] && tx.value.writeSet == {}
    {
      if tx.None? {
        var snapshot, version := shared.db, shared.version;
        tx := Some(Begin(engine, snapshot, version, level, readOnly));
      }
    }

    /** A statement inside a block; the reply is an error exactly when the block is
        failed afterwards. */
    method RunInBlock(stmt: Stmt) returns (ok: bool)
      requires tx.Some?
      modifies this
      ensures tx == Some(RunStmt(engine, old(tx).value, stmt))
      ensures ok == !tx.value.failed
    {
      var t := tx.value;
      if t.failed {
        return false;
      }
      if t.readOnly && engine.dataMutates(stmt) {
        tx := Some(t.(failed := true));
        return false;
      }
      var out := engine.exec(t.db, stmt);
      t := t.(db := out.db);
      if out.ok && engine.mutates(stmt) {
        t := t.(buffered := t.buffered + [stmt], writeSet := t.writeSet + engine.tables(stmt));
      } else if !out.ok {
        t := t.(failed := true);
      }
      tx := Some(t);
      return out.ok;
    }

    method SavepointBlock(name: string) returns (ok: bool)
      modifies this
      ensures ok == old(tx).Some?
      ensures tx == if old(tx).Some? then Some(Save(old(tx).value, name)) else None
    {
      if tx.None? {
        return false;
      }
      var t := tx.value;
      var kept: seq<Savepoint> := [];
      for i := 0 to |t.savepoints|
        invariant kept == Without(t.savepoints[..i], name)
      {
        assert t.savepoints[..i + 1][..i] == t.savepoints[..i];
        if t.savepoints[i].name != name {
          kept := kept + [t.savepoints[i]];
        }
      }
      assert t.savepoints[..|t.savepoints|] == t.savepoints;
      tx := Some(t.(savepoints := kept + [Savepoint(name, t.db, |t.buffered|, t.writeSet)]));
      return true;
    }

    /** `rposition`: search from the end. */
    static method FindSavepoint(sps: seq<Savepoint>, name: string) returns (p: Option<nat>)
      ensures p == if LastNamed(sps, name) < |sps| then Some(LastNamed(sps, name)) else None
    {
      var i := |sps|;
      while i > 0
        invariant 0 <= i <= |sps|
        invariant forall q :: i <= q < |sps| ==> sps[q].name != name
      {
        i := i - 1;
        if sps[i].name == name {
          return Some(i);
        }
      }
      return None;
    }

    method ReleaseBlock(name: string) returns (ok: bool)
      modifies this
      ensures ok == (old(tx).Some? && LastNamed(old(tx).value.savepoints, name) < |old(tx).value.savepoints|)
      ensures tx == if old(tx).Some? then Some(ReleaseTo(old(tx).value, name)) else None
    {
      if tx.None? {
        return false;
      }
      var p := FindSavepoint(tx.value.savepoints, name);
      if p.None? {
        return false;
      }
      tx := Some(tx.value.(savepoints := tx.value.savepoints[..p.value]));
      return true;
    }

    method RollbackToBlock(name: string) returns (ok: bool)
      modifies this
      ensures ok == (old(tx).Some? && LastNamed(old(tx).value.savepoints, name) < |old(tx).value.savepoints|)
      ensures tx == if old(tx).Some? then Some(BackTo(old(tx).value, name)) else None
    {
      if tx.None? {
        return false;
      }
      var t := tx.value;
      var p := FindSavepoint(t.savepoints, name);
      if p.None? {
        return false;
      }
      var sp := t.savepoints[p.value];
      t := t.(db := sp.db, buffered := Truncated(t.buffered, sp.len), writeSet := sp.writeSet);
      t := t.(savepoints := t.savepoints[..p.value + 1], failed := false);
      tx := Some(t);
      return true;
    }

    /** The block ends whatever the outcome; `published` says whether it took effect. */
    method CommitBlock(shared: Shared) returns (published: bool)
      modifies this, shared
      ensures tx.None?
      ensures published <==> old(tx).Some? && !old(tx).value.failed
                             && !(old(tx).value.isolation.Serializing()
                                  && Conflicts(old(shared.stamps), old(tx).value.writeSet,
                                               old(tx).value.snapshotVersion))
      ensures !published ==> unchanged(shared)
      ensures published ==>
        && shared.db == old(tx).value.db && shared.wal == old(shared.wal) + old(tx).value.buffered
        && shared.version == old(shared.version) + 1
        && shared.stamps == Stamp(old(shared.stamps), old(tx).value.writeSet, shared.version)
    {
      var was := tx;
      tx := None;
      if was.None? || was.value.failed {
        return false;
      }
      var t := was.value;
      if t.isolation.Serializing() {
        var conflict := shared.HasConflictingCommit(t.writeSet, t.snapshotVersion);
        if conflict {
          return false;
        }
      }
      shared.Install(t.db, t.writeSet, t.buffered);
      return true;
    }
  }
}
