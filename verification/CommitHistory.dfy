/** Sessions committing blocks against one shared database: version stamps, the
optimistic conflict check, and what the WAL restores.

`history` and the start recorded with an open block are not in the program; they
let a property speak of what happened before.
*/
module CommitHistory {
  import opened Collections
  import opened Transactions

  datatype Done = Done(snapshot: nat, writeSet: set<string>, serializing: bool)

  /** An open block, with the shared database and WAL its BEGIN saw. */
  datatype Open = Open(tx: Tx, startDb: Db, startWal: seq<Stmt>)

  datatype Server = Server(
    db: Db,
    version: nat,
    stamps: map<string, nat>,
    wal: seq<Stmt>,
    open: map<nat, Open>,
    history: seq<Done>)

  datatype Event =
    | BeginBlock(pid: nat, level: Isolation, readOnly: bool)
    | InBlock(pid: nat, cmd: Cmd)
    | Commit(pid: nat)
    | Rollback(pid: nat)
    | Autocommit(stmt: Stmt)

  /** `table_version`. */
  function Version(stamps: map<string, nat>, table: string): nat {
    if table in stamps then stamps[table] else 0
  }

  /** `has_conflicting_commit`. */
  predicate Conflicts(stamps: map<string, nat>, writeSet: set<string>, snapshot: nat) {
    exists t :: t in writeSet && Version(stamps, t) > snapshot
  }

  predicate Refused(s: Server, tx: Tx) {
    tx.isolation.Serializing() && Conflicts(s.stamps, tx.writeSet, tx.snapshotVersion)
  }

  /** `record_commit`'s stamps. */
  function Stamp(stamps: map<string, nat>, writeSet: set<string>, version: nat): map<string, nat> {
    map t | t in stamps.Keys + writeSet :: if t in writeSet then version else stamps[t]
  }

  /** A commit that is let through publishes the working copy whole. */
  function Publish(s: Server, pid: nat, tx: Tx): Server {
    Server(tx.db, s.version + 1, Stamp(s.stamps, tx.writeSet, s.version + 1), s.wal + tx.buffered, s.open - {pid},
           s.history + [Done(tx.snapshotVersion, tx.writeSet, tx.isolation.Serializing())])
  }

  function CommitBlock(s: Server, pid: nat): Server {
    if pid !in s.open then s
    else
      var tx := s.open[pid].tx;
      if tx.failed || Refused(s, tx) then s.(open := s.open - {pid}) else Publish(s, pid, tx)
  }

  function RunAlone(e: Engine, s: Server, stmt: Stmt): Server {
    var out := e.exec(s.db, stmt);
    s.(db := out.db, wal := if out.ok && e.mutates(stmt) then s.wal + [stmt] else s.wal)
  }

  function Step(e: Engine, s: Server, ev: Event): Server {
    match ev
    case BeginBlock(pid, level, ro) =>
      if pid in s.open then s
      else s.(open := s.open[pid := Open(Begin(e, s.db, s.version, level, ro), s.db, s.wal)])
    case InBlock(pid, cmd) =>
      if pid !in s.open then s
      else s.(open := s.open[pid := s.open[pid].(tx := BlockStep(e, s.open[pid].tx, cmd))])
    case Commit(pid) => CommitBlock(s, pid)
    case Rollback(pid) => s.(open := s.open - {pid})
    case Autocommit(stmt) => RunAlone(e, s, stmt)
  }

  function Run(e: Engine, s: Server, evs: seq<Event>): Server {
    if evs == [] then s else Step(e, Run(e, s, evs[..|evs| - 1]), evs[|evs| - 1])
  }

  function Fresh(db: Db): Server {
    Server(db, 0, map[], [], map[], [])
  }

  // --- Versions number the commits ---------------------------------------------------

  /** The number of the last block commit that wrote the table, counting from one. */
  function LastWriter(history: seq<Done>, table: string): (n: nat)
    ensures n <= |history|
  {
    if history == [] then 0
    else if table in history[|history| - 1].writeSet then |history|
    else LastWriter(history[..|history| - 1], table)
  }

  ghost predicate Stamped(s: Server) {
    && s.version == |s.history|
    && (forall t :: Version(s.stamps, t) == LastWriter(s.history, t))
    && (forall pid :: pid in s.open ==> s.open[pid].tx.snapshotVersion <= s.version)
  }

  lemma PublishStamped(s: Server, pid: nat, tx: Tx)
    requires Stamped(s)
    ensures Stamped(Publish(s, pid, tx))
  {
    var s' := Publish(s, pid, tx);
    assert s'.history[..|s'.history| - 1] == s.history;
    forall t
      ensures Version(s'.stamps, t) == LastWriter(s'.history, t)
    {
    }
  }

  lemma BlockStepSnapshot(e: Engine, tx: Tx, c: Cmd)
    ensures BlockStep(e, tx, c).snapshotVersion == tx.snapshotVersion
  {
  }

  lemma StepStamped(e: Engine, s: Server, ev: Event)
    requires Stamped(s)
    ensures Stamped(Step(e, s, ev))
  {
    match ev
    case Commit(pid) =>
      if pid in s.open {
        PublishStamped(s, pid, s.open[pid].tx);
      }
    case InBlock(pid, cmd) =>
      if pid in s.open {
        BlockStepSnapshot(e, s.open[pid].tx, cmd);
      }
    case _ =>
  }

  /** In every run a table's version is the number of the last block commit that wrote it. */
  lemma {:induction false} VersionsNumberCommits(e: Engine, db: Db, evs: seq<Event>)
    ensures Stamped(Run(e, Fresh(db), evs))
  {
    if evs != [] {
      VersionsNumberCommits(e, db, evs[..|evs| - 1]);
      StepStamped(e, Run(e, Fresh(db), evs[..|evs| - 1]), evs[|evs| - 1]);
    }
  }

  // --- The conflict check --------------------------------------------------------------

  /** Commit number `k + 1`, made after the snapshot, wrote one of these tables. */
  ghost predicate Overlaps(history: seq<Done>, k: int, snapshot: nat, writeSet: set<string>) {
    snapshot <= k < |history| && history[k].writeSet * writeSet != {}
  }

  lemma {:induction false} LastWriterLater(history: seq<Done>, t: string, snapshot: nat)
    ensures LastWriter(history, t) > snapshot <==> exists k :: snapshot <= k < |history| && t in history[k].writeSet
  {
    if history != [] {
      var init := history[..|history| - 1];
      LastWriterLater(init, t, snapshot);
      assert forall k :: 0 <= k < |init| ==> init[k] == history[k];
      if t in history[|history| - 1].writeSet && snapshot < |history| {
        var k := |history| - 1;
        assert snapshot <= k < |history| && t in history[k].writeSet;
      }
    }
  }

  lemma ConflictsExactly(s: Server, writeSet: set<string>, snapshot: nat)
    requires Stamped(s)
    ensures Conflicts(s.stamps, writeSet, snapshot) <==> exists k :: Overlaps(s.history, k, snapshot, writeSet)
  {
    if Conflicts(s.stamps, writeSet, snapshot) {
      var t :| t in writeSet && Version(s.stamps, t) > snapshot;
      LastWriterLater(s.history, t, snapshot);
      var k :| snapshot <= k < |s.history| && t in s.history[k].writeSet;
      assert t in s.history[k].writeSet * writeSet;
      assert Overlaps(s.history, k, snapshot, writeSet);
    }
    if k :| Overlaps(s.history, k, snapshot, writeSet) {
      var t := Member(s.history[k].writeSet * writeSet);
      LastWriterLater(s.history, t, snapshot);
      assert Version(s.stamps, t) > snapshot;
    }
  }

  // --- The block and the events that made it --------------------------------------------------

  ghost function At(e: Engine, db: Db, evs: seq<Event>, i: nat): Server
    requires i <= |evs|
  {
    Run(e, Fresh(db), evs[..i])
  }

  /** The block of `pid` that is open after the events was begun by event number `b`. */
  ghost predicate BegunAt(e: Engine, db: Db, evs: seq<Event>, pid: nat, b: nat) {
    && b < |evs| && evs[b].BeginBlock? && evs[b].pid == pid && pid !in At(e, db, evs, b).open
    && forall j :: b < j <= |evs| ==> pid in At(e, db, evs, j).open
  }

  /** What `pid` sent inside its block. */
  function Commands(evs: seq<Event>, pid: nat): seq<Cmd> {
    if evs == [] then []
    else
      var init, last := Commands(evs[..|evs| - 1], pid), evs[|evs| - 1];
      if last.InBlock? && last.pid == pid then init + [last.cmd] else init
  }

  lemma AtInit(e: Engine, db: Db, evs: seq<Event>, i: nat)
    requires i < |evs|
    ensures At(e, db, evs[..|evs| - 1], i) == At(e, db, evs, i)
    ensures At(e, db, evs, |evs|) == Run(e, Fresh(db), evs)
  {
    assert evs[..|evs| - 1][..i] == evs[..i] && evs[..|evs|] == evs;
  }

  lemma BegunInit(e: Engine, db: Db, evs: seq<Event>, pid: nat, b: nat)
    requires b < |evs| - 1
    ensures BegunAt(e, db, evs, pid, b) <==>
            BegunAt(e, db, evs[..|evs| - 1], pid, b) && pid in Run(e, Fresh(db), evs).open
  {
    var init := evs[..|evs| - 1];
    AtInit(e, db, evs, b);
    if BegunAt(e, db, evs, pid, b) {
      forall j | b < j <= |init|
        ensures pid in At(e, db, init, j).open
      {
        AtInit(e, db, evs, j);
        assert pid in At(e, db, evs, j).open;
      }
      assert pid in At(e, db, evs, |evs|).open;
    }
    if BegunAt(e, db, init, pid, b) && pid in Run(e, Fresh(db), evs).open {
      forall j | b < j <= |evs|
        ensures pid in At(e, db, evs, j).open
      {
        if j < |evs| {
          AtInit(e, db, evs, j);
          assert pid in At(e, db, init, j).open;
        }
      }
    }
  }

  /** An event that leaves the block open takes it on by one command or not at all. */
  lemma OpenStays(e: Engine, s: Server, ev: Event, pid: nat)
    requires pid in s.open && pid in Step(e, s, ev).open
    ensures Step(e, s, ev).open[pid] ==
            if ev.InBlock? && ev.pid == pid then s.open[pid].(tx := BlockStep(e, s.open[pid].tx, ev.cmd))
            else s.open[pid]
  {
  }

  /** An open block was begun by some event. */
  lemma {:induction false} BegunSomewhere(e: Engine, db: Db, evs: seq<Event>, pid: nat) returns (b: nat)
    requires pid in Run(e, Fresh(db), evs).open
    ensures BegunAt(e, db, evs, pid, b)
  {
    var init := evs[..|evs| - 1];
    AtInit(e, db, evs, |init|);
    assert init[..|init|] == init;
    if pid in Run(e, Fresh(db), init).open {
      b := BegunSomewhere(e, db, init, pid);
      BegunInit(e, db, evs, pid, b);
    } else {
      b := |init|;
    }
  }

  /** It is the block that BEGIN made of the shared database as it was then, taken through the
      commands since. */
  lemma {:induction false} BlockSince(e: Engine, db: Db, evs: seq<Event>, pid: nat, b: nat)
    requires BegunAt(e, db, evs, pid, b)
    ensures var s0 := At(e, db, evs, b);
            var tx := Begin(e, s0.db, s0.version, evs[b].level, evs[b].readOnly);
            && pid in Run(e, Fresh(db), evs).open
            && Run(e, Fresh(db), evs).open[pid] == Open(Block(e, tx, Commands(evs[b + 1..], pid)), s0.db, s0.wal)
  {
    var init := evs[..|evs| - 1];
    var s0 := At(e, db, evs, b);
    AtInit(e, db, evs, b);
    if b < |init| {
      BegunInit(e, db, evs, pid, b);
      BlockSince(e, db, init, pid, b);
      OpenStays(e, Run(e, Fresh(db), init), evs[|init|], pid);
      SuffixInit(evs, b + 1);
      CommandsGrow(e, Begin(e, s0.db, s0.version, evs[b].level, evs[b].readOnly), evs[b + 1..], pid);
    } else {
      assert init == evs[..b] && evs[b + 1..] == [];
      assert Run(e, Fresh(db), evs) == Step(e, s0, evs[b]);
    }
  }

  lemma SuffixInit(evs: seq<Event>, from: nat)
    requires 0 < from < |evs|
    ensures evs[from..] != [] && evs[from..][|evs[from..]| - 1] == evs[|evs| - 1]
    ensures evs[from..][..|evs[from..]| - 1] == evs[..|evs| - 1][from..]
    ensures evs[..|evs| - 1][from - 1] == evs[from - 1]
  {
  }

  lemma CommandsGrow(e: Engine, tx: Tx, evs: seq<Event>, pid: nat)
    requires evs != []
    ensures var init, last := evs[..|evs| - 1], evs[|evs| - 1];
            Block(e, tx, Commands(evs, pid)) ==
            var before := Block(e, tx, Commands(init, pid));
            if last.InBlock? && last.pid == pid then BlockStep(e, before, last.cmd) else before
  {
    var cs := Commands(evs[..|evs| - 1], pid);
    var last := evs[|evs| - 1];
    if last.InBlock? && last.pid == pid {
      assert (cs + [last.cmd])[..|cs + [last.cmd]| - 1] == cs;
    }
  }

  /** Event number `c` publishes a block that wrote one of these tables. */
  ghost predicate PublishesOver(e: Engine, db: Db, evs: seq<Event>, c: nat, tables: set<string>)
    requires c < |evs|
  {
    var s := At(e, db, evs, c);
    && evs[c].Commit? && evs[c].pid in s.open && s.open[evs[c].pid].tx.writeSet * tables != {}
    && At(e, db, evs, c + 1).version > s.version
  }

  /** Some event from number `b` on does. */
  ghost predicate Overtaken(e: Engine, db: Db, evs: seq<Event>, b: nat, tables: set<string>) {
    exists c :: b <= c < |evs| && PublishesOver(e, db, evs, c, tables)
  }

  lemma OvertakenInit(e: Engine, db: Db, evs: seq<Event>, b: nat, tables: set<string>)
    requires b < |evs|
    ensures var init := evs[..|evs| - 1];
            Overtaken(e, db, evs, b, tables) <==>
            Overtaken(e, db, init, b, tables) || PublishesOver(e, db, evs, |init|, tables)
  {
    var init := evs[..|evs| - 1];
    forall c | 0 <= c < |init|
      ensures PublishesOver(e, db, init, c, tables) <==> PublishesOver(e, db, evs, c, tables)
    {
      AtInit(e, db, evs, c);
      AtInit(e, db, evs, c + 1);
    }
  }

  /** The commits in the history from some moment on are the publications since. */
  lemma {:induction false} HistoryIsEvents(e: Engine, db: Db, evs: seq<Event>, b: nat, tables: set<string>)
    requires b <= |evs|
    ensures |At(e, db, evs, b).history| <= |Run(e, Fresh(db), evs).history|
    ensures (exists k :: Overlaps(Run(e, Fresh(db), evs).history, k, |At(e, db, evs, b).history|, tables)) <==>
            Overtaken(e, db, evs, b, tables)
  {
    if b == |evs| {
      assert evs[..|evs|] == evs;
    } else {
      var init := evs[..|evs| - 1];
      AtInit(e, db, evs, b);
      AtInit(e, db, evs, |init|);
      assert init[..|init|] == init;
      VersionsNumberCommits(e, db, init);
      VersionsNumberCommits(e, db, evs);
      HistoryIsEvents(e, db, init, b, tables);
      OvertakenInit(e, db, evs, b, tables);
      HistoryGrows(e, Run(e, Fresh(db), init), evs[|init|], |At(e, db, evs, b).history|, tables);
    }
  }

  lemma HistoryGrows(e: Engine, s: Server, ev: Event, from: nat, tables: set<string>)
    requires Stamped(s) && Stamped(Step(e, s, ev)) && from <= |s.history|
    ensures var s' := Step(e, s, ev);
            && |s.history| <= |s'.history|
            && ((exists k :: Overlaps(s'.history, k, from, tables)) <==>
                  || (exists k :: Overlaps(s.history, k, from, tables))
                  || (&& ev.Commit? && ev.pid in s.open && s.open[ev.pid].tx.writeSet * tables != {}
                      && s'.version > s.version))
  {
    var s' := Step(e, s, ev);
    assert forall k :: 0 <= k < |s.history| ==> s'.history[k] == s.history[k];
    if k :| Overlaps(s.history, k, from, tables) {
      assert Overlaps(s'.history, k, from, tables);
    }
    if k :| Overlaps(s'.history, k, from, tables) {
      if k < |s.history| {
        assert Overlaps(s.history, k, from, tables);
      }
    }
    if ev.Commit? && ev.pid in s.open && s.open[ev.pid].tx.writeSet * tables != {} && s'.version > s.version {
      assert Overlaps(s'.history, |s.history|, from, tables);
    }
  }

  /** In every run, committing a block that is not failed is refused exactly when it is
      REPEATABLE READ or SERIALIZABLE and, since the event that began it, a block was
      published that wrote a table it wrote. What counts as its tables are those of its
      buffered statements; its level is that of its BEGIN or last SET TRANSACTION. */
  lemma CommitRefusedExactly(e: Engine, db: Db, evs: seq<Event>, pid: nat, b: nat)
    requires BegunAt(e, db, evs, pid, b) && pid in Run(e, Fresh(db), evs).open
    requires !Run(e, Fresh(db), evs).open[pid].tx.failed
    ensures var s := Run(e, Fresh(db), evs);
            var tx := s.open[pid].tx;
            var s' := Step(e, s, Commit(pid));
            && (s'.version == s.version <==>
                  && (tx.isolation == RepeatableRead || tx.isolation == Serializable)
                  && Overtaken(e, db, evs, b, TablesOf(e, tx.buffered)))
            && (s'.version == s.version ==> s' == s.(open := s.open - {pid}))
            && (s'.version != s.version ==> s'.db == tx.db && s'.wal == s.wal + tx.buffered)
            && pid !in s'.open
    ensures var tx, cs := Run(e, Fresh(db), evs).open[pid].tx, Commands(evs[b + 1..], pid);
            || (exists k :: LastLevel(cs, k) && tx.isolation == cs[k].isolation.value)
            || (tx.isolation == evs[b].level && forall j :: 0 <= j < |cs| ==> !SetsLevel(cs[j]))
  {
    var s, s0, cs := Run(e, Fresh(db), evs), At(e, db, evs, b), Commands(evs[b + 1..], pid);
    var tx, tx0 := s.open[pid].tx, Begin(e, s0.db, s0.version, evs[b].level, evs[b].readOnly);
    VersionsNumberCommits(e, db, evs);
    VersionsNumberCommits(e, db, evs[..b]);
    BlockSince(e, db, evs, pid, b);
    LevelIsLast(e, tx0, cs);
    SnapshotStays(e, tx0, cs);
    BlockWritten(e, tx0, cs);
    ConflictsExactly(s, tx.writeSet, tx.snapshotVersion);
    HistoryIsEvents(e, db, evs, b, tx.writeSet);
  }

  /** No serializing commit overlaps an earlier commit that wrote one of its tables. */
  ghost predicate FirstCommitterWon(history: seq<Done>) {
    forall j, k :: 0 <= j < k < |history| && history[k].serializing && history[k].snapshot <= j ==>
      history[j].writeSet !! history[k].writeSet
  }

  lemma StepFirstCommitter(e: Engine, s: Server, ev: Event)
    requires Stamped(s) && FirstCommitterWon(s.history)
    ensures FirstCommitterWon(Step(e, s, ev).history)
  {
    if ev.Commit? && ev.pid in s.open {
      var tx := s.open[ev.pid].tx;
      ConflictsExactly(s, tx.writeSet, tx.snapshotVersion);
      var s' := Step(e, s, ev);
      forall j | tx.isolation.Serializing() && tx.snapshotVersion <= j < |s.history| && s'.history != s.history
        ensures s.history[j].writeSet !! tx.writeSet
      {
        assert !Overlaps(s.history, j, tx.snapshotVersion, tx.writeSet);
        assert forall t :: t in s.history[j].writeSet && t in tx.writeSet ==> t in s.history[j].writeSet * tx.writeSet;
      }
    }
  }

  lemma {:induction false} FirstCommitterWins(e: Engine, db: Db, evs: seq<Event>)
    ensures FirstCommitterWon(Run(e, Fresh(db), evs).history)
  {
    if evs != [] {
      FirstCommitterWins(e, db, evs[..|evs| - 1]);
      VersionsNumberCommits(e, db, evs[..|evs| - 1]);
      StepFirstCommitter(e, Run(e, Fresh(db), evs[..|evs| - 1]), evs[|evs| - 1]);
    }
  }

  // --- What the WAL restores ----------------------------------------------------------------

  /** `replay`: a statement that fails is skipped, with whatever it left behind. */
  function Recover(e: Engine, db: Db, wal: seq<Stmt>): Db {
    if wal == [] then db else e.exec(Recover(e, db, wal[..|wal| - 1]), wal[|wal| - 1]).db
  }

  /** The loop counts the statements that did not fail; if none did, it has replayed them
      in the sense of a block. */
  method ReplayWal(e: Engine, db: Db, wal: seq<Stmt>) returns (recovered: Db, applied: nat)
    ensures recovered == Recover(e, db, wal)
    ensures applied <= |wal|
    ensures applied == |wal| <==> Replay(e, db, wal).Some?
    ensures applied == |wal| ==> Replay(e, db, wal) == Some(recovered)
  {
    recovered, applied := db, 0;
    for i := 0 to |wal|
      invariant recovered == Recover(e, db, wal[..i])
      invariant applied <= i
      invariant if applied == i then Replay(e, db, wal[..i]) == Some(recovered) else Replay(e, db, wal[..i]).None?
    {
      assert wal[..i + 1][..i] == wal[..i];
      var out := e.exec(recovered, wal[i]);
      recovered := out.db;
      if out.ok {
        applied := applied + 1;
      }
    }
    assert wal[..|wal|] == wal;
  }

  /** Replaying the WAL from the first database gives the logged part of this one. */
  ghost predicate Restores(e: Engine, first: Db, wal: seq<Stmt>, db: Db) {
    e.logged(Recover(e, first, wal)) == e.logged(db)
  }

  lemma {:induction false} RecoverSame(e: Engine, a: Db, b: Db, stmts: seq<Stmt>)
    requires Determined(e) && e.logged(a) == e.logged(b)
    ensures e.logged(Recover(e, a, stmts)) == e.logged(Recover(e, b, stmts))
  {
    if stmts != [] {
      var init := stmts[..|stmts| - 1];
      RecoverSame(e, a, b, init);
      assert SameEffect(e, Recover(e, a, init), Recover(e, b, init), stmts[|stmts| - 1]);
    }
  }

  lemma {:induction false} RecoverAppend(e: Engine, db: Db, a: seq<Stmt>, b: seq<Stmt>)
    ensures Recover(e, db, a + b) == Recover(e, Recover(e, db, a), b)
  {
    if b == [] {
      assert a + b == a;
    } else {
      assert (a + b)[..|a + b| - 1] == a + b[..|b| - 1];
      RecoverAppend(e, db, a, b[..|b| - 1]);
    }
  }

  /** Statements that all succeed are recovered as they are replayed. */
  lemma {:induction false} ReplayRecovers(e: Engine, db: Db, stmts: seq<Stmt>)
    ensures Replay(e, db, stmts).Some? ==> Replay(e, db, stmts).value == Recover(e, db, stmts)
  {
    if stmts != [] {
      ReplayRecovers(e, db, stmts[..|stmts| - 1]);
    }
  }

  lemma RestoresMore(e: Engine, first: Db, wal: seq<Stmt>, db: Db, more: seq<Stmt>)
    requires Determined(e) && Restores(e, first, wal, db)
    ensures Restores(e, first, wal + more, Recover(e, db, more))
  {
    RecoverAppend(e, first, wal, more);
    RecoverSame(e, Recover(e, first, wal), db, more);
  }

  ghost predicate RestoredAt(e: Engine, first: Db, s: Server) {
    Restores(e, first, s.wal, s.db)
  }

  lemma AloneRestoresExactly(e: Engine, first: Db, s: Server, stmt: Stmt)
    requires Determined(e) && RestoredAt(e, first, s)
    ensures RestoredAt(e, first, RunAlone(e, s, stmt)) <==> Harmless(e, s.db, stmt)
  {
    if e.exec(s.db, stmt).ok && e.mutates(stmt) {
      assert [stmt][..0] == [] && Recover(e, s.db, [stmt]) == e.exec(s.db, stmt).db;
      RestoresMore(e, first, s.wal, s.db, [stmt]);
    }
  }

  /** The published working copy is what the WAL restores exactly when the block's
      statements do to the shared database what they did to the snapshot. */
  lemma PublishRestoresExactly(e: Engine, first: Db, s: Server, pid: nat)
    requires Determined(e) && RestoredAt(e, first, s) && pid in s.open
    ensures var tx := s.open[pid].tx;
            RestoredAt(e, first, Publish(s, pid, tx)) <==> Restores(e, s.db, tx.buffered, tx.db)
  {
    RestoresMore(e, first, s.wal, s.db, s.open[pid].tx.buffered);
  }

  // --- A condition that needs no replay -----------------------------------------------------

  ghost predicate Recoverable(e: Engine, first: Db, s: Server) {
    && RestoredAt(e, first, s)
    && (forall pid :: pid in s.open ==> BlockRecoverable(e, first, s.open[pid]))
  }

  ghost predicate BlockRecoverable(e: Engine, first: Db, o: Open) {
    Restores(e, first, o.startWal, o.startDb) && Consistent(e, o.startDb, o.tx)
  }

  /** No block publishes after something else reached the WAL since its BEGIN, none takes a
      savepoint while failed, and no statement that is not logged changes the logged part. */
  ghost predicate Undisturbed(e: Engine, s: Server, evs: seq<Event>) {
    forall i :: 0 <= i < |evs| ==> CalmAt(e, s, evs, i)
  }

  ghost predicate CalmAt(e: Engine, s: Server, evs: seq<Event>, i: nat)
    requires i < |evs|
  {
    Calm(e, Run(e, s, evs[..i]), evs[i])
  }

  ghost predicate Calm(e: Engine, s: Server, ev: Event) {
    match ev
    case Commit(pid) => pid in s.open && !s.open[pid].tx.failed ==> s.open[pid].startWal == s.wal
    case InBlock(pid, cmd) => pid in s.open ==> CarefulStep(e, s.open[pid].tx, cmd)
    case Autocommit(stmt) => Harmless(e, s.db, stmt)
    case _ => true
  }

  lemma PublishRecoverable(e: Engine, first: Db, s: Server, pid: nat)
    requires Sound(e) && Recoverable(e, first, s)
    requires pid in s.open && !s.open[pid].tx.failed && s.open[pid].startWal == s.wal
    ensures Recoverable(e, first, Publish(s, pid, s.open[pid].tx))
  {
    var o := s.open[pid];
    assert BlockRecoverable(e, first, o);
    ReplayRecovers(e, o.startDb, o.tx.buffered);
    RestoresMore(e, first, s.wal, o.startDb, o.tx.buffered);
    var s' := Publish(s, pid, o.tx);
    forall q | q in s'.open
      ensures BlockRecoverable(e, first, s'.open[q])
    {
      assert BlockRecoverable(e, first, s.open[q]);
    }
  }

  lemma InBlockRecoverable(e: Engine, first: Db, s: Server, pid: nat, cmd: Cmd)
    requires Sound(e) && Recoverable(e, first, s) && pid in s.open
    requires CarefulStep(e, s.open[pid].tx, cmd)
    ensures Recoverable(e, first, Step(e, s, InBlock(pid, cmd)))
  {
    assert BlockRecoverable(e, first, s.open[pid]);
    StepConsistent(e, s.open[pid].startDb, s.open[pid].tx, cmd);
  }

  lemma StepRecoverable(e: Engine, first: Db, s: Server, ev: Event)
    requires Sound(e) && Recoverable(e, first, s) && Calm(e, s, ev)
    ensures Recoverable(e, first, Step(e, s, ev))
  {
    match ev
    case BeginBlock(pid, level, ro) => BeginConsistent(e, s.db, s.version, level, ro);
    case InBlock(pid, cmd) =>
      if pid in s.open {
        InBlockRecoverable(e, first, s, pid, cmd);
      }
    case Commit(pid) =>
      if pid in s.open && !s.open[pid].tx.failed {
        PublishRecoverable(e, first, s, pid);
      }
    case Rollback(_) =>
    case Autocommit(stmt) => AloneRestoresExactly(e, first, s, stmt);
  }

  /** In every undisturbed run, replaying the WAL from the first database restores the shared
      one, and each block that is open accounts for itself. */
  lemma {:induction false} WalRestores(e: Engine, db: Db, evs: seq<Event>)
    requires Sound(e)
    ensures Undisturbed(e, Fresh(db), evs) ==> Recoverable(e, db, Run(e, Fresh(db), evs))
  {
    if evs != [] && Undisturbed(e, Fresh(db), evs) {
      var init := evs[..|evs| - 1];
      forall i | 0 <= i < |init|
        ensures CalmAt(e, Fresh(db), init, i)
      {
        assert CalmAt(e, Fresh(db), evs, i) && init[..i] == evs[..i];
      }
      WalRestores(e, db, init);
      assert CalmAt(e, Fresh(db), evs, |init|);
      StepRecoverable(e, db, Run(e, Fresh(db), init), evs[|evs| - 1]);
    }
  }

  // --- Exactly when the WAL restores ---------------------------------------------------------

  /** If the block is published, its statements do to the shared database what they did to
      its own copy. */
  ghost predicate Fitting(e: Engine, s: Server, pid: nat) {
    pid in s.open && !s.open[pid].tx.failed && !Refused(s, s.open[pid].tx) ==>
      Restores(e, s.db, s.open[pid].tx.buffered, s.open[pid].tx.db)
  }

  /** The event changes the shared database by what it appends to the WAL. */
  ghost predicate Fits(e: Engine, s: Server, ev: Event) {
    match ev
    case Commit(pid) => Fitting(e, s, pid)
    case Autocommit(stmt) => Harmless(e, s.db, stmt)
    case _ => true
  }

  ghost predicate AllFit(e: Engine, s: Server, evs: seq<Event>) {
    forall i :: 0 <= i < |evs| ==> FitsAt(e, s, evs, i)
  }

  ghost predicate FitsAt(e: Engine, s: Server, evs: seq<Event>, i: nat)
    requires i < |evs|
  {
    Fits(e, Run(e, s, evs[..i]), evs[i])
  }

  /** At every moment of the run. */
  ghost predicate AlwaysRestored(e: Engine, db: Db, evs: seq<Event>) {
    forall i :: 0 <= i <= |evs| ==> RestoredAfter(e, db, evs, i)
  }

  ghost predicate RestoredAfter(e: Engine, db: Db, evs: seq<Event>, i: nat)
    requires i <= |evs|
  {
    RestoredAt(e, db, Run(e, Fresh(db), evs[..i]))
  }

  lemma StepRestoresExactly(e: Engine, first: Db, s: Server, ev: Event)
    requires Determined(e) && RestoredAt(e, first, s)
    ensures RestoredAt(e, first, Step(e, s, ev)) <==> Fits(e, s, ev)
  {
    match ev
    case Commit(pid) =>
      if pid in s.open {
        PublishRestoresExactly(e, first, s, pid);
      }
    case Autocommit(stmt) => AloneRestoresExactly(e, first, s, stmt);
    case _ =>
  }

  lemma AlwaysSnoc(e: Engine, db: Db, evs: seq<Event>)
    requires evs != []
    ensures AlwaysRestored(e, db, evs) <==>
            AlwaysRestored(e, db, evs[..|evs| - 1]) && RestoredAt(e, db, Run(e, Fresh(db), evs))
  {
    var init := evs[..|evs| - 1];
    assert evs[..|evs|] == evs;
    assert RestoredAfter(e, db, evs, |evs|) <==> RestoredAt(e, db, Run(e, Fresh(db), evs));
    forall i | 0 <= i <= |init|
      ensures RestoredAfter(e, db, init, i) <==> RestoredAfter(e, db, evs, i)
    {
      assert init[..i] == evs[..i];
    }
  }

  lemma FitSnoc(e: Engine, s: Server, evs: seq<Event>)
    requires evs != []
    ensures var init, last := evs[..|evs| - 1], evs[|evs| - 1];
            AllFit(e, s, evs) <==> AllFit(e, s, init) && Fits(e, Run(e, s, init), last)
  {
    var init := evs[..|evs| - 1];
    forall i | 0 <= i < |init|
      ensures FitsAt(e, s, init, i) <==> FitsAt(e, s, evs, i)
    {
      assert init[..i] == evs[..i];
    }
    assert FitsAt(e, s, evs, |init|) <==> Fits(e, Run(e, s, init), evs[|init|]);
  }

  /** In every run the WAL restores the shared database at every moment exactly when every
      block that is published fits and no statement outside a block, failing or no mutation,
      changes the logged part without being logged. */
  lemma {:induction false} WalRestoresExactly(e: Engine, db: Db, evs: seq<Event>)
    requires Determined(e)
    ensures AlwaysRestored(e, db, evs) <==> AllFit(e, Fresh(db), evs)
  {
    if evs == [] {
      assert evs[..0] == [] && RestoredAt(e, db, Fresh(db));
    } else {
      var init := evs[..|evs| - 1];
      WalRestoresExactly(e, db, init);
      AlwaysSnoc(e, db, evs);
      FitSnoc(e, Fresh(db), evs);
      if AlwaysRestored(e, db, init) {
        assert init[..|init|] == init && RestoredAfter(e, db, init, |init|);
        StepRestoresExactly(e, db, Run(e, Fresh(db), init), evs[|evs| - 1]);
      }
    }
  }

  /** Two blocks that overlap: the first to commit is in the WAL and not in the database. */
  ghost function Overlapping(a: Stmt, b: Stmt): seq<Event> {
    [BeginBlock(1, ReadCommitted, false), BeginBlock(2, ReadCommitted, false),
     InBlock(1, Transactions.Run(a)), InBlock(2, Transactions.Run(b)), Commit(1), Commit(2)]
  }

  lemma RunSix(e: Engine, s: Server, evs: seq<Event>)
    requires |evs| == 6
    ensures Run(e, s, evs) ==
            Step(e, Step(e, Step(e, Step(e, Step(e, Step(e, s, evs[0]), evs[1]), evs[2]), evs[3]), evs[4]), evs[5])
  {
    assert evs[..5][..4] == evs[..4] && evs[..4][..3] == evs[..3] && evs[..3][..2] == evs[..2];
    assert evs[..2][..1] == evs[..1] && evs[..1][..0] == [];
    assert Run(e, s, evs[..1]) == Step(e, s, evs[0]);
    assert Run(e, s, evs[..2]) == Step(e, Run(e, s, evs[..1]), evs[1]);
    assert Run(e, s, evs[..3]) == Step(e, Run(e, s, evs[..2]), evs[2]);
    assert Run(e, s, evs[..4]) == Step(e, Run(e, s, evs[..3]), evs[3]);
    assert Run(e, s, evs[..5]) == Step(e, Run(e, s, evs[..4]), evs[4]);
  }

  /** The run, up to the logged part. */
  lemma OverlapRun(e: Engine, db: Db, a: Stmt, b: Stmt)
    requires Sound(e) && e.mutates(a) && e.mutates(b) && e.exec(db, a).ok && e.exec(db, b).ok
    ensures var s := Run(e, Fresh(db), Overlapping(a, b));
            s.wal == [a, b] && e.logged(s.db) == e.logged(e.exec(db, b).db)
  {
    var t := Begin(e, db, 0, ReadCommitted, false);
    var ta, tb := RunStmt(e, t, a), RunStmt(e, t, b);
    assert SameEffect(e, db, t.db, a) && SameEffect(e, db, t.db, b);
    RunSix(e, Fresh(db), Overlapping(a, b));
    BothBegin(e, db);
    BothRun(e, TwoOpen(db, t, t), t, a, b);
    BothCommit(e, db, ta, tb);
    assert [] + [a] == [a] && [a] + [b] == [a, b];
  }

  lemma OverlapLoses(e: Engine, db: Db, a: Stmt, b: Stmt)
    requires Sound(e) && e.mutates(a) && e.mutates(b) && e.exec(db, a).ok && e.exec(db, b).ok
    ensures var s := Run(e, Fresh(db), Overlapping(a, b));
            && s.wal == [a, b] && e.logged(s.db) == e.logged(e.exec(db, b).db)
            && (RestoredAt(e, db, s) <==>
                  e.logged(e.exec(e.exec(db, a).db, b).db) == e.logged(e.exec(db, b).db))
  {
    OverlapRun(e, db, a, b);
    RecoverTwo(e, db, a, b);
  }

  lemma RecoverTwo(e: Engine, db: Db, a: Stmt, b: Stmt)
    ensures Recover(e, db, [a, b]) == e.exec(e.exec(db, a).db, b).db
  {
    assert [a, b][..1] == [a] && [a][..0] == [];
    assert Recover(e, db, [a]) == e.exec(db, a).db;
  }

  /** A statement outside a block that fails or is no mutation: nothing is logged and nothing
      is undone, and the WAL restores the database exactly when nothing changed. */
  lemma UnloggedLost(e: Engine, db: Db, stmt: Stmt)
    requires !(e.exec(db, stmt).ok && e.mutates(stmt))
    ensures var s := Run(e, Fresh(db), [Autocommit(stmt)]);
            && s.wal == [] && s.db == e.exec(db, stmt).db
            && (RestoredAt(e, db, s) <==> e.logged(e.exec(db, stmt).db) == e.logged(db))
  {
    assert [Autocommit(stmt)][..0] == [];
    assert Run(e, Fresh(db), []) == Fresh(db);
  }

  ghost function TwoOpen(db: Db, x: Tx, y: Tx): Server {
    Fresh(db).(open := map[1 := Open(x, db, []), 2 := Open(y, db, [])])
  }

  lemma BothBegin(e: Engine, db: Db)
    ensures var t := Begin(e, db, 0, ReadCommitted, false);
            Step(e, Step(e, Fresh(db), BeginBlock(1, ReadCommitted, false)), BeginBlock(2, ReadCommitted, false))
            == TwoOpen(db, t, t)
  {
    var t := Begin(e, db, 0, ReadCommitted, false);
    assert map[][1 := Open(t, db, [])][2 := Open(t, db, [])] == map[1 := Open(t, db, []), 2 := Open(t, db, [])];
  }

  lemma BothRun(e: Engine, s: Server, t: Tx, a: Stmt, b: Stmt)
    requires s == TwoOpen(s.db, t, t)
    ensures Step(e, Step(e, s, InBlock(1, Transactions.Run(a))), InBlock(2, Transactions.Run(b)))
            == TwoOpen(s.db, RunStmt(e, t, a), RunStmt(e, t, b))
  {
  }

  lemma BothCommit(e: Engine, db: Db, x: Tx, y: Tx)
    requires !x.failed && !y.failed && !x.isolation.Serializing() && !y.isolation.Serializing()
    ensures var s := Step(e, Step(e, TwoOpen(db, x, y), Commit(1)), Commit(2));
            s.db == y.db && s.wal == [] + x.buffered + y.buffered
  {
  }
}
