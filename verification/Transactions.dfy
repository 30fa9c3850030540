/** A transaction block: the working copy, the statements buffered for the WAL, the
write set and the savepoint stack.

The executor is any deterministic function of a database and a statement. What the
WAL can restore of a database is its logged part, given as a function `logged`.
*/
module Transactions {
  import opened Collections

  type Db(!new)
  type Stmt(!new)
  type Logged(!new)

  datatype Outcome = Outcome(ok: bool, db: Db)

  datatype Isolation = ReadUncommitted | ReadCommitted | RepeatableRead | Serializable {
    predicate Serializing() {
      RepeatableRead? || Serializable?
    }
  }

  /** Executor and statement classification. `configure` writes the isolation and
      read-only settings into a working copy. */
  datatype Engine = Engine(
    exec: (Db, Stmt) -> Outcome,
    mutates: Stmt -> bool,
    dataMutates: Stmt -> bool,
    tables: Stmt -> set<string>,
    configure: (Db, Isolation, bool) -> Db,
    logged: Db -> Logged)

  /** The logged part decides what a statement does to the logged part. */
  ghost predicate Determined(e: Engine) {
    forall a, b, s :: e.logged(a) == e.logged(b) ==> SameEffect(e, a, b, s)
  }

  ghost predicate SameEffect(e: Engine, a: Db, b: Db, s: Stmt) {
    e.exec(a, s).ok == e.exec(b, s).ok && e.logged(e.exec(a, s).db) == e.logged(e.exec(b, s).db)
  }

  /** And the settings of a block are not logged. */
  ghost predicate Sound(e: Engine) {
    Determined(e) && forall a, level, ro :: e.logged(e.configure(a, level, ro)) == e.logged(a)
  }

  /** Only mutations that succeed are put in the WAL. Any other statement should leave the
      logged part as it was; this one does on this database. */
  ghost predicate Harmless(e: Engine, db: Db, stmt: Stmt) {
    var out := e.exec(db, stmt);
    !(out.ok && e.mutates(stmt)) ==> e.logged(out.db) == e.logged(db)
  }

  ghost predicate AllHarmless(e: Engine) {
    forall db, stmt :: Harmless(e, db, stmt)
  }

  // --- The block ---------------------------------------------------------------------

  datatype Savepoint = Savepoint(name: string, db: Db, len: nat, writeSet: set<string>)

  datatype Tx = Tx(
    db: Db,
    buffered: seq<Stmt>,
    savepoints: seq<Savepoint>,
    failed: bool,
    isolation: Isolation,
    readOnly: bool,
    snapshotVersion: nat,
    writeSet: set<string>)

  /** What a session can send inside a block. `OtherError` is anything else that is answered
      with an error, such as a table lock refused. */
  datatype Cmd =
    | Run(stmt: Stmt)
    | SetTransaction(isolation: Option<Isolation>, readOnly: Option<bool>)
    | TakeSavepoint(name: string)
    | Release(name: string)
    | RollbackTo(name: string)
    | OtherError

  function Begin(e: Engine, db: Db, version: nat, level: Isolation, readOnly: bool): Tx {
    Tx(e.configure(db, level, readOnly), [], [], false, level, readOnly, version, {})
  }

  function RunStmt(e: Engine, tx: Tx, stmt: Stmt): Tx {
    if tx.failed then tx
    else if tx.readOnly && e.dataMutates(stmt) then tx.(failed := true)
    else
      var out := e.exec(tx.db, stmt);
      if !out.ok then tx.(db := out.db, failed := true)
      else if e.mutates(stmt) then
        tx.(db := out.db, buffered := tx.buffered + [stmt], writeSet := tx.writeSet + e.tables(stmt))
      else tx.(db := out.db)
  }

  /** The stack without the savepoints of one name. */
  function Without(sps: seq<Savepoint>, name: string): seq<Savepoint> {
    if sps == [] then []
    else
      var init, last := Without(sps[..|sps| - 1], name), sps[|sps| - 1];
      if last.name == name then init else init + [last]
  }

  function Save(tx: Tx, name: string): Tx {
    tx.(savepoints := Without(tx.savepoints, name) + [Savepoint(name, tx.db, |tx.buffered|, tx.writeSet)])
  }

  /** The last savepoint of that name, or the length of the stack. */
  function LastNamed(sps: seq<Savepoint>, name: string): (p: nat)
    ensures p <= |sps|
    ensures p < |sps| ==> sps[p].name == name && forall q :: p < q < |sps| ==> sps[q].name != name
    ensures p == |sps| ==> forall q :: 0 <= q < |sps| ==> sps[q].name != name
  {
    if sps == [] then 0
    else if sps[|sps| - 1].name == name then |sps| - 1
    else
      var p := LastNamed(sps[..|sps| - 1], name);
      if p == |sps| - 1 then |sps| else p
  }

  function ReleaseTo(tx: Tx, name: string): Tx {
    var p := LastNamed(tx.savepoints, name);
    if p == |tx.savepoints| then tx else tx.(savepoints := tx.savepoints[..p])
  }

  /** `Vec::truncate`. */
  function Truncated<T>(s: seq<T>, n: nat): seq<T> {
    if n < |s| then s[..n] else s
  }

  function BackTo(tx: Tx, name: string): Tx {
    var p := LastNamed(tx.savepoints, name);
    if p == |tx.savepoints| then tx
    else
      var sp := tx.savepoints[p];
      tx.(db := sp.db, buffered := Truncated(tx.buffered, sp.len), writeSet := sp.writeSet,
          savepoints := tx.savepoints[..p + 1], failed := false)
  }

  predicate Saved(tx: Tx, name: string) {
    LastNamed(tx.savepoints, name) < |tx.savepoints|
  }

  /** `mark_error`, after every command that is answered with an error. */
  function MarkError(tx: Tx): Tx {
    tx.(failed := true)
  }

  function BlockStep(e: Engine, tx: Tx, c: Cmd): Tx {
    match c
    case Run(stmt) => RunStmt(e, tx, stmt)
    case SetTransaction(isolation, readOnly) =>
      var level := if isolation.Some? then isolation.value else tx.isolation;
      var ro := if readOnly.Some? then readOnly.value else tx.readOnly;
      tx.(isolation := level, readOnly := ro, db := e.configure(tx.db, level, ro))
    case TakeSavepoint(name) => Save(tx, name)
    case Release(name) => if Saved(tx, name) then ReleaseTo(tx, name) else MarkError(tx)
    case RollbackTo(name) => if Saved(tx, name) then BackTo(tx, name) else MarkError(tx)
    case OtherError => MarkError(tx)
  }

  function Block(e: Engine, tx: Tx, cs: seq<Cmd>): Tx {
    if cs == [] then tx else BlockStep(e, Block(e, tx, cs[..|cs| - 1]), cs[|cs| - 1])
  }

  // --- Replaying what was buffered ------------------------------------------------------

  /** Run statements in order; nothing if one fails. */
  function Replay(e: Engine, db: Db, stmts: seq<Stmt>): Option<Db> {
    if stmts == [] then Some(db)
    else
      var before := Replay(e, db, stmts[..|stmts| - 1]);
      if before.None? then None
      else
        var out := e.exec(before.value, stmts[|stmts| - 1]);
        if out.ok then Some(out.db) else None
  }

  function TablesOf(e: Engine, stmts: seq<Stmt>): set<string> {
    if stmts == [] then {} else TablesOf(e, stmts[..|stmts| - 1]) + e.tables(stmts[|stmts| - 1])
  }

  /** `db` is logged as `start` with exactly these statements applied, which wrote
      exactly these tables. */
  ghost predicate Accounts(e: Engine, start: Db, stmts: seq<Stmt>, db: Db, writeSet: set<string>) {
    && Replay(e, start, stmts).Some?
    && e.logged(Replay(e, start, stmts).value) == e.logged(db)
    && writeSet == TablesOf(e, stmts)
  }

  /** Savepoints remember prefixes of the buffer, longer ones later. */
  ghost predicate StackOk(e: Engine, start: Db, tx: Tx) {
    Rising(tx.savepoints, |tx.buffered|) && AllOk(e, start, tx.buffered, tx.savepoints)
  }

  ghost predicate Rising(sps: seq<Savepoint>, bound: nat) {
    && (forall p, q :: 0 <= p < q < |sps| ==> sps[p].len <= sps[q].len)
    && (forall p :: 0 <= p < |sps| ==> sps[p].len <= bound)
  }

  ghost predicate AllOk(e: Engine, start: Db, buffered: seq<Stmt>, sps: seq<Savepoint>) {
    forall p :: 0 <= p < |sps| ==> SavepointOk(e, start, buffered, sps[p])
  }

  ghost predicate SavepointOk(e: Engine, start: Db, buffered: seq<Stmt>, sp: Savepoint) {
    sp.len <= |buffered| && Accounts(e, start, buffered[..sp.len], sp.db, sp.writeSet)
  }

  ghost predicate Consistent(e: Engine, start: Db, tx: Tx) {
    (!tx.failed ==> Accounts(e, start, tx.buffered, tx.db, tx.writeSet)) && StackOk(e, start, tx)
  }

  lemma AccountsMore(e: Engine, start: Db, stmts: seq<Stmt>, db: Db, writeSet: set<string>, stmt: Stmt)
    requires Sound(e) && Accounts(e, start, stmts, db, writeSet) && e.exec(db, stmt).ok
    ensures Accounts(e, start, stmts + [stmt], e.exec(db, stmt).db, writeSet + e.tables(stmt))
  {
    assert (stmts + [stmt])[..|stmts + [stmt]| - 1] == stmts;
    assert SameEffect(e, Replay(e, start, stmts).value, db, stmt);
  }

  lemma StackMore(e: Engine, start: Db, tx: Tx, tx': Tx)
    requires StackOk(e, start, tx) && tx'.savepoints == tx.savepoints && tx.buffered <= tx'.buffered
    ensures StackOk(e, start, tx')
  {
    forall p | 0 <= p < |tx.savepoints|
      ensures SavepointOk(e, start, tx'.buffered, tx.savepoints[p])
    {
      assert SavepointOk(e, start, tx.buffered, tx.savepoints[p]);
      assert tx'.buffered[..tx.savepoints[p].len] == tx.buffered[..tx.savepoints[p].len];
    }
  }

  lemma RunConsistent(e: Engine, start: Db, tx: Tx, stmt: Stmt)
    requires Sound(e) && Consistent(e, start, tx)
    requires !RunStmt(e, tx, stmt).failed ==> Harmless(e, tx.db, stmt)
    ensures Consistent(e, start, RunStmt(e, tx, stmt))
  {
    var tx' := RunStmt(e, tx, stmt);
    StackMore(e, start, tx, tx');
    if !tx'.failed && e.mutates(stmt) {
      AccountsMore(e, start, tx.buffered, tx.db, tx.writeSet, stmt);
    }
  }

  lemma {:induction false} WithoutRises(sps: seq<Savepoint>, name: string, bound: nat)
    requires Rising(sps, bound)
    ensures Rising(Without(sps, name), bound)
  {
    if sps != [] {
      var init, last := sps[..|sps| - 1], sps[|sps| - 1];
      assert Rising(init, last.len);
      WithoutRises(init, name, last.len);
    }
  }

  lemma {:induction false} WithoutOk(e: Engine, start: Db, buffered: seq<Stmt>, sps: seq<Savepoint>, name: string)
    requires AllOk(e, start, buffered, sps)
    ensures AllOk(e, start, buffered, Without(sps, name))
  {
    if sps != [] {
      WithoutOk(e, start, buffered, sps[..|sps| - 1], name);
    }
  }

  lemma SaveConsistent(e: Engine, start: Db, tx: Tx, name: string)
    requires Consistent(e, start, tx) && Accounts(e, start, tx.buffered, tx.db, tx.writeSet)
    ensures Consistent(e, start, Save(tx, name))
  {
    WithoutRises(tx.savepoints, name, |tx.buffered|);
    WithoutOk(e, start, tx.buffered, tx.savepoints, name);
    assert tx.buffered[..|tx.buffered|] == tx.buffered;
  }

  lemma BackConsistent(e: Engine, start: Db, tx: Tx, name: string)
    requires Consistent(e, start, tx)
    ensures Consistent(e, start, BackTo(tx, name))
  {
    var p := LastNamed(tx.savepoints, name);
    if p < |tx.savepoints| {
      var tx' := BackTo(tx, name);
      assert SavepointOk(e, start, tx.buffered, tx.savepoints[p]);
      assert tx'.buffered == tx.buffered[..tx.savepoints[p].len];
      forall q | 0 <= q <= p
        ensures SavepointOk(e, start, tx'.buffered, tx.savepoints[q])
      {
        assert SavepointOk(e, start, tx.buffered, tx.savepoints[q]);
        assert tx.savepoints[q].len <= tx.savepoints[p].len;
        assert tx'.buffered[..tx.savepoints[q].len] == tx.buffered[..tx.savepoints[q].len];
      }
    }
  }

  lemma StepConsistent(e: Engine, start: Db, tx: Tx, c: Cmd)
    requires Sound(e) && Consistent(e, start, tx)
    requires c.TakeSavepoint? ==> Accounts(e, start, tx.buffered, tx.db, tx.writeSet)
    requires c.Run? && !RunStmt(e, tx, c.stmt).failed ==> Harmless(e, tx.db, c.stmt)
    ensures Consistent(e, start, BlockStep(e, tx, c))
  {
    match c
    case Run(stmt) => RunConsistent(e, start, tx, stmt);
    case TakeSavepoint(name) => SaveConsistent(e, start, tx, name);
    case RollbackTo(name) => BackConsistent(e, start, tx, name);
    case SetTransaction(_, _) => StackMore(e, start, tx, BlockStep(e, tx, c));
    case Release(_) =>
    case OtherError => StackMore(e, start, tx, BlockStep(e, tx, c));
  }

  // --- Every run of a block -----------------------------------------------------------------

  /** No savepoint is taken while the block is failed, and no statement that succeeds without
      being buffered changes the logged part. */
  ghost predicate Careful(e: Engine, tx: Tx, cs: seq<Cmd>) {
    forall i :: 0 <= i < |cs| ==> CarefulAt(e, tx, cs, i)
  }

  ghost predicate CarefulAt(e: Engine, tx: Tx, cs: seq<Cmd>, i: nat)
    requires i < |cs|
  {
    CarefulStep(e, Block(e, tx, cs[..i]), cs[i])
  }

  ghost predicate CarefulStep(e: Engine, tx: Tx, c: Cmd) {
    match c
    case Run(stmt) => !RunStmt(e, tx, stmt).failed ==> Harmless(e, tx.db, stmt)
    case TakeSavepoint(_) => !tx.failed
    case _ => true
  }

  /** Whatever the nesting and naming of savepoints, a block that is not failed is its
      snapshot with exactly the buffered statements applied. */
  lemma {:induction false} BlockConsistent(e: Engine, start: Db, tx: Tx, cs: seq<Cmd>)
    requires Sound(e) && Consistent(e, start, tx) && Careful(e, tx, cs)
    ensures Consistent(e, start, Block(e, tx, cs))
  {
    if cs != [] {
      var init := cs[..|cs| - 1];
      forall i | 0 <= i < |init|
        ensures CarefulAt(e, tx, init, i)
      {
        assert CarefulAt(e, tx, cs, i) && init[..i] == cs[..i];
      }
      BlockConsistent(e, start, tx, init);
      assert CarefulAt(e, tx, cs, |init|);
      StepConsistent(e, start, Block(e, tx, init), cs[|cs| - 1]);
    }
  }

  lemma BeginConsistent(e: Engine, db: Db, version: nat, level: Isolation, readOnly: bool)
    requires Sound(e)
    ensures Consistent(e, db, Begin(e, db, version, level, readOnly))
  {
  }

  /** What COMMIT appends to the WAL replays from the snapshot to what it publishes. */
  lemma CommitReplays(e: Engine, db: Db, version: nat, level: Isolation, readOnly: bool, cs: seq<Cmd>)
    requires Sound(e) && Careful(e, Begin(e, db, version, level, readOnly), cs)
    requires !Block(e, Begin(e, db, version, level, readOnly), cs).failed
    ensures var tx := Block(e, Begin(e, db, version, level, readOnly), cs);
            Accounts(e, db, tx.buffered, tx.db, tx.writeSet)
  {
    BeginConsistent(e, db, version, level, readOnly);
    BlockConsistent(e, db, Begin(e, db, version, level, readOnly), cs);
  }

  // --- Rolling back to a savepoint undoes the block back to it ---------------------------------

  /** As long as a savepoint of this name is there it is `sp`, and the buffer still
      starts with what was buffered then. */
  ghost predicate Remembers(tx: Tx, sp: Savepoint, buffered: seq<Stmt>) {
    && Rising(tx.savepoints, |tx.buffered|)
    && (forall p :: 0 <= p < |tx.savepoints| && tx.savepoints[p].name == sp.name ==>
          tx.savepoints[p] == sp && buffered <= tx.buffered)
  }

  lemma {:induction false} WithoutNamed(sps: seq<Savepoint>, name: string, p: nat)
    requires p < |Without(sps, name)|
    ensures Without(sps, name)[p] in sps && Without(sps, name)[p].name != name
  {
    var init, last := sps[..|sps| - 1], sps[|sps| - 1];
    if p < |Without(init, name)| {
      WithoutNamed(init, name, p);
    } else {
      assert last in sps;
    }
  }

  lemma SaveRemembers(tx: Tx, name: string)
    requires Rising(tx.savepoints, |tx.buffered|)
    ensures Remembers(Save(tx, name), Savepoint(name, tx.db, |tx.buffered|, tx.writeSet), tx.buffered)
  {
    WithoutRises(tx.savepoints, name, |tx.buffered|);
    forall p | 0 <= p < |Without(tx.savepoints, name)|
      ensures Without(tx.savepoints, name)[p].name != name
    {
      WithoutNamed(tx.savepoints, name, p);
    }
  }

  lemma OtherSaveRemembers(tx: Tx, name: string, sp: Savepoint, buffered: seq<Stmt>)
    requires Remembers(tx, sp, buffered) && name != sp.name
    ensures Remembers(Save(tx, name), sp, buffered)
  {
    WithoutRises(tx.savepoints, name, |tx.buffered|);
    forall p | 0 <= p < |Without(tx.savepoints, name)| && Without(tx.savepoints, name)[p].name == sp.name
      ensures Without(tx.savepoints, name)[p] == sp && buffered <= tx.buffered
    {
      WithoutNamed(tx.savepoints, name, p);
    }
  }

  lemma BackRemembers(tx: Tx, name: string, sp: Savepoint, buffered: seq<Stmt>)
    requires Remembers(tx, sp, buffered) && sp.len == |buffered|
    ensures Remembers(BackTo(tx, name), sp, buffered)
  {
    var p := LastNamed(tx.savepoints, name);
    if p < |tx.savepoints| {
      var back := BackTo(tx, name);
      assert back.buffered == tx.buffered[..tx.savepoints[p].len];
      assert Rising(back.savepoints, |back.buffered|);
    }
  }

  lemma StepRemembers(e: Engine, tx: Tx, c: Cmd, sp: Savepoint, buffered: seq<Stmt>)
    requires Remembers(tx, sp, buffered) && sp.len == |buffered| && c != TakeSavepoint(sp.name)
    ensures Remembers(BlockStep(e, tx, c), sp, buffered)
  {
    match c
    case TakeSavepoint(name) => OtherSaveRemembers(tx, name, sp, buffered);
    case RollbackTo(name) => BackRemembers(tx, name, sp, buffered);
    case _ => PrefixRemembers(tx, BlockStep(e, tx, c), sp, buffered);
  }

  /** Fewer savepoints and a longer buffer. */
  lemma PrefixRemembers(tx: Tx, tx': Tx, sp: Savepoint, buffered: seq<Stmt>)
    requires Remembers(tx, sp, buffered) && tx'.savepoints <= tx.savepoints && tx.buffered <= tx'.buffered
    ensures Remembers(tx', sp, buffered)
  {
  }

  lemma {:induction false} BlockRemembers(e: Engine, tx: Tx, cs: seq<Cmd>, sp: Savepoint, buffered: seq<Stmt>)
    requires Remembers(tx, sp, buffered) && sp.len == |buffered| && TakeSavepoint(sp.name) !in cs
    ensures Remembers(Block(e, tx, cs), sp, buffered)
  {
    if cs != [] {
      BlockRemembers(e, tx, cs[..|cs| - 1], sp, buffered);
      StepRemembers(e, Block(e, tx, cs[..|cs| - 1]), cs[|cs| - 1], sp, buffered);
    }
  }

  /** After any commands that do not reuse the name, rolling back to a savepoint that
      is still there restores the working copy, the buffer and the write set. */
  lemma RollbackUndoes(e: Engine, tx: Tx, name: string, cs: seq<Cmd>)
    requires Rising(tx.savepoints, |tx.buffered|) && TakeSavepoint(name) !in cs
    ensures var now := Block(e, Save(tx, name), cs);
            Saved(now, name) ==>
              var back := BackTo(now, name);
              back.db == tx.db && back.buffered == tx.buffered && back.writeSet == tx.writeSet && !back.failed
  {
    var sp := Savepoint(name, tx.db, |tx.buffered|, tx.writeSet);
    SaveRemembers(tx, name);
    BlockRemembers(e, Save(tx, name), cs, sp, tx.buffered);
  }

  // --- The savepoint stack ---------------------------------------------------------------------

  ghost predicate DistinctNames(sps: seq<Savepoint>) {
    forall p, q :: 0 <= p < q < |sps| ==> sps[p].name != sps[q].name
  }

  lemma {:induction false} WithoutDistinct(sps: seq<Savepoint>, name: string)
    requires DistinctNames(sps)
    ensures DistinctNames(Without(sps, name))
  {
    if sps != [] {
      var init, last := sps[..|sps| - 1], sps[|sps| - 1];
      WithoutDistinct(init, name);
      forall p | 0 <= p < |Without(init, name)|
        ensures Without(init, name)[p].name != last.name
      {
        WithoutNamed(init, name, p);
      }
    }
  }

  lemma StepDistinct(e: Engine, tx: Tx, c: Cmd)
    requires DistinctNames(tx.savepoints)
    ensures DistinctNames(BlockStep(e, tx, c).savepoints)
  {
    if c.TakeSavepoint? {
      WithoutDistinct(tx.savepoints, c.name);
      forall p | 0 <= p < |Without(tx.savepoints, c.name)|
        ensures Without(tx.savepoints, c.name)[p].name != c.name
      {
        WithoutNamed(tx.savepoints, c.name, p);
      }
    }
  }

  /** In every block the names on the stack are distinct. */
  lemma {:induction false} BlockDistinct(e: Engine, tx: Tx, cs: seq<Cmd>)
    requires DistinctNames(tx.savepoints)
    ensures DistinctNames(Block(e, tx, cs).savepoints)
  {
    if cs != [] {
      BlockDistinct(e, tx, cs[..|cs| - 1]);
      StepDistinct(e, Block(e, tx, cs[..|cs| - 1]), cs[|cs| - 1]);
    }
  }

  /** A savepoint of that name is on the stack, and was taken before the one at `p`. */
  ghost predicate NamedBefore(sps: seq<Savepoint>, name: string, p: nat) {
    exists q :: 0 <= q < p && q < |sps| && sps[q].name == name
  }

  /** Whatever block it is in: after ROLLBACK TO a savepoint it is still there, with those
      taken before it and no later one. After RELEASE it is gone with the later ones, and
      nothing else has changed. */
  lemma StackAfter(e: Engine, db: Db, version: nat, level: Isolation, readOnly: bool, cs: seq<Cmd>, p: nat)
    requires var tx := Block(e, Begin(e, db, version, level, readOnly), cs); p < |tx.savepoints|
    ensures var tx := Block(e, Begin(e, db, version, level, readOnly), cs);
            var name := tx.savepoints[p].name;
            var back, released := BlockStep(e, tx, RollbackTo(name)), BlockStep(e, tx, Release(name));
            && (forall n :: Saved(back, n) <==> n == name || NamedBefore(tx.savepoints, n, p))
            && (forall n :: Saved(released, n) <==> NamedBefore(tx.savepoints, n, p))
            && !Saved(released, name) && released == tx.(savepoints := released.savepoints)
  {
    var tx := Block(e, Begin(e, db, version, level, readOnly), cs);
    var name := tx.savepoints[p].name;
    BlockDistinct(e, Begin(e, db, version, level, readOnly), cs);
    assert LastNamed(tx.savepoints, name) == p;
    forall n
      ensures Saved(BackTo(tx, name), n) <==> n == name || NamedBefore(tx.savepoints, n, p)
      ensures Saved(ReleaseTo(tx, name), n) <==> NamedBefore(tx.savepoints, n, p)
    {
      SavedIsNamed(BackTo(tx, name), n);
      SavedIsNamed(ReleaseTo(tx, name), n);
      NamedUpTo(tx.savepoints, n, p);
    }
  }

  lemma SavedIsNamed(tx: Tx, name: string)
    ensures Saved(tx, name) <==> NamedBefore(tx.savepoints, name, |tx.savepoints|)
  {
  }

  lemma NamedUpTo(sps: seq<Savepoint>, name: string, p: nat)
    requires p < |sps|
    ensures NamedBefore(sps[..p], name, p) <==> NamedBefore(sps, name, p)
    ensures NamedBefore(sps[..p + 1], name, p + 1) <==> name == sps[p].name || NamedBefore(sps, name, p)
  {
    if q :| 0 <= q < p && sps[q].name == name {
      assert sps[..p][q].name == name && sps[..p + 1][q].name == name;
    }
    assert sps[..p + 1][p] == sps[p];
  }

  // --- Access mode, isolation level and write set ----------------------------------------------

  /** The last command that names an isolation level. */
  ghost predicate LastLevel(cs: seq<Cmd>, k: int) {
    0 <= k < |cs| && SetsLevel(cs[k]) && forall j :: k < j < |cs| ==> !SetsLevel(cs[j])
  }

  predicate SetsLevel(c: Cmd) {
    c.SetTransaction? && c.isolation.Some?
  }

  ghost predicate LastMode(cs: seq<Cmd>, k: int) {
    0 <= k < |cs| && SetsMode(cs[k]) && forall j :: k < j < |cs| ==> !SetsMode(cs[j])
  }

  predicate SetsMode(c: Cmd) {
    c.SetTransaction? && c.readOnly.Some?
  }

  lemma StepSettings(e: Engine, tx: Tx, c: Cmd)
    ensures var now := BlockStep(e, tx, c);
            && now.isolation == (if SetsLevel(c) then c.isolation.value else tx.isolation)
            && now.readOnly == (if SetsMode(c) then c.readOnly.value else tx.readOnly)
            && now.snapshotVersion == tx.snapshotVersion
  {
  }

  /** The isolation level is that of the last SET TRANSACTION that names one, or else the one
      the block started with; rolling back does not bring an older one back. */
  lemma {:induction false} LevelIsLast(e: Engine, tx: Tx, cs: seq<Cmd>)
    ensures var now := Block(e, tx, cs);
            || (exists k :: LastLevel(cs, k) && now.isolation == cs[k].isolation.value)
            || (now.isolation == tx.isolation && forall j :: 0 <= j < |cs| ==> !SetsLevel(cs[j]))
  {
    if cs != [] {
      var init, last := cs[..|cs| - 1], cs[|cs| - 1];
      LevelIsLast(e, tx, init);
      StepSettings(e, Block(e, tx, init), last);
      if SetsLevel(last) {
        assert LastLevel(cs, |cs| - 1);
      } else if k :| LastLevel(init, k) && Block(e, tx, init).isolation == init[k].isolation.value {
        assert LastLevel(cs, k);
      }
    }
  }

  /** So is the access mode. */
  lemma {:induction false} ModeIsLast(e: Engine, tx: Tx, cs: seq<Cmd>)
    ensures var now := Block(e, tx, cs);
            || (exists k :: LastMode(cs, k) && now.readOnly == cs[k].readOnly.value)
            || (now.readOnly == tx.readOnly && forall j :: 0 <= j < |cs| ==> !SetsMode(cs[j]))
  {
    if cs != [] {
      var init, last := cs[..|cs| - 1], cs[|cs| - 1];
      ModeIsLast(e, tx, init);
      StepSettings(e, Block(e, tx, init), last);
      if SetsMode(last) {
        assert LastMode(cs, |cs| - 1);
      } else if k :| LastMode(init, k) && Block(e, tx, init).readOnly == init[k].readOnly.value {
        assert LastMode(cs, k);
      }
    }
  }

  lemma {:induction false} SnapshotStays(e: Engine, tx: Tx, cs: seq<Cmd>)
    ensures Block(e, tx, cs).snapshotVersion == tx.snapshotVersion
  {
    if cs != [] {
      SnapshotStays(e, tx, cs[..|cs| - 1]);
      StepSettings(e, Block(e, tx, cs[..|cs| - 1]), cs[|cs| - 1]);
    }
  }

  /** A block that is READ ONLY, and is not made READ WRITE, buffers no data mutation. */
  lemma {:induction false} ReadOnlyBuffers(e: Engine, tx: Tx, cs: seq<Cmd>)
    requires tx.readOnly && forall i :: 0 <= i < |cs| ==> !(cs[i].SetTransaction? && cs[i].readOnly == Some(false))
    ensures Block(e, tx, cs).readOnly
    ensures forall stmt :: stmt in Block(e, tx, cs).buffered && e.dataMutates(stmt) ==> stmt in tx.buffered
  {
    if cs != [] {
      ReadOnlyBuffers(e, tx, cs[..|cs| - 1]);
    }
  }

  /** The write set is the tables of the buffered statements, and so is each one saved. */
  ghost predicate Written(e: Engine, tx: Tx) {
    && tx.writeSet == TablesOf(e, tx.buffered) && Rising(tx.savepoints, |tx.buffered|)
    && forall p :: 0 <= p < |tx.savepoints| ==> SavedWrites(e, tx.buffered, tx.savepoints[p])
  }

  ghost predicate SavedWrites(e: Engine, buffered: seq<Stmt>, sp: Savepoint) {
    sp.len <= |buffered| && sp.writeSet == TablesOf(e, buffered[..sp.len])
  }

  lemma WrittenMore(e: Engine, tx: Tx, tx': Tx)
    requires Written(e, tx) && tx'.savepoints <= tx.savepoints && tx.buffered <= tx'.buffered
    requires tx'.writeSet == TablesOf(e, tx'.buffered)
    ensures Written(e, tx')
  {
    forall p | 0 <= p < |tx'.savepoints|
      ensures SavedWrites(e, tx'.buffered, tx'.savepoints[p])
    {
      assert SavedWrites(e, tx.buffered, tx.savepoints[p]);
      assert tx'.buffered[..tx.savepoints[p].len] == tx.buffered[..tx.savepoints[p].len];
    }
  }

  lemma SaveWritten(e: Engine, tx: Tx, name: string)
    requires Written(e, tx)
    ensures Written(e, Save(tx, name))
  {
    WithoutRises(tx.savepoints, name, |tx.buffered|);
    assert tx.buffered[..|tx.buffered|] == tx.buffered;
    forall p | 0 <= p < |Without(tx.savepoints, name)|
      ensures SavedWrites(e, tx.buffered, Without(tx.savepoints, name)[p])
    {
      WithoutNamed(tx.savepoints, name, p);
    }
  }

  lemma BackWritten(e: Engine, tx: Tx, name: string)
    requires Written(e, tx) && Saved(tx, name)
    ensures Written(e, BackTo(tx, name))
  {
    var p := LastNamed(tx.savepoints, name);
    var back := BackTo(tx, name);
    assert SavedWrites(e, tx.buffered, tx.savepoints[p]);
    assert back.buffered == tx.buffered[..tx.savepoints[p].len];
    forall q | 0 <= q <= p
      ensures SavedWrites(e, back.buffered, tx.savepoints[q])
    {
      assert SavedWrites(e, tx.buffered, tx.savepoints[q]);
      assert back.buffered[..tx.savepoints[q].len] == tx.buffered[..tx.savepoints[q].len];
    }
  }

  lemma StepWritten(e: Engine, tx: Tx, c: Cmd)
    requires Written(e, tx)
    ensures Written(e, BlockStep(e, tx, c))
  {
    match c
    case TakeSavepoint(name) => SaveWritten(e, tx, name);
    case RollbackTo(name) =>
      if Saved(tx, name) {
        BackWritten(e, tx, name);
      }
    case Run(stmt) =>
      var tx' := RunStmt(e, tx, stmt);
      assert tx'.buffered != tx.buffered ==> tx'.buffered[..|tx'.buffered| - 1] == tx.buffered;
      WrittenMore(e, tx, tx');
    case _ => WrittenMore(e, tx, BlockStep(e, tx, c));
  }

  /** Whatever fails and whatever is rolled back. */
  lemma {:induction false} BlockWritten(e: Engine, tx: Tx, cs: seq<Cmd>)
    requires Written(e, tx)
    ensures Written(e, Block(e, tx, cs))
  {
    if cs != [] {
      BlockWritten(e, tx, cs[..|cs| - 1]);
      StepWritten(e, Block(e, tx, cs[..|cs| - 1]), cs[|cs| - 1]);
    }
  }

  // --- Savepoints taken while failed ----------------------------------------------------------

  /** The invariant with a working copy that accounts for the buffer even when failed. */
  ghost predicate AlwaysConsistent(e: Engine, start: Db, tx: Tx) {
    Accounts(e, start, tx.buffered, tx.db, tx.writeSet) && StackOk(e, start, tx)
  }

  lemma HarmlessStep(e: Engine, start: Db, tx: Tx, c: Cmd)
    requires Sound(e) && AllHarmless(e) && AlwaysConsistent(e, start, tx)
    ensures AlwaysConsistent(e, start, BlockStep(e, tx, c))
  {
    assert c.Run? ==> Harmless(e, tx.db, c.stmt);
    StepConsistent(e, start, tx, c);
  }

  lemma {:induction false} HarmlessBlock(e: Engine, start: Db, tx: Tx, cs: seq<Cmd>)
    requires Sound(e) && AllHarmless(e) && AlwaysConsistent(e, start, tx)
    ensures AlwaysConsistent(e, start, Block(e, tx, cs))
  {
    if cs != [] {
      HarmlessBlock(e, start, tx, cs[..|cs| - 1]);
      HarmlessStep(e, start, Block(e, tx, cs[..|cs| - 1]), cs[|cs| - 1]);
    }
  }

  /** Every block of every session accounts for itself when it is not failed. */
  ghost predicate BlocksAccount(e: Engine) {
    forall db, version: nat, level, readOnly, cs :: BlockAccounts(e, db, version, level, readOnly, cs)
  }

  ghost predicate BlockAccounts(e: Engine, db: Db, version: nat, level: Isolation, readOnly: bool, cs: seq<Cmd>) {
    var tx := Block(e, Begin(e, db, version, level, readOnly), cs);
    !tx.failed ==> Accounts(e, db, tx.buffered, tx.db, tx.writeSet)
  }

  /** A savepoint taken after a failure, then rolled back to, revives the block with
      whatever the failed statement left behind. */
  lemma RevivedBlock(e: Engine, db: Db, stmt: Stmt)
    ensures var db0 := e.configure(db, ReadCommitted, false);
            var out := e.exec(db0, stmt);
            var tx := Block(e, Begin(e, db, 0, ReadCommitted, false), [Run(stmt), TakeSavepoint("a"), RollbackTo("a")]);
            !out.ok ==> !tx.failed && tx.buffered == [] && tx.db == out.db
  {
    var t0 := Begin(e, db, 0, ReadCommitted, false);
    BlockThree(e, t0, Run(stmt), TakeSavepoint("a"), RollbackTo("a"));
    SaveAndBack(RunStmt(e, t0, stmt), "a");
  }

  lemma BlockThree(e: Engine, tx: Tx, a: Cmd, b: Cmd, c: Cmd)
    ensures Block(e, tx, [a, b, c]) == BlockStep(e, BlockStep(e, BlockStep(e, tx, a), b), c)
  {
    assert [a, b, c][..2] == [a, b] && [a, b][..1] == [a] && [a][..0] == [];
    assert Block(e, tx, [a]) == BlockStep(e, Block(e, tx, []), a);
    assert Block(e, tx, [a, b]) == BlockStep(e, Block(e, tx, [a]), b);
  }

  lemma SaveAndBack(tx: Tx, name: string)
    ensures var back := BackTo(Save(tx, name), name);
            back.db == tx.db && back.buffered == tx.buffered && back.writeSet == tx.writeSet && !back.failed
  {
    var sps := Save(tx, name).savepoints;
    assert sps[|sps| - 1].name == name && LastNamed(sps, name) == |sps| - 1;
  }

  /** A statement that succeeds and is no mutation is kept and not buffered. */
  lemma UnbufferedBlock(e: Engine, db: Db, stmt: Stmt)
    ensures var db0 := e.configure(db, ReadCommitted, false);
            var out := e.exec(db0, stmt);
            var tx := Block(e, Begin(e, db, 0, ReadCommitted, false), [Run(stmt)]);
            out.ok && !e.mutates(stmt) ==> !tx.failed && tx.buffered == [] && tx.db == out.db
  {
    var t0 := Begin(e, db, 0, ReadCommitted, false);
    assert [Run(stmt)][..0] == [] && Block(e, t0, []) == t0;
  }

  /** So the replay property holds of every block exactly when only mutations that succeed
      change the logged state. */
  lemma BlocksAccountExactly(e: Engine)
    requires Sound(e)
    ensures BlocksAccount(e) <==> AllHarmless(e)
  {
    if AllHarmless(e) {
      forall db, version: nat, level, readOnly, cs
        ensures BlockAccounts(e, db, version, level, readOnly, cs)
      {
        BeginConsistent(e, db, version, level, readOnly);
        HarmlessBlock(e, db, Begin(e, db, version, level, readOnly), cs);
      }
    }
    if BlocksAccount(e) {
      forall db, stmt
        ensures Harmless(e, db, stmt)
      {
        assert SameEffect(e, db, e.configure(db, ReadCommitted, false), stmt);
        RevivedBlock(e, db, stmt);
        assert BlockAccounts(e, db, 0, ReadCommitted, false, [Run(stmt), TakeSavepoint("a"), RollbackTo("a")]);
        UnbufferedBlock(e, db, stmt);
        assert BlockAccounts(e, db, 0, ReadCommitted, false, [Run(stmt)]);
      }
    }
  }
}
