/**
 The migration ladder and the climb that brings a database up to it.

 A database's schema is the list of its CREATE statements in the order they
 ran, as `sqlite_schema` keeps it, and its version is the `user_version` header
 field. The ladder is any strictly increasing list of versioned steps; the one
 the repository ships is LADDER.
 */
module Schema {
  import opened Wrappers
  import opened Observations

  datatype Mutation = Update | Delete

  datatype Ddl =
    | CreateTable(name: string)
    | CreateIndex(name: string, table: string)
    | CreateTrigger(name: string, table: string, on: Mutation)

  type Schema = seq<Ddl>

  datatype Migration = Migration(version: nat, stmts: seq<Ddl>)

  const OBSERVATION := "observation"

  const LADDER: seq<Migration> := [
    Migration(1, [
      CreateTable(OBSERVATION),
      CreateIndex("observation_by_recorded", OBSERVATION),
      CreateIndex("observation_by_class", OBSERVATION),
      CreateIndex("observation_by_scope", OBSERVATION),
      CreateTrigger("observation_no_update", OBSERVATION, Update),
      CreateTrigger("observation_no_delete", OBSERVATION, Delete)])]

  const SCHEMA_VERSION: nat := 1

  predicate HasTable(schema: Schema, table: string) {
    CreateTable(table) in schema
  }

  /** Whether some trigger aborts this mutation of the observation table. */
  predicate Guarded(schema: Schema, m: Mutation) {
    exists d :: d in schema && d.CreateTrigger? && d.table == OBSERVATION && d.on == m
  }

  /** A CREATE fails when its name is taken or its table does not exist. */
  function Apply(schema: Schema, d: Ddl): Option<Schema> {
    if exists e :: e in schema && e.name == d.name then None
    else if !d.CreateTable? && !HasTable(schema, d.table) then None
    else Some(schema + [d])
  }

  function ApplyAll(schema: Schema, stmts: seq<Ddl>): Option<Schema>
    decreases |stmts|
  {
    if stmts == [] then Some(schema)
    else match Apply(schema, stmts[0])
      case None => None
      case Some(next) => ApplyAll(next, stmts[1..])
  }

  /** The statements of the steps a store at `version` has passed. */
  function Passed(ladder: seq<Migration>, version: nat): seq<Ddl> {
    if ladder == [] then []
    else (if ladder[0].version <= version then ladder[0].stmts else []) + Passed(ladder[1..], version)
  }

  /** The statements of the steps it has yet to climb. */
  function Pending(ladder: seq<Migration>, version: nat): seq<Ddl> {
    if ladder == [] then []
    else (if ladder[0].version <= version then [] else ladder[0].stmts) + Pending(ladder[1..], version)
  }

  function Whole(ladder: seq<Migration>): seq<Ddl> {
    if ladder == [] then [] else ladder[0].stmts + Whole(ladder[1..])
  }

  /** The ladder an older binary carries: steps are only ever appended. */
  function Older(ladder: seq<Migration>, version: nat): seq<Migration> {
    if ladder == [] || ladder[0].version > version then [] else [ladder[0]] + Older(ladder[1..], version)
  }

  predicate Increasing(ladder: seq<Migration>) {
    && (forall i :: 0 <= i < |ladder| ==> ladder[i].version > 0)
    && (forall i, j :: 0 <= i < j < |ladder| ==> ladder[i].version < ladder[j].version)
  }

  /** Strictly increasing, ending at `version`, and free of clashing statements. */
  predicate IsLadder(ladder: seq<Migration>, version: nat) {
    && Increasing(ladder)
    && ladder != [] && ladder[|ladder| - 1].version == version
    && ApplyAll([], Whole(ladder)) == Some(Whole(ladder))
  }

  /** A storage error: SQLITE_BUSY, or any other. */
  datatype Fault = Busy | Broken

  datatype ClimbError = NewerStore(recorded: nat, supported: nat) | BadStatement | Storage(fault: Fault)

  /** What one undisturbed climb makes of a version and a schema. */
  function Climb(ladder: seq<Migration>, supported: nat, version: nat, schema: Schema): Result<(nat, Schema), ClimbError> {
    if version > supported then Failure(NewerStore(version, supported))
    else match ApplyAll(schema, Pending(ladder, version))
      case None => Failure(BadStatement)
      case Some(next) => Success((if version < supported then supported else version, next))
  }

  /** The database file as one connection sees its committed state. */
  class Database {
    var version: nat
    var schema: Schema
    var rows: seq<Record>

    constructor ()
      ensures version == 0 && schema == [] && rows == []
    {
      version, schema, rows := 0, [], [];
    }
  }

  /**
   How many operations a climb that meets no fault puts to the database: BEGIN,
   reading the version, each pending statement, setting the version when it
   has to rise, and COMMIT. A newer store is turned away after two.
   */
  function Operations(ladder: seq<Migration>, supported: nat, version: nat): nat {
    if version > supported then 2
    else 2 + |Pending(ladder, version)| + (if version < supported then 1 else 0) + 1
  }

  /** The first fault among the first n operations. */
  function FirstFault(faults: nat -> Option<Fault>, n: nat): Option<Fault> {
    if n == 0 then None
    else if FirstFault(faults, n - 1).Some? then FirstFault(faults, n - 1)
    else faults(n - 1)
  }

  lemma {:induction false} FirstFaultStays(faults: nat -> Option<Fault>, m: nat, n: nat)
    requires m <= n && FirstFault(faults, m).Some?
    ensures FirstFault(faults, n) == FirstFault(faults, m)
  {
    if m < n {
      FirstFaultStays(faults, m, n - 1);
    }
  }

  /** A fault is met when it occurs and none occurs before it. */
  lemma {:induction false} FirstFaultMeans(faults: nat -> Option<Fault>, n: nat)
    ensures FirstFault(faults, n) == None <==> forall k :: 0 <= k < n ==> faults(k) == None
    ensures forall fault :: FirstFault(faults, n) == Some(fault) <==>
      exists k :: 0 <= k < n && faults(k) == Some(fault) && forall j :: 0 <= j < k ==> faults(j) == None
  {
    if n > 0 {
      FirstFaultMeans(faults, n - 1);
      if FirstFault(faults, n - 1) == None {
        assert forall k :: 0 <= k < n - 1 ==> faults(k) == None;
      } else {
        var k :| 0 <= k < n - 1 && faults(k) != None;
      }
    }
  }

  lemma FirstFaultNext(faults: nat -> Option<Fault>, n: nat)
    requires FirstFault(faults, n) == None
    ensures FirstFault(faults, n + 1) == faults(n)
  {
  }

  lemma NoFaultYet(faults: nat -> Option<Fault>)
    ensures FirstFault(faults, 0) == None
  {
  }

  lemma ApplyNothing(schema: Schema)
    ensures ApplyAll(schema, []) == Some(schema)
  {
  }

  /** Runs the statements of one step in order, the first as operation `op`. */
  method RunStatements(schema: Schema, stmts: seq<Ddl>, op: nat, faults: nat -> Option<Fault>) returns (r: Result<Schema, ClimbError>)
    requires FirstFault(faults, op) == None
    ensures r.Success? ==> ApplyAll(schema, stmts) == Some(r.value) && FirstFault(faults, op + |stmts|) == None
    ensures r.Failure? ==>
      if r.error.Storage? then FirstFault(faults, op + |stmts|) == Some(r.error.fault)
      else r.error == BadStatement && ApplyAll(schema, stmts) == None
  {
    hide FirstFault;
    var work := schema;
    for j := 0 to |stmts|
      invariant ApplyAll(schema, stmts) == ApplyAll(work, stmts[j..])
      invariant FirstFault(faults, op + j) == None
    {
      FirstFaultNext(faults, op + j);
      if faults(op + j).Some? {
        FirstFaultStays(faults, op + j + 1, op + |stmts|);
        return Failure(Storage(faults(op + j).value));
      }
      assert stmts[j..][0] == stmts[j] && stmts[j..][1..] == stmts[j + 1..];
      match Apply(work, stmts[j]) {
        case None =>
          return Failure(BadStatement);
        case Some(next) =>
          work := next;
      }
    }
    return Success(work);
  }

  /**
   Brings a database up to `supported` inside one transaction. The k-th
   operation on the transaction fails when `faults` says so, and then nothing
   of the transaction is committed.
   */
  method Migrate(db: Database, ladder: seq<Migration>, supported: nat, faults: nat -> Option<Fault>)
    returns (r: Result<(), ClimbError>)
    modifies db`version, db`schema
    ensures r.Failure? ==> db.version == old(db.version) && db.schema == old(db.schema)
    ensures r.Success? ==> Climb(ladder, supported, old(db.version), old(db.schema)) == Success((db.version, db.schema))
    ensures r.Failure? && !r.error.Storage? ==> Climb(ladder, supported, old(db.version), old(db.schema)) == Failure(r.error)
    ensures
      var fault := FirstFault(faults, Operations(ladder, supported, old(db.version)));
      && (r.Failure? && r.error.Storage? ==> fault == Some(r.error.fault))
      && (r.Success? || r.error.NewerStore? ==> fault == None)
  {
    hide FirstFault, ApplyAll;
    ghost var operations := Operations(ladder, supported, db.version);
    NoFaultYet(faults);
    FirstFaultNext(faults, 0);
    if faults(0).Some? {
      FirstFaultStays(faults, 1, operations);
      return Failure(Storage(faults(0).value));
    }
    var current := db.version;
    FirstFaultNext(faults, 1);
    if faults(1).Some? {
      FirstFaultStays(faults, 2, operations);
      return Failure(Storage(faults(1).value));
    }
    if current > supported {
      return Failure(NewerStore(current, supported));
    }

    var work := db.schema;
    var op: nat := 2;
    ghost var todo := Pending(ladder, current);
    for i := 0 to |ladder|
      invariant db.version == current && db.schema == old(db.schema)
      invariant ApplyAll(db.schema, Pending(ladder, current)) == ApplyAll(work, todo)
      invariant todo == Pending(ladder[i..], current)
      invariant op + |todo| == 2 + |Pending(ladder, current)| && FirstFault(faults, op) == None
    {
      assert ladder[i..][1..] == ladder[i + 1..];
      if ladder[i].version <= current {
        continue;
      }
      assert todo == ladder[i].stmts + Pending(ladder[i + 1..], current);
      todo := Pending(ladder[i + 1..], current);
      ApplyAllConcat(work, ladder[i].stmts, todo);
      var ran := RunStatements(work, ladder[i].stmts, op, faults);
      op := op + |ladder[i].stmts|;
      if ran.Failure? {
        if ran.error.Storage? {
          FirstFaultStays(faults, op, operations);
        }
        return Failure(ran.error);
      }
      work := ran.value;
    }
    ApplyNothing(work);
    FirstFaultNext(faults, op);

    var version := current;
    if current < supported {
      if faults(op).Some? {
        FirstFaultStays(faults, op + 1, operations);
        return Failure(Storage(faults(op).value));
      }
      version := supported;
      op := op + 1;
      FirstFaultNext(faults, op);
    }
    if faults(op).Some? {
      return Failure(Storage(faults(op).value));
    }
    db.version, db.schema := version, work;
    return Success(());
  }

  // ---------- Properties of the climb ----------

  lemma {:induction false} ApplyAllConcat(schema: Schema, a: seq<Ddl>, b: seq<Ddl>)
    ensures ApplyAll(schema, a + b)
         == match ApplyAll(schema, a) case None => None case Some(next) => ApplyAll(next, b)
    decreases |a|
  {
    if a == [] {
      assert a + b == b;
    } else {
      assert (a + b)[1..] == a[1..] + b;
      match Apply(schema, a[0])
      case None =>
      case Some(next) => ApplyAllConcat(next, a[1..], b);
    }
  }

  /** A schema only ever grows by the statements that were applied. */
  lemma {:induction false} ApplyAllAppends(schema: Schema, stmts: seq<Ddl>)
    ensures ApplyAll(schema, stmts).Some? ==> ApplyAll(schema, stmts).value == schema + stmts
    decreases |stmts|
  {
    if stmts != [] {
      match Apply(schema, stmts[0])
      case None =>
      case Some(next) =>
        ApplyAllAppends(next, stmts[1..]);
        assert schema + [stmts[0]] + stmts[1..] == schema + stmts;
    }
  }

  lemma {:induction false} PassedNone(ladder: seq<Migration>, version: nat)
    requires forall i :: 0 <= i < |ladder| ==> ladder[i].version > version
    ensures Passed(ladder, version) == [] && Pending(ladder, version) == Whole(ladder)
  {
    if ladder != [] {
      PassedNone(ladder[1..], version);
    }
  }

  lemma {:induction false} PendingNone(ladder: seq<Migration>, version: nat)
    requires forall i :: 0 <= i < |ladder| ==> ladder[i].version <= version
    ensures Pending(ladder, version) == [] && Passed(ladder, version) == Whole(ladder)
    ensures Older(ladder, version) == ladder
  {
    if ladder != [] {
      PendingNone(ladder[1..], version);
    }
  }

  /** What is passed and what is pending make up the whole ladder, in order. */
  lemma {:induction false} PassedThenPending(ladder: seq<Migration>, version: nat)
    requires Increasing(ladder)
    ensures Passed(ladder, version) + Pending(ladder, version) == Whole(ladder)
  {
    if ladder != [] {
      if ladder[0].version <= version {
        PassedThenPending(ladder[1..], version);
        assert ladder[0].stmts + Passed(ladder[1..], version) + ([] + Pending(ladder[1..], version))
            == ladder[0].stmts + (Passed(ladder[1..], version) + Pending(ladder[1..], version));
      } else {
        PassedNone(ladder, version);
      }
    }
  }

  lemma LadderBounds(ladder: seq<Migration>, supported: nat)
    requires IsLadder(ladder, supported)
    ensures Passed(ladder, 0) == [] && Passed(ladder, supported) == Whole(ladder)
    ensures Pending(ladder, supported) == [] && Older(ladder, supported) == ladder
  {
    PassedNone(ladder, 0);
    PendingNone(ladder, supported);
  }

  /** What is passed at any version applies cleanly from nothing, and the rest applies after it. */
  lemma PassedApplies(ladder: seq<Migration>, supported: nat, version: nat)
    requires IsLadder(ladder, supported)
    ensures ApplyAll([], Passed(ladder, version)) == Some(Passed(ladder, version))
    ensures ApplyAll(Passed(ladder, version), Pending(ladder, version)) == Some(Whole(ladder))
  {
    PassedThenPending(ladder, version);
    ApplyAllConcat([], Passed(ladder, version), Pending(ladder, version));
    ApplyAllAppends([], Passed(ladder, version));
    assert [] + Passed(ladder, version) == Passed(ladder, version);
  }

  /**
   A store at any recorded version not above the binary's reaches the schema a
   climb from nothing reaches; climbing again changes nothing.
   */
  lemma ClimbReachesTop(ladder: seq<Migration>, supported: nat, version: nat)
    requires IsLadder(ladder, supported) && version <= supported
    ensures Climb(ladder, supported, version, Passed(ladder, version)) == Climb(ladder, supported, 0, [])
    ensures Climb(ladder, supported, 0, []) == Success((supported, Passed(ladder, supported)))
    ensures Climb(ladder, supported, supported, Passed(ladder, supported)) == Success((supported, Passed(ladder, supported)))
  {
    LadderBounds(ladder, supported);
    PassedApplies(ladder, supported, version);
    PassedApplies(ladder, supported, 0);
    PassedApplies(ladder, supported, supported);
  }

  /** An older ladder is made of the steps up to the cut, in order. */
  lemma {:induction false} OlderSteps(ladder: seq<Migration>, cut: nat)
    requires Increasing(ladder)
    ensures Increasing(Older(ladder, cut))
    ensures forall m :: m in Older(ladder, cut) ==> m in ladder && m.version <= cut
  {
    if ladder != [] && ladder[0].version <= cut {
      OlderSteps(ladder[1..], cut);
      StepAhead(ladder[0], ladder[1..], Older(ladder[1..], cut));
    }
  }

  lemma StepAhead(first: Migration, rest: seq<Migration>, older: seq<Migration>)
    requires Increasing([first] + rest) && Increasing(older)
    requires forall m :: m in older ==> m in rest
    ensures Increasing([first] + older)
  {
    var ladder := [first] + rest;
    forall m | m in older
      ensures m.version > first.version
    {
      var i :| 0 <= i < |rest| && rest[i] == m;
      assert ladder[i + 1] == m && ladder[0] == first;
    }
    assert ladder[0] == first;
  }

  /** An older ladder agrees with the full one on every version it knows. */
  lemma {:induction false} OlderAgrees(ladder: seq<Migration>, cut: nat, version: nat)
    requires Increasing(ladder)
    ensures Whole(Older(ladder, cut)) == Passed(ladder, cut)
    ensures version <= cut ==> Passed(Older(ladder, cut), version) == Passed(ladder, version)
  {
    if ladder == [] {
    } else if ladder[0].version > cut {
      PassedNone(ladder, cut);
      if version <= cut {
        PassedNone(ladder, version);
      }
    } else {
      OlderAgrees(ladder[1..], cut, version);
      assert Older(ladder, cut)[1..] == Older(ladder[1..], cut);
    }
  }

  lemma OlderIsLadder(ladder: seq<Migration>, supported: nat, cut: nat)
    requires IsLadder(ladder, supported)
    requires exists i :: 0 <= i < |ladder| && ladder[i].version == cut
    ensures IsLadder(Older(ladder, cut), cut)
  {
    hide Passed, Whole, Older, ApplyAll;
    OlderSteps(ladder, cut);
    OlderAgrees(ladder, cut, cut);
    PassedApplies(ladder, supported, cut);
    OlderEndsAt(ladder, cut);
  }

  lemma {:induction false} OlderEndsAt(ladder: seq<Migration>, cut: nat)
    requires Increasing(ladder)
    requires exists i :: 0 <= i < |ladder| && ladder[i].version == cut
    ensures Older(ladder, cut) != [] && Older(ladder, cut)[|Older(ladder, cut)| - 1].version == cut
  {
    if ladder[0].version != cut {
      var i :| 0 <= i < |ladder| && ladder[i].version == cut;
      assert ladder[1..][i - 1].version == cut;
      OlderEndsAt(ladder[1..], cut);
    } else {
      PassedNoneAbove(ladder[1..], cut);
    }
  }

  lemma PassedNoneAbove(ladder: seq<Migration>, cut: nat)
    requires forall i :: 0 <= i < |ladder| ==> ladder[i].version > cut
    ensures Older(ladder, cut) == []
  {
  }

  /** No step of a ladder is beyond its last. */
  lemma LadderTop(ladder: seq<Migration>, supported: nat, cut: nat)
    requires IsLadder(ladder, supported)
    requires exists i :: 0 <= i < |ladder| && ladder[i].version == cut
    ensures cut <= supported && Increasing(ladder)
  {
  }

  /** Stopping at an older binary's version and going on with a newer one is one climb. */
  lemma ClimbInTwo(ladder: seq<Migration>, supported: nat, cut: nat, version: nat)
    requires IsLadder(ladder, supported) && version <= cut
    requires exists i :: 0 <= i < |ladder| && ladder[i].version == cut
    ensures Climb(Older(ladder, cut), cut, version, Passed(ladder, version)) == Success((cut, Passed(ladder, cut)))
    ensures Climb(ladder, supported, cut, Passed(ladder, cut)) == Climb(ladder, supported, version, Passed(ladder, version))
  {
    hide *;
    LadderTop(ladder, supported, cut);
    OlderIsLadder(ladder, supported, cut);
    OlderAgrees(ladder, cut, version);
    OlderAgrees(ladder, cut, cut);
    ClimbReachesTop(Older(ladder, cut), cut, version);
    LadderBounds(Older(ladder, cut), cut);
    ClimbReachesTop(ladder, supported, cut);
    ClimbReachesTop(ladder, supported, version);
  }

  /** The shipped ladder is one, and any schema it leaves behind guards its table. */
  lemma ShippedLadder()
    ensures IsLadder(LADDER, SCHEMA_VERSION)
    ensures Guarded(Whole(LADDER), Update) && Guarded(Whole(LADDER), Delete)
  {
    var stmts := LADDER[0].stmts;
    assert Whole(LADDER) == stmts by {
      assert LADDER[1..] == [];
    }
    assert forall i :: 0 < i < |stmts| ==> stmts[..i][0] == CreateTable(OBSERVATION);
    ApplyNames(stmts);
    assert stmts[4] in stmts && stmts[5] in stmts;
  }

  /** A first climb of the shipped ladder takes ten operations, an up-to-date store three and a newer one two. */
  lemma ShippedOperations()
    ensures Operations(LADDER, SCHEMA_VERSION, 0) == 10
    ensures Operations(LADDER, SCHEMA_VERSION, 1) == 3
    ensures forall version :: version > 1 ==> Operations(LADDER, SCHEMA_VERSION, version) == 2
  {
    assert LADDER[1..] == [];
    assert Pending(LADDER, 0) == LADDER[0].stmts + [] && Pending(LADDER, 1) == [] + [];
  }

  /** Statements with distinct names whose tables come first apply cleanly. */
  lemma {:induction false} ApplyNames(stmts: seq<Ddl>)
    requires forall i, j :: 0 <= i < j < |stmts| ==> stmts[i].name != stmts[j].name
    requires forall i :: 0 <= i < |stmts| ==> stmts[i].CreateTable? || CreateTable(stmts[i].table) in stmts[..i]
    ensures ApplyAll([], stmts) == Some(stmts)
  {
    if stmts != [] {
      var n := |stmts| - 1;
      assert forall i :: 0 <= i < n ==> stmts[..n][..i] == stmts[..i];
      ApplyNames(stmts[..n]);
      ApplyAllConcat([], stmts[..n], [stmts[n]]);
      assert stmts == stmts[..n] + [stmts[n]];
      assert Apply(stmts[..n], stmts[n]) == Some(stmts);
      assert [stmts[n]][1..] == [];
    }
  }
}
