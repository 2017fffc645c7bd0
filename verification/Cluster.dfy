/**
 Any number of processes on one store: cold start, migration, recording and
 attempts to change what was recorded, interleaved statement by statement.

 SQLite contributes one write lock, a committed state that only a commit
 changes, and "busy" as a possible answer at any point. Processes may run
 binaries of different ages: each carries the part of one master ladder up to
 the version it supports.
 */
module Cluster {
  import opened Wrappers
  import opened Timestamps
  import opened Identifiers
  import opened Observations
  import opened Schema
  import opened Store

  type Pid = nat

  /** The master ladder, its last version, and the version each process supports. */
  datatype Config = Config(ladder: seq<Migration>, top: nat, supports: map<Pid, nat>)

  predicate IsStep(ladder: seq<Migration>, version: nat) {
    exists i :: 0 <= i < |ladder| && ladder[i].version == version
  }

  /** Wherever the ladder has created the table, it has guarded it too. */
  ghost predicate KeepsGuards(ladder: seq<Migration>) {
    forall v: nat :: HasTable(Passed(ladder, v), OBSERVATION) ==>
      Guarded(Passed(ladder, v), Update) && Guarded(Passed(ladder, v), Delete)
  }

  ghost predicate IsConfig(c: Config) {
    && IsLadder(c.ladder, c.top) && KeepsGuards(c.ladder)
    && forall p :: p in c.supports ==> IsStep(c.ladder, c.supports[p])
  }

  datatype Failure = NoStoreFile | StayedLocked | GaveUp | StorageFault | Newer(recorded: nat) | Conflict

  /** Where a process stands; from Began to Versioned it holds the write lock. */
  datatype Phase =
    | Absent
    | Waiting(attempt: nat)
    | Connected(attempt: nat)
    | Began(attempt: nat)
    | Climbing(attempt: nat, todo: seq<Ddl>, work: Schema)
    | Versioned(attempt: nat, work: Schema)
    | Opened
    | Appending(rec: Record)
    | Failed(why: Failure)

  /**
   The committed state, the lock and the processes. `acked` holds the records
   whose insert was reported as done; `commits` is the history of inserts.
   */
  datatype State = State(
    version: nat, schema: Schema, rows: seq<Record>, lock: Option<Pid>,
    procs: map<Pid, Phase>, acked: set<Record>, commits: seq<Record>)

  datatype Insertion = Acknowledged | Unanswered | NotDone

  datatype Action =
    | CreateFile(ok: bool)
    | Ping(fault: Option<Fault>)
    | Begin(fault: Option<Fault>)
    | ReadVersion(fault: Option<Fault>)
    | Exec(fault: Option<Fault>)
    | SetVersion(fault: Option<Fault>)
    | Commit(fault: Option<Fault>)
    | Cancel
    | Stamp(o: Observation, at: Instant, random: seq<bv8>)
    | Insert(outcome: Insertion)
    | Mutate(kind: Mutation, result: seq<Record>)
    | Query
    | Close
    | Crash

  function At(s: State, p: Pid): Phase {
    if p in s.procs then s.procs[p] else Absent
  }

  function Move(s: State, p: Pid, phase: Phase): State {
    s.(procs := s.procs[p := phase])
  }

  function Unlock(s: State): State {
    s.(lock := None)
  }

  /** After a fault: busy asks for another attempt while there are any; anything else ends the opening. */
  function AfterFault(attempt: nat, fault: Fault): Phase {
    if fault == Broken then Failed(StorageFault)
    else if attempt + 1 < INIT_ATTEMPTS then Waiting(attempt + 1)
    else Failed(StayedLocked)
  }

  predicate HoldsLock(ph: Phase) {
    ph.Began? || ph.Climbing? || ph.Versioned?
  }

  /** The step of process p that an action names, if it can happen. */
  function Step(c: Config, s: State, p: Pid, a: Action): Option<State> {
    if p !in c.supports then None
    else match a
      case CreateFile(ok) => StepCreate(s, p, ok)
      case Ping(fault) => StepPing(s, p, fault)
      case Begin(fault) => StepBegin(s, p, fault)
      case ReadVersion(fault) => StepRead(c, s, p, fault)
      case Exec(fault) => StepExec(s, p, fault)
      case SetVersion(fault) => StepSetVersion(s, p, fault)
      case Commit(fault) => StepCommit(c, s, p, fault)
      case Cancel =>
        if At(s, p).Waiting? && At(s, p).attempt > 0 then Some(Move(s, p, Failed(GaveUp))) else None
      case Stamp(o, at, random) =>
        if At(s, p).Opened? && |random| == 10
        then Some(Move(s, p, Appending(Record(Uuid(Millis(at), random), FormatTime(at), o)))) else None
      case Insert(outcome) => StepInsert(s, p, outcome)
      case Mutate(kind, result) => StepMutate(s, p, kind, result)
      case Query => if At(s, p).Opened? then Some(s) else None
      case Close => if At(s, p).Opened? then Some(Move(s, p, Absent)) else None
      case Crash => Some(Move(if HoldsLock(At(s, p)) then Unlock(s) else s, p, Absent))
  }

  /** The file is created exclusively, or was there already. */
  function StepCreate(s: State, p: Pid, ok: bool): Option<State> {
    if !(At(s, p).Absent? || At(s, p).Failed?) then None
    else if ok then Some(Move(s, p, Waiting(0)))
    else Some(Move(s, p, Failed(NoStoreFile)))
  }

  function StepPing(s: State, p: Pid, fault: Option<Fault>): Option<State> {
    if !At(s, p).Waiting? then None
    else if fault.Some? then Some(Move(s, p, AfterFault(At(s, p).attempt, fault.value)))
    else Some(Move(s, p, Connected(At(s, p).attempt)))
  }

  /** BEGIN IMMEDIATE takes the write lock or does not begin. */
  function StepBegin(s: State, p: Pid, fault: Option<Fault>): Option<State> {
    if !At(s, p).Connected? then None
    else if fault.Some? then Some(Move(s, p, AfterFault(At(s, p).attempt, fault.value)))
    else if s.lock.Some? then None
    else Some(Move(s.(lock := Some(p)), p, Began(At(s, p).attempt)))
  }

  function StepRead(c: Config, s: State, p: Pid, fault: Option<Fault>): Option<State>
    requires p in c.supports
  {
    if !At(s, p).Began? then None
    else if fault.Some? then Some(Move(Unlock(s), p, AfterFault(At(s, p).attempt, fault.value)))
    else if s.version > c.supports[p] then Some(Move(Unlock(s), p, Failed(Newer(s.version))))
    else
      var ladder := Older(c.ladder, c.supports[p]);
      Some(Move(s, p, Climbing(At(s, p).attempt, Pending(ladder, s.version), s.schema)))
  }

  function StepExec(s: State, p: Pid, fault: Option<Fault>): Option<State> {
    if !At(s, p).Climbing? || At(s, p).todo == [] then None
    else if fault.Some? then Some(Move(Unlock(s), p, AfterFault(At(s, p).attempt, fault.value)))
    else match Apply(At(s, p).work, At(s, p).todo[0])
      case None => Some(Move(Unlock(s), p, Failed(Conflict)))
      case Some(work) => Some(Move(s, p, Climbing(At(s, p).attempt, At(s, p).todo[1..], work)))
  }

  /** user_version is set inside the transaction, when it has to rise at all. */
  function StepSetVersion(s: State, p: Pid, fault: Option<Fault>): Option<State> {
    if !At(s, p).Climbing? || At(s, p).todo != [] then None
    else if fault.Some? then Some(Move(Unlock(s), p, AfterFault(At(s, p).attempt, fault.value)))
    else Some(Move(s, p, Versioned(At(s, p).attempt, At(s, p).work)))
  }

  function StepCommit(c: Config, s: State, p: Pid, fault: Option<Fault>): Option<State>
    requires p in c.supports
  {
    if !At(s, p).Versioned? then None
    else if fault.Some? then Some(Move(Unlock(s), p, AfterFault(At(s, p).attempt, fault.value)))
    else
      var version := if s.version < c.supports[p] then c.supports[p] else s.version;
      Some(Move(Unlock(s).(version := version, schema := At(s, p).work), p, Opened))
  }

  /** The autocommitted INSERT: it may be done and acknowledged, done but not answered, or not done. */
  function StepInsert(s: State, p: Pid, outcome: Insertion): Option<State> {
    if !At(s, p).Appending? then None
    else
      var rec := At(s, p).rec;
      if outcome == NotDone then Some(Move(s, p, Opened))
      else if s.lock.Some? || !HasTable(s.schema, OBSERVATION) || exists r :: r in s.rows && r.id == rec.id then None
      else
        var done := s.(rows := s.rows + [rec], commits := s.commits + [rec]);
        Some(Move(if outcome == Acknowledged then done.(acked := done.acked + {rec}) else done, p, Opened))
  }

  /** An UPDATE or DELETE: a guard aborts it; without one it could do anything to the rows. */
  function StepMutate(s: State, p: Pid, kind: Mutation, result: seq<Record>): Option<State> {
    if !At(s, p).Opened? || s.lock.Some? then None
    else if !HasTable(s.schema, OBSERVATION) || Guarded(s.schema, kind) then Some(s)
    else Some(s.(rows := result))
  }

  // ---------- The invariant ----------

  /** What holds of one process, given the committed version and the lock. */
  ghost predicate ProcOk(c: Config, version: nat, lock: Option<Pid>, p: Pid, ph: Phase) {
    && (ph != Absent ==> p in c.supports)
    && (HoldsLock(ph) <==> lock == Some(p))
    && match ph
       case Waiting(attempt) => attempt < INIT_ATTEMPTS
       case Connected(attempt) => attempt < INIT_ATTEMPTS
       case Began(attempt) => attempt < INIT_ATTEMPTS
       case Climbing(attempt, todo, work) =>
         && attempt < INIT_ATTEMPTS && version <= c.supports[p]
         && ApplyAll(work, todo) == Some(Passed(c.ladder, c.supports[p]))
       case Versioned(attempt, work) =>
         attempt < INIT_ATTEMPTS && version <= c.supports[p] && work == Passed(c.ladder, c.supports[p])
       case Opened => c.supports[p] <= version
       case Appending(_) => c.supports[p] <= version
       case Failed(why) => why != Conflict
       case Absent => true
  }

  ghost predicate Inv(c: Config, s: State) {
    && s.schema == Passed(c.ladder, s.version)
    && (s.version == 0 || IsStep(c.ladder, s.version))
    && UniqueIds(s.rows) && s.rows == s.commits
    && (forall r :: r in s.acked ==> r in s.rows)
    && (forall p: Pid :: ProcOk(c, s.version, s.lock, p, At(s, p)))
  }

  function Init(): State {
    State(0, [], [], None, map[], {}, [])
  }

  lemma InitHolds(c: Config)
    requires IsConfig(c)
    ensures Inv(c, Init())
  {
    PassedNone(c.ladder, 0);
  }

  /** A step that touches neither committed state nor lock keeps the invariant if its process is fine. */
  lemma MoveKeeps(c: Config, s: State, p: Pid, ph: Phase)
    requires Inv(c, s) && ProcOk(c, s.version, s.lock, p, ph)
    ensures Inv(c, Move(s, p, ph))
  {
    forall q: Pid
      ensures ProcOk(c, s.version, s.lock, q, At(Move(s, p, ph), q))
    {
      assert ProcOk(c, s.version, s.lock, q, At(s, q));
    }
  }

  /** Giving the lock back, with the work thrown away. */
  lemma ReleaseKeeps(c: Config, s: State, p: Pid, ph: Phase)
    requires Inv(c, s) && HoldsLock(At(s, p)) && ProcOk(c, s.version, None, p, ph)
    ensures Inv(c, Move(Unlock(s), p, ph))
  {
    var t := Move(Unlock(s), p, ph);
    assert ProcOk(c, s.version, s.lock, p, At(s, p));
    forall q: Pid
      ensures ProcOk(c, t.version, t.lock, q, At(t, q))
    {
      assert ProcOk(c, s.version, s.lock, q, At(s, q));
    }
  }

  lemma CreateKeeps(c: Config, s: State, p: Pid, ok: bool)
    requires Inv(c, s) && p in c.supports && StepCreate(s, p, ok).Some?
    ensures Inv(c, StepCreate(s, p, ok).value)
  {
    assert ProcOk(c, s.version, s.lock, p, At(s, p));
    MoveKeeps(c, s, p, Waiting(0));
    MoveKeeps(c, s, p, Failed(NoStoreFile));
  }

  lemma BeginKeeps(c: Config, s: State, p: Pid, fault: Option<Fault>)
    requires Inv(c, s) && p in c.supports && StepBegin(s, p, fault).Some?
    ensures Inv(c, StepBegin(s, p, fault).value)
  {
    var t := StepBegin(s, p, fault).value;
    assert ProcOk(c, s.version, s.lock, p, At(s, p));
    if fault.Some? {
      MoveKeeps(c, s, p, AfterFault(At(s, p).attempt, fault.value));
    } else {
      forall q: Pid
        ensures ProcOk(c, t.version, t.lock, q, At(t, q))
      {
        assert ProcOk(c, s.version, s.lock, q, At(s, q));
      }
    }
  }

  /** The statements a binary has yet to run take the committed schema to its own version's. */
  lemma PendingReaches(c: Config, s: State, p: Pid)
    requires IsConfig(c) && Inv(c, s) && p in c.supports && s.version <= c.supports[p]
    ensures ApplyAll(s.schema, Pending(Older(c.ladder, c.supports[p]), s.version)) == Some(Passed(c.ladder, c.supports[p]))
  {
    var cut := c.supports[p];
    OlderIsLadder(c.ladder, c.top, cut);
    OlderAgrees(c.ladder, cut, s.version);
    PassedApplies(Older(c.ladder, cut), cut, s.version);
  }

  lemma ReadKeeps(c: Config, s: State, p: Pid, fault: Option<Fault>)
    requires IsConfig(c) && Inv(c, s) && p in c.supports && StepRead(c, s, p, fault).Some?
    ensures Inv(c, StepRead(c, s, p, fault).value)
  {
    assert ProcOk(c, s.version, s.lock, p, At(s, p));
    if fault.Some? {
      ReleaseKeeps(c, s, p, AfterFault(At(s, p).attempt, fault.value));
    } else if s.version > c.supports[p] {
      ReleaseKeeps(c, s, p, Failed(Newer(s.version)));
    } else {
      PendingReaches(c, s, p);
      MoveKeeps(c, s, p, StepRead(c, s, p, fault).value.procs[p]);
    }
  }

  lemma ExecKeeps(c: Config, s: State, p: Pid, fault: Option<Fault>)
    requires Inv(c, s) && p in c.supports && StepExec(s, p, fault).Some?
    ensures Inv(c, StepExec(s, p, fault).value)
  {
    assert ProcOk(c, s.version, s.lock, p, At(s, p));
    if fault.Some? {
      ReleaseKeeps(c, s, p, AfterFault(At(s, p).attempt, fault.value));
    } else {
      MoveKeeps(c, s, p, StepExec(s, p, fault).value.procs[p]);
    }
  }

  lemma SetVersionKeeps(c: Config, s: State, p: Pid, fault: Option<Fault>)
    requires Inv(c, s) && p in c.supports && StepSetVersion(s, p, fault).Some?
    ensures Inv(c, StepSetVersion(s, p, fault).value)
  {
    assert ProcOk(c, s.version, s.lock, p, At(s, p));
    if fault.Some? {
      ReleaseKeeps(c, s, p, AfterFault(At(s, p).attempt, fault.value));
    } else {
      MoveKeeps(c, s, p, StepSetVersion(s, p, fault).value.procs[p]);
    }
  }

  lemma CommitKeeps(c: Config, s: State, p: Pid, fault: Option<Fault>)
    requires IsConfig(c) && Inv(c, s) && p in c.supports && StepCommit(c, s, p, fault).Some?
    ensures Inv(c, StepCommit(c, s, p, fault).value)
    ensures fault.None? ==> StepCommit(c, s, p, fault).value.version == c.supports[p] >= s.version
  {
    var t := StepCommit(c, s, p, fault).value;
    assert ProcOk(c, s.version, s.lock, p, At(s, p));
    if fault.Some? {
      ReleaseKeeps(c, s, p, AfterFault(At(s, p).attempt, fault.value));
    } else {
      forall q: Pid
        ensures ProcOk(c, t.version, t.lock, q, At(t, q))
      {
        assert ProcOk(c, s.version, s.lock, q, At(s, q));
      }
    }
  }

  lemma InsertKeeps(c: Config, s: State, p: Pid, outcome: Insertion)
    requires Inv(c, s) && p in c.supports && StepInsert(s, p, outcome).Some?
    ensures Inv(c, StepInsert(s, p, outcome).value)
  {
    var t := StepInsert(s, p, outcome).value;
    assert ProcOk(c, s.version, s.lock, p, At(s, p));
    if outcome == NotDone {
      MoveKeeps(c, s, p, Opened);
    } else {
      forall q: Pid
        ensures ProcOk(c, t.version, t.lock, q, At(t, q))
      {
        assert ProcOk(c, s.version, s.lock, q, At(s, q));
      }
      var rec := At(s, p).rec;
      assert forall i :: 0 <= i < |s.rows| ==> s.rows[i].id != rec.id;
    }
  }

  lemma CrashKeeps(c: Config, s: State, p: Pid)
    requires Inv(c, s) && p in c.supports
    ensures Inv(c, Step(c, s, p, Crash).value)
  {
    assert ProcOk(c, s.version, s.lock, p, At(s, p));
    if HoldsLock(At(s, p)) {
      ReleaseKeeps(c, s, p, Absent);
    } else {
      MoveKeeps(c, s, p, Absent);
    }
  }

  /** No step of any process breaks the invariant. */
  lemma StepKeeps(c: Config, s: State, p: Pid, a: Action)
    requires IsConfig(c) && Inv(c, s) && Step(c, s, p, a).Some?
    ensures Inv(c, Step(c, s, p, a).value)
  {
    hide Inv, IsConfig;
    match a
    case CreateFile(ok) => CreateKeeps(c, s, p, ok);
    case Ping(fault) => PingKeeps(c, s, p, fault);
    case Begin(fault) => BeginKeeps(c, s, p, fault);
    case ReadVersion(fault) => ReadKeeps(c, s, p, fault);
    case Exec(fault) => ExecKeeps(c, s, p, fault);
    case SetVersion(fault) => SetVersionKeeps(c, s, p, fault);
    case Commit(fault) => CommitKeeps(c, s, p, fault);
    case Insert(outcome) => InsertKeeps(c, s, p, outcome);
    case Mutate(kind, result) => MutateKeeps(c, s, p, kind, result);
    case Crash => CrashKeeps(c, s, p);
    case Query =>
    case Cancel => PlainMoveKeeps(c, s, p, a);
    case Stamp(_, _, _) => PlainMoveKeeps(c, s, p, a);
    case Close => PlainMoveKeeps(c, s, p, a);
  }

  lemma PlainMove(c: Config, s: State, p: Pid, a: Action)
    requires ProcOk(c, s.version, s.lock, p, At(s, p)) && (a.Cancel? || a.Stamp? || a.Close?) && Step(c, s, p, a).Some?
    ensures
      var t := Step(c, s, p, a).value;
      t == Move(s, p, At(t, p)) && ProcOk(c, s.version, s.lock, p, At(t, p))
  {
  }

  lemma PlainMoveKeeps(c: Config, s: State, p: Pid, a: Action)
    requires Inv(c, s) && (a.Cancel? || a.Stamp? || a.Close?) && Step(c, s, p, a).Some?
    ensures Inv(c, Step(c, s, p, a).value)
  {
    assert ProcOk(c, s.version, s.lock, p, At(s, p));
    hide *;
    PlainMove(c, s, p, a);
    MoveKeeps(c, s, p, At(Step(c, s, p, a).value, p));
  }

  lemma PingKeeps(c: Config, s: State, p: Pid, fault: Option<Fault>)
    requires Inv(c, s) && p in c.supports && StepPing(s, p, fault).Some?
    ensures Inv(c, StepPing(s, p, fault).value)
  {
    assert ProcOk(c, s.version, s.lock, p, At(s, p));
    MoveKeeps(c, s, p, StepPing(s, p, fault).value.procs[p]);
  }

  /** An UPDATE or DELETE never gets past the triggers. */
  lemma MutateKeeps(c: Config, s: State, p: Pid, kind: Mutation, result: seq<Record>)
    requires IsConfig(c) && Inv(c, s) && StepMutate(s, p, kind, result).Some?
    ensures StepMutate(s, p, kind, result).value == s && Inv(c, StepMutate(s, p, kind, result).value)
  {
    assert HasTable(Passed(c.ladder, s.version), OBSERVATION) ==> Guarded(Passed(c.ladder, s.version), kind);
  }

  // ---------- Runs ----------

  datatype Event = Event(pid: Pid, action: Action)

  /** States joined by steps, from the empty beginning. */
  ghost predicate IsRun(c: Config, states: seq<State>, events: seq<Event>) {
    && |states| == |events| + 1
    && states[0] == Init()
    && forall i :: 0 <= i < |events| ==> Step(c, states[i], events[i].pid, events[i].action) == Some(states[i + 1])
  }

  lemma {:induction false} RunKeeps(c: Config, states: seq<State>, events: seq<Event>, i: nat)
    requires IsConfig(c) && IsRun(c, states, events) && i < |states|
    ensures Inv(c, states[i])
  {
    if i == 0 {
      InitHolds(c);
    } else {
      RunKeeps(c, states, events, i - 1);
      assert Step(c, states[i - 1], events[i - 1].pid, events[i - 1].action) == Some(states[i - 1 + 1]);
      StepKeeps(c, states[i - 1], events[i - 1].pid, events[i - 1].action);
    }
  }

  /** Time only adds: to the version, to the rows at their end, and to what was acknowledged. */
  ghost predicate Grows(s: State, t: State) {
    s.version <= t.version && s.rows <= t.rows && s.acked <= t.acked && s.schema <= t.schema
  }

  lemma CommitGrows(c: Config, s: State, p: Pid, fault: Option<Fault>)
    requires IsConfig(c) && Inv(c, s) && p in c.supports && StepCommit(c, s, p, fault).Some?
    ensures Grows(s, StepCommit(c, s, p, fault).value)
  {
    CommitKeeps(c, s, p, fault);
    hide ProcOk, KeepsGuards, Passed;
    if fault.None? {
      PassedGrows(c.ladder, s.version, c.supports[p]);
    }
  }

  lemma GrowsAlready(s: State, t: State)
    requires s.version == t.version && s.schema == t.schema && s.rows <= t.rows && s.acked <= t.acked
    ensures Grows(s, t)
  {
  }

  lemma PlainStepGrows(c: Config, s: State, p: Pid, a: Action)
    requires Step(c, s, p, a).Some? && !a.Commit? && !a.Mutate?
    ensures Grows(s, Step(c, s, p, a).value)
  {
    hide AfterFault, Apply, Pending, Older, Uuid, FormatTime, HasTable;
  }

  lemma StepGrows(c: Config, s: State, p: Pid, a: Action)
    requires IsConfig(c) && Inv(c, s) && Step(c, s, p, a).Some?
    ensures Grows(s, Step(c, s, p, a).value)
  {
    hide Inv, IsConfig, Grows;
    if a.Commit? {
      hide StepCommit;
      CommitGrows(c, s, p, a.fault);
    } else if a.Mutate? {
      hide StepMutate;
      MutateKeeps(c, s, p, a.kind, a.result);
      GrowsAlready(s, s);
    } else {
      PlainStepGrows(c, s, p, a);
    }
  }

  lemma {:induction false} PassedGrows(ladder: seq<Migration>, v: nat, w: nat)
    requires Increasing(ladder) && v <= w
    ensures Passed(ladder, v) <= Passed(ladder, w)
  {
    if ladder != [] {
      if ladder[0].version <= v {
        PassedGrows(ladder[1..], v, w);
        assert ladder[0].stmts + Passed(ladder[1..], v) <= ladder[0].stmts + Passed(ladder[1..], w);
      } else {
        PassedNone(ladder, v);
      }
    }
  }

  lemma GrowsIsTransitive(s: State, t: State, u: State)
    requires Grows(s, t) && Grows(t, u)
    ensures Grows(s, u)
  {
  }

  lemma RunStep(c: Config, states: seq<State>, events: seq<Event>, i: nat)
    requires IsRun(c, states, events) && i < |events|
    ensures |states| == |events| + 1
    ensures Step(c, states[i], events[i].pid, events[i].action) == Some(states[i + 1])
  {
  }

  lemma {:induction false} RunGrows(c: Config, states: seq<State>, events: seq<Event>, i: nat, j: nat)
    requires IsConfig(c) && IsRun(c, states, events) && i <= j < |states|
    ensures Grows(states[i], states[j])
    decreases j
  {
    hide *;
    GrowsAlready(states[i], states[i]);
    if i < j {
      RunGrows(c, states, events, i, j - 1);
      RunKeeps(c, states, events, j - 1);
      RunLength(c, states, events);
      RunStep(c, states, events, j - 1);
      StepGrows(c, states[j - 1], events[j - 1].pid, events[j - 1].action);
      GrowsIsTransitive(states[i], states[j - 1], states[j]);
    }
  }

  lemma RunLength(c: Config, states: seq<State>, events: seq<Event>)
    requires IsRun(c, states, events)
    ensures |states| == |events| + 1
  {
  }

  // ---------- What runs never do ----------

  lemma NewNameDiffers(schema: Schema, stmt: Ddl)
    requires Apply(schema, stmt).Some?
    ensures forall i :: 0 <= i < |schema| ==> schema[i].name != stmt.name
  {
  }

  /** Statements that applied cleanly from nothing have distinct names. */
  lemma {:induction false} AppliedNamesDiffer(stmts: seq<Ddl>)
    requires ApplyAll([], stmts) == Some(stmts)
    ensures forall i, j :: 0 <= i < j < |stmts| ==> stmts[i].name != stmts[j].name
  {
    if stmts != [] {
      var n := |stmts| - 1;
      assert stmts == stmts[..n] + [stmts[n]];
      ApplyAllConcat([], stmts[..n], [stmts[n]]);
      ApplyAllAppends([], stmts[..n]);
      assert [] + stmts[..n] == stmts[..n];
      AppliedNamesDiffer(stmts[..n]);
      NewNameDiffers(stmts[..n], stmts[n]);
      hide *;
      forall i, j | 0 <= i < j < |stmts|
        ensures stmts[i].name != stmts[j].name
      {
        assert stmts[..n][i] == stmts[i];
        if j < n {
          assert stmts[..n][j] == stmts[j];
        }
      }
    }
  }

  /**
   At every moment of every run the committed schema is exactly the ladder up to
   the recorded version, no object was created twice, and no process has failed
   or is about to fail because a CREATE clashed.
   */
  lemma SchemaIsAlwaysTheLadder(c: Config, states: seq<State>, events: seq<Event>, i: nat)
    requires IsConfig(c) && IsRun(c, states, events) && i < |states|
    ensures
      var s := states[i];
      && s.schema == Passed(c.ladder, s.version)
      && (s.version == 0 || IsStep(c.ladder, s.version))
      && (forall k, l :: 0 <= k < l < |s.schema| ==> s.schema[k].name != s.schema[l].name)
      && (forall p :: At(s, p).Climbing? && At(s, p).todo != [] ==> Apply(At(s, p).work, At(s, p).todo[0]).Some?)
      && (forall p :: At(s, p) != Failed(Conflict))
  {
    var s := states[i];
    RunKeeps(c, states, events, i);
    PassedApplies(c.ladder, c.top, s.version);
    AppliedNamesDiffer(s.schema);
    forall p: Pid
      ensures At(s, p).Climbing? && At(s, p).todo != [] ==> Apply(At(s, p).work, At(s, p).todo[0]).Some?
      ensures At(s, p) != Failed(Conflict)
    {
      assert ProcOk(c, s.version, s.lock, p, At(s, p));
    }
  }

  /**
   A process that gets its store open found or left it at the version it
   supports, and from then on the store never falls below that version.
   */
  lemma OpenedAtItsVersion(c: Config, states: seq<State>, events: seq<Event>, i: nat, j: nat, p: Pid)
    requires IsConfig(c) && IsRun(c, states, events) && i < j < |states|
    requires events[i] == Event(p, Commit(None))
    ensures p in c.supports && At(states[i + 1], p) == Opened
    ensures states[i + 1].version == c.supports[p] <= states[j].version
    ensures states[i + 1].schema == Passed(c.ladder, c.supports[p])
  {
    RunKeeps(c, states, events, i);
    RunKeeps(c, states, events, i + 1);
    assert Step(c, states[i], p, Commit(None)) == Some(states[i + 1]);
    CommitKeeps(c, states[i], p, None);
    RunGrows(c, states, events, i + 1, j);
  }

  /** The number of times p tries to connect in events[i..j]. */
  function Pings(events: seq<Event>, i: nat, j: nat, p: Pid): nat
    requires i <= j <= |events|
    decreases j - i
  {
    if i == j then 0
    else (if events[i].pid == p && events[i].action.Ping? then 1 else 0) + Pings(events, i + 1, j, p)
  }

  /** How many times a process in this phase may still try to connect. */
  function TriesLeft(ph: Phase): nat {
    match ph
    case Waiting(attempt) => if attempt < INIT_ATTEMPTS then INIT_ATTEMPTS - attempt else 0
    case Connected(attempt) => if attempt < INIT_ATTEMPTS then INIT_ATTEMPTS - 1 - attempt else 0
    case Began(attempt) => if attempt < INIT_ATTEMPTS then INIT_ATTEMPTS - 1 - attempt else 0
    case Climbing(attempt, _, _) => if attempt < INIT_ATTEMPTS then INIT_ATTEMPTS - 1 - attempt else 0
    case Versioned(attempt, _) => if attempt < INIT_ATTEMPTS then INIT_ATTEMPTS - 1 - attempt else 0
    case _ => 0
  }

  /** A step moves no process but its own. */
  lemma OthersStay(c: Config, s: State, q: Pid, a: Action, p: Pid)
    requires Step(c, s, q, a).Some? && p != q
    ensures At(Step(c, s, q, a).value, p) == At(s, p)
  {
  }

  lemma OwnTriesShrink(c: Config, s: State, p: Pid, a: Action)
    requires ProcOk(c, s.version, s.lock, p, At(s, p))
    requires Step(c, s, p, a).Some? && !a.CreateFile?
    ensures TriesLeft(At(Step(c, s, p, a).value, p)) + (if a.Ping? then 1 else 0) <= TriesLeft(At(s, p))
  {
    hide Apply, ApplyAll, Passed, Pending, Older, Uuid, FormatTime, Guarded;
  }

  lemma TriesShrink(c: Config, s: State, q: Pid, a: Action, p: Pid)
    requires Inv(c, s) && Step(c, s, q, a).Some? && !(q == p && a.CreateFile?)
    ensures TriesLeft(At(Step(c, s, q, a).value, p)) + (if q == p && a.Ping? then 1 else 0) <= TriesLeft(At(s, p))
  {
    hide Step, TriesLeft;
    if q == p {
      OwnTriesShrink(c, s, p, a);
    } else {
      OthersStay(c, s, q, a, p);
    }
  }

  /** However busy the store is, an opening connects at most twelve times. */
  lemma {:induction false} AtMostTwelveAttempts(c: Config, states: seq<State>, events: seq<Event>, i: nat, j: nat, p: Pid)
    requires IsConfig(c) && IsRun(c, states, events) && i <= j < |states|
    requires forall k :: i <= k < j ==> !(events[k].pid == p && events[k].action.CreateFile?)
    ensures Pings(events, i, j, p) <= TriesLeft(At(states[i], p)) <= 12
    decreases j - i
  {
    if i < j {
      RunKeeps(c, states, events, i);
      assert Step(c, states[i], events[i].pid, events[i].action) == Some(states[i + 1]);
      TriesShrink(c, states[i], events[i].pid, events[i].action, p);
      AtMostTwelveAttempts(c, states, events, i + 1, j, p);
    }
  }

  /** The inserts that were carried out in events[i..j], in order. */
  function Inserted(states: seq<State>, events: seq<Event>, i: nat): seq<Record>
    requires i < |states| && |states| == |events| + 1
  {
    if i == 0 then []
    else
      var e, before := events[i - 1], At(states[i - 1], events[i - 1].pid);
      Inserted(states, events, i - 1)
        + if e.action.Insert? && e.action.outcome != NotDone && before.Appending? then [before.rec] else []
  }

  lemma RowsOfStep(c: Config, s: State, p: Pid, a: Action)
    requires IsConfig(c) && Inv(c, s) && Step(c, s, p, a).Some?
    ensures Step(c, s, p, a).value.rows
         == s.rows + if a.Insert? && a.outcome != NotDone && At(s, p).Appending? then [At(s, p).rec] else []
  {
    if a.Mutate? {
      MutateKeeps(c, s, p, a.kind, a.result);
    }
  }

  lemma {:induction false} RowsAreInserts(c: Config, states: seq<State>, events: seq<Event>, i: nat)
    requires IsConfig(c) && IsRun(c, states, events) && i < |states|
    ensures states[i].rows == Inserted(states, events, i)
  {
    if i > 0 {
      RowsAreInserts(c, states, events, i - 1);
      RunKeeps(c, states, events, i - 1);
      RunStep(c, states, events, i - 1);
      hide Step, IsRun, IsConfig, Inv;
      RowsOfStep(c, states[i - 1], events[i - 1].pid, events[i - 1].action);
    }
  }

  /**
   In every run the rows are exactly the inserts that were carried out, in
   order and none twice; whatever was acknowledged is among them, and stays at
   its place unchanged for ever after.
   */
  lemma RecordsEndure(c: Config, states: seq<State>, events: seq<Event>, i: nat, j: nat)
    requires IsConfig(c) && IsRun(c, states, events) && i <= j < |states|
    ensures states[j].rows == Inserted(states, events, j) && UniqueIds(states[j].rows)
    ensures forall r :: r in states[i].acked ==> r in states[i].rows
    ensures forall k :: 0 <= k < |states[i].rows| ==> k < |states[j].rows| && states[j].rows[k] == states[i].rows[k]
  {
    RowsAreInserts(c, states, events, j);
    RunKeeps(c, states, events, i);
    RunKeeps(c, states, events, j);
    RunGrows(c, states, events, i, j);
  }

  /** The shipped ladder qualifies, for any number of processes running the shipped binary. */
  lemma ShippedConfig(pids: set<Pid>)
    ensures IsConfig(Config(LADDER, SCHEMA_VERSION, map p | p in pids :: SCHEMA_VERSION))
  {
    ShippedLadder();
    assert LADDER[0].version == SCHEMA_VERSION;
    forall v: nat
      ensures v >= 1 ==> Passed(LADDER, v) == Whole(LADDER)
      ensures v < 1 ==> Passed(LADDER, v) == []
    {
      assert LADDER[1..] == [];
    }
  }

  // ---------- What runs do ----------

  /**
   Rows are inserted only while nobody holds the lock; version and schema change
   only by the commit of its holder; and nobody takes the lock from another.
   */
  lemma LockGuards(c: Config, s: State, p: Pid, a: Action)
    requires IsConfig(c) && Inv(c, s) && Step(c, s, p, a).Some?
    ensures
      var t := Step(c, s, p, a).value;
      && (t.rows != s.rows ==> s.lock == None && a.Insert?)
      && (t.version != s.version || t.schema != s.schema ==> s.lock == Some(p) && a == Commit(None) && t.lock == None)
      && (s.lock.Some? && s.lock != Some(p) ==> t.lock == s.lock)
  {
    hide Apply, ApplyAll, Passed, Pending, Older, Uuid, FormatTime;
    assert ProcOk(c, s.version, s.lock, p, At(s, p));
    if a.Mutate? {
      MutateKeeps(c, s, p, a.kind, a.result);
    }
  }

  /**
   From the moment an opener holds the lock until it lets go, the store stands
   still: no other process inserts a row or raises the version meanwhile.
   */
  lemma {:induction false} LockIsolates(c: Config, states: seq<State>, events: seq<Event>, i: nat, j: nat, p: Pid)
    requires IsConfig(c) && IsRun(c, states, events) && i <= j < |states|
    requires forall k :: i <= k <= j ==> states[k].lock == Some(p)
    ensures states[j].rows == states[i].rows && states[j].version == states[i].version && states[j].schema == states[i].schema
    decreases j
  {
    hide Inv, Step, IsConfig;
    RunLength(c, states, events);
    if i < j {
      LockIsolates(c, states, events, i, j - 1, p);
      RunKeeps(c, states, events, j - 1);
      RunStep(c, states, events, j - 1);
      LockGuards(c, states[j - 1], events[j - 1].pid, events[j - 1].action);
    }
  }

  /** The fault an opening step meets, if it meets one. */
  function FaultOf(a: Action): Option<Fault> {
    match a
    case Ping(fault) => fault
    case Begin(fault) => fault
    case ReadVersion(fault) => fault
    case Exec(fault) => fault
    case SetVersion(fault) => fault
    case Commit(fault) => fault
    case _ => None
  }

  /** The number of the attempt a process is at, from 0. */
  function AttemptOf(ph: Phase): nat {
    match ph
    case Waiting(attempt) => attempt
    case Connected(attempt) => attempt
    case Began(attempt) => attempt
    case Climbing(attempt, _, _) => attempt
    case Versioned(attempt, _) => attempt
    case _ => 0
  }

  /**
   "Busy" leads to the next attempt as long as fewer than twelve were made, and
   ends the opening after the twelfth; any other fault ends it at once. The lock
   is given back, and nothing was committed.
   */
  lemma FaultLeadsOn(c: Config, s: State, p: Pid, a: Action)
    requires Inv(c, s) && Step(c, s, p, a).Some? && FaultOf(a).Some?
    ensures
      var t := Step(c, s, p, a).value;
      && At(t, p) == (if FaultOf(a) == Some(Broken) then Failed(StorageFault)
                      else if AttemptOf(At(s, p)) + 1 < 12 then Waiting(AttemptOf(At(s, p)) + 1)
                      else Failed(StayedLocked))
      && t.lock != Some(p) && t.version == s.version && t.schema == s.schema && t.rows == s.rows
  {
    hide Apply, ApplyAll, Passed, Pending, Older;
    assert ProcOk(c, s.version, s.lock, p, At(s, p));
  }

  /** The k-th event is the last before the i-th in which p stamped a record. */
  ghost predicate LastStamp(events: seq<Event>, k: nat, i: nat, p: Pid) {
    && k < i <= |events| && events[k].pid == p && events[k].action.Stamp?
    && forall l :: k < l < i && events[l].pid == p ==> !events[l].action.Stamp?
  }

  /** What p is given to insert when its last stamp before the i-th event is the k-th. */
  ghost predicate StampGives(events: seq<Event>, k: nat, i: nat, p: Pid, rec: Record) {
    && LastStamp(events, k, i, p)
    && var a := events[k].action;
       |a.random| == 10 && rec == Record(Uuid(Millis(a.at), a.random), FormatTime(a.at), a.o)
  }

  lemma StampAfter(c: Config, s: State, p: Pid, a: Action, q: Pid)
    requires Step(c, s, p, a).Some? && At(Step(c, s, p, a).value, q).Appending?
    ensures At(Step(c, s, p, a).value, q) ==
      if q == p && a.Stamp? then Appending(Record(Uuid(Millis(a.at), a.random), FormatTime(a.at), a.o)) else At(s, q)
  {
    hide Apply, Pending, Older, Uuid, FormatTime;
  }

  /** What a process is about to insert is what it last stamped. */
  lemma {:induction false} StampedWhen(c: Config, states: seq<State>, events: seq<Event>, i: nat, p: Pid)
    requires IsRun(c, states, events) && i < |states| && At(states[i], p).Appending?
    ensures exists k: nat :: StampGives(events, k, i, p, At(states[i], p).rec)
  {
    hide Step, Uuid, FormatTime, Millis;
    RunLength(c, states, events);
    if i > 0 {
      RunStep(c, states, events, i - 1);
      var e := events[i - 1];
      StampAfter(c, states[i - 1], e.pid, e.action, p);
      if e.pid == p && e.action.Stamp? {
        StampHasRandom(c, states[i - 1], p, e.action);
        assert StampGives(events, i - 1, i, p, At(states[i], p).rec);
      } else {
        StampedWhen(c, states, events, i - 1, p);
        var k: nat :| StampGives(events, k, i - 1, p, At(states[i - 1], p).rec);
        assert StampGives(events, k, i, p, At(states[i], p).rec);
      }
    }
  }

  lemma StampHasRandom(c: Config, s: State, p: Pid, a: Action)
    requires Step(c, s, p, a).Some? && a.Stamp?
    ensures |a.random| == 10
  {
  }

  /**
   An acknowledged insert has put exactly one row at the end: the observation
   its process last stamped. It counts as acknowledged from then on, and at
   every later moment it is still among the rows.
   */
  lemma AcknowledgedIsRecorded(c: Config, states: seq<State>, events: seq<Event>, i: nat, j: nat)
    requires IsConfig(c) && IsRun(c, states, events) && i < |events| && i < j < |states|
    requires events[i].action == Insert(Acknowledged)
    ensures At(states[i], events[i].pid).Appending?
    ensures
      var rec := At(states[i], events[i].pid).rec;
      && (exists k: nat :: StampGives(events, k, i, events[i].pid, rec))
      && states[i + 1].rows == states[i].rows + [rec]
      && rec in states[i + 1].acked && rec in states[j].rows && rec in states[j].acked
  {
    RunLength(c, states, events);
    RunStep(c, states, events, i);
    InsertAdds(c, states[i], events[i].pid);
    StampedWhen(c, states, events, i, events[i].pid);
    RunGrows(c, states, events, i + 1, j);
    var rec := At(states[i], events[i].pid).rec;
    assert states[i + 1].rows[|states[i].rows|] == rec && states[j].rows[|states[i].rows|] == rec;
    hide Uuid, FormatTime, Step, IsRun, IsConfig;
  }

  lemma InsertAdds(c: Config, s: State, p: Pid)
    requires Step(c, s, p, Insert(Acknowledged)).Some?
    ensures
      var t := Step(c, s, p, Insert(Acknowledged)).value;
      && At(s, p).Appending? && t.rows == s.rows + [At(s, p).rec] && At(s, p).rec in t.acked && At(t, p) == Opened
  {
  }

  // ---------- What a process can always do when left alone ----------

  /** The state after p has done these things one after the other, if it can. */
  function Play(c: Config, s: State, p: Pid, actions: seq<Action>): Option<State>
    decreases |actions|
  {
    if actions == [] then Some(s)
    else match Step(c, s, p, actions[0])
      case None => None
      case Some(t) => Play(c, t, p, actions[1..])
  }

  lemma {:induction false} PlayConcat(c: Config, s: State, p: Pid, a: seq<Action>, b: seq<Action>)
    requires Play(c, s, p, a).Some?
    ensures Play(c, s, p, a + b) == Play(c, Play(c, s, p, a).value, p, b)
    decreases |a|
  {
    hide Step;
    if a == [] {
      assert a + b == b;
    } else {
      assert (a + b)[1..] == a[1..] + b;
      PlayConcat(c, Step(c, s, p, a[0]).value, p, a[1..], b);
    }
  }

  function Times(a: Action, n: nat): seq<Action> {
    if n == 0 then [] else [a] + Times(a, n - 1)
  }

  /** The statements of a climb can all be run when they apply. */
  lemma {:induction false} ExecAll(c: Config, s: State, p: Pid)
    requires p in c.supports && At(s, p).Climbing? && ApplyAll(At(s, p).work, At(s, p).todo).Some?
    ensures
      var ph := At(s, p);
      Play(c, s, p, Times(Exec(None), |ph.todo|))
        == Some(Move(s, p, Climbing(ph.attempt, [], ApplyAll(ph.work, ph.todo).value)))
    decreases |At(s, p).todo|
  {
    var ph := At(s, p);
    hide Apply;
    if ph.todo == [] {
      assert Move(s, p, ph) == s;
    } else {
      var t := Step(c, s, p, Exec(None)).value;
      assert At(t, p) == Climbing(ph.attempt, ph.todo[1..], Apply(ph.work, ph.todo[0]).value);
      ExecAll(c, t, p);
      assert Times(Exec(None), |ph.todo|)[1..] == Times(Exec(None), |ph.todo| - 1);
      var last := Climbing(ph.attempt, [], ApplyAll(ph.work, ph.todo).value);
      assert Move(t, p, last) == Move(s, p, last);
    }
  }

  /** Connecting, taking the lock and reading the version of a store that is not newer. */
  lemma BeginsUndisturbed(c: Config, s: State, p: Pid)
    requires p in c.supports && s.lock == None && At(s, p).Waiting? && s.version <= c.supports[p]
    ensures
      Play(c, s, p, [Ping(None), Begin(None), ReadVersion(None)]) ==
        Some(Move(s.(lock := Some(p)), p,
                  Climbing(At(s, p).attempt, Pending(Older(c.ladder, c.supports[p]), s.version), s.schema)))
  {
    hide Pending, Older;
    var actions := [Ping(None), Begin(None), ReadVersion(None)];
    assert actions[1..] == [Begin(None), ReadVersion(None)] && actions[1..][1..] == [ReadVersion(None)];
    var t := StepPing(s, p, None).value;
    var u := StepBegin(t, p, None).value;
    var v := StepRead(c, u, p, None).value;
    assert Play(c, u, p, [ReadVersion(None)]) == Some(v);
    assert Play(c, t, p, actions[1..]) == Some(v);
    assert v == Move(s.(lock := Some(p)), p, At(v, p));
  }

  lemma CommitsUndisturbed(c: Config, s: State, p: Pid)
    requires p in c.supports && At(s, p).Climbing? && At(s, p).todo == [] && s.version <= c.supports[p]
    ensures
      var t := Play(c, s, p, [SetVersion(None), Commit(None)]);
      && t.Some? && At(t.value, p) == Opened && t.value.version == c.supports[p] && t.value.lock == None
      && t.value.schema == At(s, p).work && t.value.rows == s.rows
  {
    assert [SetVersion(None), Commit(None)][1..] == [Commit(None)];
    var t := StepSetVersion(s, p, None).value;
    assert Play(c, t, p, [Commit(None)]) == StepCommit(c, t, p, None);
  }

  /**
   Whatever happened before, an opener that finds the lock free and the store no
   newer than itself gets it open when nothing comes in between: its store is
   then at its own version, with its own schema, and no row was touched.
   */
  lemma OpensUndisturbed(c: Config, states: seq<State>, events: seq<Event>, i: nat, p: Pid)
    requires IsConfig(c) && IsRun(c, states, events) && i < |states|
    requires p in c.supports && states[i].lock == None && At(states[i], p).Waiting?
    requires states[i].version <= c.supports[p]
    ensures
      var s := states[i];
      var steps := |Pending(Older(c.ladder, c.supports[p]), s.version)|;
      var t := Play(c, s, p,
        [Ping(None), Begin(None), ReadVersion(None)] + Times(Exec(None), steps) + [SetVersion(None), Commit(None)]);
      && t.Some? && At(t.value, p) == Opened && t.value.lock == None && t.value.version == c.supports[p]
      && t.value.schema == Passed(c.ladder, c.supports[p]) && t.value.rows == s.rows
  {
    var s := states[i];
    RunKeeps(c, states, events, i);
    PendingReaches(c, s, p);
    hide IsConfig, IsRun, Inv, Step, Pending, Older, Passed, ApplyAll, Play;
    var first, last := [Ping(None), Begin(None), ReadVersion(None)], [SetVersion(None), Commit(None)];
    BeginsUndisturbed(c, s, p);
    var t := Play(c, s, p, first).value;
    var execs := Times(Exec(None), |At(t, p).todo|);
    ExecAll(c, t, p);
    var u := Play(c, t, p, execs).value;
    CommitsUndisturbed(c, u, p);
    PlayConcat(c, s, p, first, execs);
    PlayConcat(c, s, p, first + execs, last);
  }

  /** A newer store is refused, and nothing of it is touched. */
  lemma RefusesUndisturbed(c: Config, s: State, p: Pid)
    requires p in c.supports && s.lock == None && At(s, p).Waiting? && s.version > c.supports[p]
    ensures Play(c, s, p, [Ping(None), Begin(None), ReadVersion(None)]) == Some(Move(s, p, Failed(Newer(s.version))))
  {
    var actions := [Ping(None), Begin(None), ReadVersion(None)];
    assert actions[1..] == [Begin(None), ReadVersion(None)] && actions[1..][1..] == [ReadVersion(None)];
    var t := StepPing(s, p, None).value;
    var u := StepBegin(t, p, None).value;
    var v := StepRead(c, u, p, None).value;
    assert Play(c, u, p, [ReadVersion(None)]) == Some(v);
    assert Play(c, t, p, actions[1..]) == Some(v);
    assert v == Move(s, p, Failed(Newer(s.version)));
  }

  /** With the store open, the lock free and a fresh id, recording goes through. */
  lemma RecordsUndisturbed(c: Config, s: State, p: Pid, o: Observation, at: Instant, random: seq<bv8>)
    requires p in c.supports && s.lock == None && At(s, p).Opened? && HasTable(s.schema, OBSERVATION) && |random| == 10
    requires forall r :: r in s.rows ==> r.id != Uuid(Millis(at), random)
    ensures
      var t := Play(c, s, p, [Stamp(o, at, random), Insert(Acknowledged)]);
      && t.Some? && At(t.value, p) == Opened
      && t.value.rows == s.rows + [Record(Uuid(Millis(at), random), FormatTime(at), o)]
  {
    hide Uuid, FormatTime;
    var actions := [Stamp(o, at, random), Insert(Acknowledged)];
    assert actions[1..] == [Insert(Acknowledged)];
    var t := Step(c, s, p, actions[0]).value;
    assert Play(c, t, p, [Insert(Acknowledged)]) == Step(c, t, p, Insert(Acknowledged));
  }
}
