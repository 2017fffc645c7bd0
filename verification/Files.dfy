/**
 The files a store leaves on disk: the database with its sidecars, and the
 snapshots taken of it, as steps of any number of overlapping processes.

 A snapshot is staged in a directory of its own, copied, tightened and renamed
 into place; any step may fail, and a process may die between any two. Each
 process has its own umask. Rename is atomic within one filesystem.
 */
module Files {
  import opened Wrappers
  import opened Observations
  import opened Permissions

  type Pid = nat

  /** Names: the store's own four files, destinations of snapshots, and the copy inside a staging directory. */
  datatype Path = StoreFile(i: nat) | Dest(name: string) | Staged(dir: nat)

  /** What a file holds: something that is not ours, the live store, a copy in the making, or a finished copy. */
  datatype Content = Foreign(what: int) | Live | Partial | Copy(rows: seq<Record>)

  datatype File = File(mode: Mode, content: Content)

  /** VACUUM INTO creates its file at SQLite's default, 0644 less the umask; MkdirTemp makes a 0700 directory less the umask. */
  const SQLITE_DEFAULT: Mode := 0x1A4
  const STAGE_MODE: Mode := 0x1C0

  function Masked(mode: Mode, umask: Mode): Mode {
    mode & !umask
  }

  /**
   Where a process stands. `since` is what was committed when its snapshot was
   asked for, and `dir` the staging directory it made.
   */
  datatype Phase =
    | Absent
    | Open
    | Reserving(dest: string, since: seq<Record>)
    | Reserved(dest: string, since: seq<Record>, dir: nat)
    | Copying(dest: string, since: seq<Record>, dir: nat, pinned: seq<Record>)
    | Copied(dest: string, since: seq<Record>, dir: nat)
    | Secured(dest: string, since: seq<Record>, dir: nat)
    | Cleaning(dest: string, dir: nat)

  /** `litter` remembers the directories left by a failed removal or a crash. */
  datatype State = State(
    files: map<Path, File>, stages: map<nat, Mode>, rows: seq<Record>, procs: map<Pid, Phase>, litter: set<nat>)

  datatype Action =
    | OpenStore
    | TouchSidecar(i: nat)
    | Append(row: Record)
    | CloseStore(dropSidecars: bool)
    | AskSnapshot(dest: string)
    | MakeStage(dir: nat, ok: bool)
    | StartCopy(ok: bool)
    | FinishCopy(ok: bool)
    | Chmod(ok: bool)
    | Rename(ok: bool)
    | RemoveStage(ok: bool, emptied: bool)
    | Crash

  function At(s: State, p: Pid): Phase {
    if p in s.procs then s.procs[p] else Absent
  }

  function Move(s: State, p: Pid, ph: Phase): State {
    s.(procs := s.procs[p := ph])
  }

  function DirOf(ph: Phase): Option<nat> {
    match ph
    case Reserved(_, _, dir) => Some(dir)
    case Copying(_, _, dir, _) => Some(dir)
    case Copied(_, _, dir) => Some(dir)
    case Secured(_, _, dir) => Some(dir)
    case Cleaning(_, dir) => Some(dir)
    case _ => None
  }

  /** The step of process p, running under a umask, that an action names. */
  function Step(s: State, p: Pid, umask: Mode, a: Action): Option<State> {
    var ph := At(s, p);
    match a
    case OpenStore =>
      if !ph.Absent? then None
      else if StoreFile(0) in s.files then Some(Move(s, p, Open))
      else Some(Move(s.(files := s.files[StoreFile(0) := File(Masked(OWNER_ONLY, umask), Live)]), p, Open))
    case TouchSidecar(i) =>
      if ph.Absent? || !(0 < i < 4) || StoreFile(0) !in s.files then None
      else if StoreFile(i) in s.files then Some(s)
      else Some(s.(files := s.files[StoreFile(i) := File(s.files[StoreFile(0)].mode, Live)]))
    case Append(row) =>
      if ph.Absent? then None else Some(s.(rows := s.rows + [row]))
    case CloseStore(dropSidecars) =>
      if !ph.Open? then None
      else Some(Move(if dropSidecars then s.(files := s.files - {StoreFile(1), StoreFile(2)}) else s, p, Absent))
    case AskSnapshot(dest) =>
      if ph.Open? then Some(Move(s, p, Reserving(dest, s.rows))) else None
    case MakeStage(dir, ok) =>
      if !ph.Reserving? || dir in s.stages then None
      else if !ok then Some(Move(s, p, Open))
      else Some(Move(s.(stages := s.stages[dir := Masked(STAGE_MODE, umask)]), p, Reserved(ph.dest, ph.since, dir)))
    case StartCopy(ok) =>
      if !ph.Reserved? then None
      else if !ok then Some(Move(s, p, Cleaning(ph.dest, ph.dir)))
      else Some(Move(
        s.(files := s.files[Staged(ph.dir) := File(Masked(SQLITE_DEFAULT, umask), Partial)]),
        p, Copying(ph.dest, ph.since, ph.dir, s.rows)))
    case FinishCopy(ok) =>
      if !ph.Copying? || Staged(ph.dir) !in s.files then None
      else if !ok then Some(Move(s, p, Cleaning(ph.dest, ph.dir)))
      else Some(Move(
        s.(files := s.files[Staged(ph.dir) := s.files[Staged(ph.dir)].(content := Copy(ph.pinned))]),
        p, Copied(ph.dest, ph.since, ph.dir)))
    case Chmod(ok) =>
      if !ph.Copied? || Staged(ph.dir) !in s.files then None
      else if !ok then Some(Move(s, p, Cleaning(ph.dest, ph.dir)))
      else Some(Move(
        s.(files := s.files[Staged(ph.dir) := s.files[Staged(ph.dir)].(mode := OWNER_ONLY)]),
        p, Secured(ph.dest, ph.since, ph.dir)))
    case Rename(ok) =>
      if !ph.Secured? || Staged(ph.dir) !in s.files then None
      else if !ok then Some(Move(s, p, Cleaning(ph.dest, ph.dir)))
      else Some(Move(
        s.(files := s.files[Dest(ph.dest) := s.files[Staged(ph.dir)]] - {Staged(ph.dir)}),
        p, Cleaning(ph.dest, ph.dir)))
    case RemoveStage(ok, emptied) =>
      if !ph.Cleaning? then None
      else if ok then Some(Move(s.(files := s.files - {Staged(ph.dir)}, stages := s.stages - {ph.dir}), p, Open))
      else Some(Move(
        s.(files := if emptied then s.files - {Staged(ph.dir)} else s.files, litter := s.litter + {ph.dir}), p, Open))
    case Crash =>
      Some(Move(if DirOf(ph).Some? then s.(litter := s.litter + {DirOf(ph).value}) else s, p, Absent))
  }

  // ---------- The invariant ----------

  /** A finished copy, holding at least `since` and nothing that was not committed. */
  predicate IsCopy(f: File, since: seq<Record>, rows: seq<Record>) {
    f.content.Copy? && since <= f.content.rows <= rows
  }

  ghost predicate PhaseOk(s: State, ph: Phase) {
    && (DirOf(ph).Some? ==> DirOf(ph).value in s.stages && DirOf(ph).value !in s.litter)
    && match ph
       case Reserving(_, since) => since <= s.rows
       case Reserved(_, since, dir) => since <= s.rows && Staged(dir) !in s.files
       case Copying(_, since, dir, pinned) =>
         since <= pinned <= s.rows && Staged(dir) in s.files && s.files[Staged(dir)].content == Partial
       case Copied(_, since, dir) => Staged(dir) in s.files && IsCopy(s.files[Staged(dir)], since, s.rows)
       case Secured(_, since, dir) =>
         Staged(dir) in s.files && IsCopy(s.files[Staged(dir)], since, s.rows) && s.files[Staged(dir)].mode == OWNER_ONLY
       case _ => true
  }

  /** A destination holds what it held at first, or a complete copy for its owner only. */
  ghost predicate DestOk(first: map<Path, File>, s: State, path: Path) {
    path in s.files ==>
      || (path in first && s.files[path] == first[path])
      || (s.files[path].mode == OWNER_ONLY && IsCopy(s.files[path], [], s.rows))
  }

  ghost predicate FilesOk(first: map<Path, File>, s: State) {
    && (forall path :: path in s.files && path.StoreFile? ==> !Loose(s.files[path].mode) && s.files[path].content == Live)
    && (forall path :: path in s.files && path.Staged? ==> path.dir in s.stages)
    && (forall dir :: dir in s.stages ==> !Loose(s.stages[dir]))
    && (forall path: Path :: path.Dest? ==> DestOk(first, s, path))
    && (forall path :: path in first && path.Dest? ==> path in s.files)
  }

  ghost predicate ProcsOk(s: State) {
    && (forall p: Pid :: PhaseOk(s, At(s, p)))
    && (forall p: Pid, q: Pid :: p != q && DirOf(At(s, p)).Some? ==> DirOf(At(s, p)) != DirOf(At(s, q)))
    && (forall dir :: dir in s.stages && dir !in s.litter ==> exists p: Pid :: DirOf(At(s, p)) == Some(dir))
    && (forall dir :: dir in s.litter ==> dir in s.stages)
  }

  ghost predicate Inv(first: map<Path, File>, s: State) {
    FilesOk(first, s) && ProcsOk(s)
  }

  /** Before any process has run: no store and no staging directory, and anything at all at the destinations. */
  ghost predicate IsStart(s: State) {
    && s.stages == map[] && s.rows == [] && s.procs == map[] && s.litter == {}
    && forall path :: path in s.files ==> path.Dest? && s.files[path].content.Foreign?
  }

  lemma StartHolds(s: State)
    requires IsStart(s)
    ensures Inv(s.files, s)
  {
  }

  lemma Modes(umask: Mode)
    ensures !Loose(Masked(OWNER_ONLY, umask)) && !Loose(Masked(STAGE_MODE, umask)) && !Loose(OWNER_ONLY)
  {
  }

  // ---------- Files ----------

  /** What FilesOk speaks of: processes and litter are no part of it. */
  lemma FilesFrame(first: map<Path, File>, s: State, t: State)
    requires FilesOk(first, s) && t.files == s.files && t.stages == s.stages && t.rows == s.rows
    ensures FilesOk(first, t)
  {
    forall d: Path | d.Dest?
      ensures DestOk(first, t, d)
    {
      assert DestOk(first, s, d);
    }
  }

  /** Files before the process moves on. */
  function Effect(s: State, p: Pid, umask: Mode, a: Action): State
    requires Step(s, p, umask, a).Some?
  {
    Step(s, p, umask, a).value.(procs := s.procs, litter := s.litter)
  }

  lemma FilesKept(first: map<Path, File>, s: State, p: Pid, umask: Mode, a: Action)
    requires FilesOk(first, s) && PhaseOk(s, At(s, p)) && Step(s, p, umask, a).Some?
    ensures FilesOk(first, Step(s, p, umask, a).value)
  {
    EffectKept(first, s, p, umask, a);
    var t, u := Effect(s, p, umask, a), Step(s, p, umask, a).value;
    assert t.files == u.files && t.stages == u.stages && t.rows == u.rows;
    hide *;
    FilesFrame(first, t, u);
  }

  lemma EffectKept(first: map<Path, File>, s: State, p: Pid, umask: Mode, a: Action)
    requires FilesOk(first, s) && PhaseOk(s, At(s, p)) && Step(s, p, umask, a).Some?
    ensures FilesOk(first, Effect(s, p, umask, a))
  {
    hide *;
    if a.StartCopy? || a.FinishCopy? || a.Chmod? || a.Rename? {
      CopyKept(first, s, p, umask, a);
    } else {
      OthersKept(first, s, p, umask, a);
    }
  }

  lemma CopyKept(first: map<Path, File>, s: State, p: Pid, umask: Mode, a: Action)
    requires FilesOk(first, s) && PhaseOk(s, At(s, p)) && Step(s, p, umask, a).Some?
    requires a.StartCopy? || a.FinishCopy? || a.Chmod? || a.Rename?
    ensures FilesOk(first, Effect(s, p, umask, a))
  {
  }

  lemma OthersKept(first: map<Path, File>, s: State, p: Pid, umask: Mode, a: Action)
    requires FilesOk(first, s) && Step(s, p, umask, a).Some?
    requires !a.StartCopy? && !a.FinishCopy? && !a.Chmod? && !a.Rename?
    ensures FilesOk(first, Effect(s, p, umask, a))
  {
  }

  // ---------- Processes ----------

  /** Another process's step leaves a phase in order if it keeps away from its directory. */
  lemma PhaseFrame(s: State, t: State, ph: Phase)
    requires PhaseOk(s, ph) && s.rows <= t.rows
    requires DirOf(ph).Some? ==>
      var dir := DirOf(ph).value;
      && dir in t.stages && dir !in t.litter
      && (Staged(dir) in s.files <==> Staged(dir) in t.files)
      && (Staged(dir) in s.files ==> t.files[Staged(dir)] == s.files[Staged(dir)])
    ensures PhaseOk(t, ph)
  {
  }

  /** The directories a step may touch: its own, or one that was not there. */
  lemma Footprint(s: State, p: Pid, umask: Mode, a: Action, dir: nat)
    requires Step(s, p, umask, a).Some? && dir in s.stages && DirOf(At(s, p)) != Some(dir)
    ensures
      var t := Step(s, p, umask, a).value;
      && dir in t.stages && (dir in t.litter <==> dir in s.litter)
      && (Staged(dir) in s.files <==> Staged(dir) in t.files)
      && (Staged(dir) in s.files ==> t.files[Staged(dir)] == s.files[Staged(dir)])
  {
  }

  lemma StepBasics(s: State, p: Pid, umask: Mode, a: Action)
    requires Step(s, p, umask, a).Some?
    ensures
      var t := Step(s, p, umask, a).value;
      && s.rows <= t.rows
      && (forall q: Pid :: q != p ==> At(t, q) == At(s, q))
      && (DirOf(At(t, p)).Some? ==>
            DirOf(At(t, p)) == DirOf(At(s, p)) || DirOf(At(t, p)).value !in s.stages)
  {
  }

  /** The process that took the step is in order afterwards. */
  lemma OwnPhase(first: map<Path, File>, s: State, p: Pid, umask: Mode, a: Action)
    requires FilesOk(first, s) && PhaseOk(s, At(s, p)) && Step(s, p, umask, a).Some?
    requires forall dir :: dir in s.litter ==> dir in s.stages
    ensures PhaseOk(Step(s, p, umask, a).value, At(Step(s, p, umask, a).value, p))
  {
    hide Loose, Masked;
  }

  /** Who owns which directory after a step: only the process that moved may have changed its own. */
  lemma OwnersAfter(s: State, p: Pid, umask: Mode, a: Action, q: Pid)
    requires ProcsOk(s) && Step(s, p, umask, a).Some? && q != p
    ensures DirOf(At(Step(s, p, umask, a).value, q)).Some? ==>
              DirOf(At(Step(s, p, umask, a).value, q)) != DirOf(At(Step(s, p, umask, a).value, p))
  {
    StepBasics(s, p, umask, a);
    assert PhaseOk(s, At(s, q));
    hide Step;
  }

  lemma OtherPhase(s: State, p: Pid, umask: Mode, a: Action, q: Pid)
    requires ProcsOk(s) && Step(s, p, umask, a).Some? && q != p
    ensures PhaseOk(Step(s, p, umask, a).value, At(Step(s, p, umask, a).value, q))
  {
    var ph, t := At(s, q), Step(s, p, umask, a).value;
    StepBasics(s, p, umask, a);
    assert PhaseOk(s, ph);
    if DirOf(ph).Some? {
      assert DirOf(ph).value in s.stages && DirOf(ph).value !in s.litter;
      assert DirOf(At(s, p)) != DirOf(ph);
      Footprint(s, p, umask, a, DirOf(ph).value);
    }
    hide Step, PhaseOk, ProcsOk;
    PhaseFrame(s, t, ph);
  }

  /** What a step makes of the directories: one may come, owned; its own may go, or stay as litter. */
  lemma StagesAfter(s: State, p: Pid, umask: Mode, a: Action, dir: nat)
    requires Step(s, p, umask, a).Some? && PhaseOk(s, At(s, p))
    requires dir in s.litter ==> dir in s.stages
    ensures
      var t := Step(s, p, umask, a).value;
      && (dir in t.litter ==> dir in t.stages)
      && (dir in t.stages && dir !in t.litter ==>
            DirOf(At(t, p)) == Some(dir)
            || (dir in s.stages && dir !in s.litter && DirOf(At(s, p)) != Some(dir)))
  {
  }

  lemma OwnerAfter(s: State, p: Pid, umask: Mode, a: Action, dir: nat)
    requires ProcsOk(s) && Step(s, p, umask, a).Some?
    requires var t := Step(s, p, umask, a).value; dir in t.stages && dir !in t.litter
    ensures exists q: Pid :: DirOf(At(Step(s, p, umask, a).value, q)) == Some(dir)
  {
    var t := Step(s, p, umask, a).value;
    assert PhaseOk(s, At(s, p));
    StagesAfter(s, p, umask, a, dir);
    StepBasics(s, p, umask, a);
    hide Step, PhaseOk;
    if DirOf(At(t, p)) != Some(dir) {
      var q: Pid :| DirOf(At(s, q)) == Some(dir);
      assert At(t, q) == At(s, q);
    }
  }

  lemma ProcsKept(first: map<Path, File>, s: State, p: Pid, umask: Mode, a: Action)
    requires Inv(first, s) && Step(s, p, umask, a).Some?
    ensures ProcsOk(Step(s, p, umask, a).value)
  {
    var t := Step(s, p, umask, a).value;
    assert PhaseOk(s, At(s, p));
    hide FilesOk, PhaseOk, Step;
    forall q: Pid
      ensures PhaseOk(t, At(t, q))
    {
      if q == p {
        OwnPhase(first, s, p, umask, a);
      } else {
        OtherPhase(s, p, umask, a, q);
      }
    }
    StepBasics(s, p, umask, a);
    forall q: Pid, r: Pid | q != r && DirOf(At(t, q)).Some?
      ensures DirOf(At(t, q)) != DirOf(At(t, r))
    {
      if q != p {
        OwnersAfter(s, p, umask, a, q);
      }
      if r != p {
        OwnersAfter(s, p, umask, a, r);
      }
    }
    forall dir | dir in t.stages && dir !in t.litter
      ensures exists q: Pid :: DirOf(At(t, q)) == Some(dir)
    {
      OwnerAfter(s, p, umask, a, dir);
    }
    forall dir | dir in t.litter
      ensures dir in t.stages
    {
      StagesAfter(s, p, umask, a, dir);
    }
  }

  /** Every step of every process keeps the invariant, whatever its umask and whether it fails or not. */
  lemma StepKeeps(first: map<Path, File>, s: State, p: Pid, umask: Mode, a: Action)
    requires Inv(first, s) && Step(s, p, umask, a).Some?
    ensures Inv(first, Step(s, p, umask, a).value)
  {
    ProcsKept(first, s, p, umask, a);
    assert PhaseOk(s, At(s, p));
    hide Step, FilesOk, PhaseOk;
    FilesKept(first, s, p, umask, a);
  }

  // ---------- Runs ----------

  datatype Event = Event(pid: Pid, umask: Mode, action: Action)

  ghost predicate IsRun(states: seq<State>, events: seq<Event>) {
    && |states| == |events| + 1 && IsStart(states[0])
    && forall i :: 0 <= i < |events| ==>
         Step(states[i], events[i].pid, events[i].umask, events[i].action) == Some(states[i + 1])
  }

  lemma {:induction false} RunKeeps(states: seq<State>, events: seq<Event>, i: nat)
    requires IsRun(states, events) && i < |states|
    ensures Inv(states[0].files, states[i])
  {
    if i == 0 {
      StartHolds(states[0]);
    } else {
      RunKeeps(states, events, i - 1);
      var e := events[i - 1];
      assert Step(states[i - 1], e.pid, e.umask, e.action) == Some(states[i]);
      hide Step, Inv, IsStart;
      StepKeeps(states[0].files, states[i - 1], e.pid, e.umask, e.action);
    }
  }

  /** A path that someone other than the owner can open: its own mode lets them, and so does the staging directory's. */
  predicate Exposed(s: State, path: Path)
    requires path in s.files
  {
    Loose(s.files[path].mode) && (path.Staged? && path.dir in s.stages ==> Loose(s.stages[path.dir]))
  }

  /**
   At every point of every run, nothing that holds observations, be it the
   store, a sidecar, a copy in the making or a finished one, is exposed.
   */
  lemma NothingExposed(states: seq<State>, events: seq<Event>, i: nat, path: Path)
    requires IsRun(states, events) && i < |states|
    requires path in states[i].files && !states[i].files[path].content.Foreign?
    ensures !Exposed(states[i], path)
  {
    var s, first := states[i], states[0].files;
    RunKeeps(states, events, i);
    if path.Dest? {
      assert DestOk(first, s, path);
      Modes(0);
    }
  }

  /**
   At every point a destination holds what it held at first, or one complete
   copy with mode 0600, which is 0x180: its owner may read and write it, nobody
   else may do anything.
   */
  lemma DestinationWhole(states: seq<State>, events: seq<Event>, i: nat, dest: string)
    requires IsRun(states, events) && i < |states|
    ensures
      var s, path := states[i], Dest(dest);
      && (path in states[0].files ==> path in s.files)
      && (path in s.files ==>
            || (path in states[0].files && s.files[path] == states[0].files[path])
            || exists n :: 0 <= n <= |s.rows| && s.files[path] == File(0x180, Copy(s.rows[..n])))
  {
    var s, path := states[i], Dest(dest);
    RunKeeps(states, events, i);
    assert DestOk(states[0].files, s, path);
    if path in s.files && !(path in states[0].files && s.files[path] == states[0].files[path]) {
      var rows := s.files[path].content.rows;
      assert rows == s.rows[..|rows|];
    }
  }

  /**
   Nothing any process does, a snapshot least of all, removes or replaces the
   store's database file, changes its mode, or takes away a committed row.
   */
  lemma {:induction false} StoreStays(states: seq<State>, events: seq<Event>, i: nat, j: nat)
    requires IsRun(states, events) && i <= j < |states|
    ensures StoreFile(0) in states[i].files ==>
      StoreFile(0) in states[j].files && states[j].files[StoreFile(0)] == states[i].files[StoreFile(0)]
    ensures states[i].rows <= states[j].rows
    decreases j
  {
    if i < j {
      StoreStays(states, events, i, j - 1);
      var e := events[j - 1];
      assert Step(states[j - 1], e.pid, e.umask, e.action) == Some(states[j]);
      hide Step, IsStart;
      StoreStep(states[j - 1], e.pid, e.umask, e.action);
    }
  }

  lemma StoreStep(s: State, p: Pid, umask: Mode, a: Action)
    requires Step(s, p, umask, a).Some?
    ensures
      var t := Step(s, p, umask, a).value;
      && (StoreFile(0) in s.files ==> StoreFile(0) in t.files && t.files[StoreFile(0)] == s.files[StoreFile(0)])
      && t.rows == s.rows + if a.Append? then [a.row] else []
  {
  }

  /** The destination a process is making a snapshot for, and what was committed when it was asked to. */
  function Asked(ph: Phase): Option<(string, seq<Record>)> {
    match ph
    case Reserving(dest, since) => Some((dest, since))
    case Reserved(dest, since, _) => Some((dest, since))
    case Copying(dest, since, _, _) => Some((dest, since))
    case Copied(dest, since, _) => Some((dest, since))
    case Secured(dest, since, _) => Some((dest, since))
    case _ => None
  }

  lemma AskedAfter(s: State, p: Pid, umask: Mode, a: Action, q: Pid)
    requires Step(s, p, umask, a).Some?
    ensures
      var t := Step(s, p, umask, a).value;
      Asked(At(t, q)).Some? ==>
        Asked(At(t, q)) == if q == p && a.AskSnapshot? then Some((a.dest, s.rows)) else Asked(At(s, q))
  {
  }

  /** The j-th event is the last before the i-th in which p was asked for a snapshot. */
  ghost predicate LastAsked(events: seq<Event>, j: nat, i: nat, p: Pid) {
    && j < i <= |events| && events[j].pid == p && events[j].action.AskSnapshot?
    && forall k :: j < k < i && events[k].pid == p ==> !events[k].action.AskSnapshot?
  }

  /** What a process is making a snapshot of is what it was last asked for. */
  lemma {:induction false} AskedWhen(states: seq<State>, events: seq<Event>, i: nat, p: Pid)
    requires IsRun(states, events) && i < |states| && Asked(At(states[i], p)).Some?
    ensures exists j: nat :: LastAsked(events, j, i, p)
                             && Asked(At(states[i], p)) == Some((events[j].action.dest, states[j].rows))
  {
    if i > 0 {
      var e := events[i - 1];
      assert Step(states[i - 1], e.pid, e.umask, e.action) == Some(states[i]);
      AskedAfter(states[i - 1], e.pid, e.umask, e.action, p);
      if e.pid == p && e.action.AskSnapshot? {
        assert LastAsked(events, i - 1, i, p);
      } else {
        AskedWhen(states, events, i - 1, p);
        var j: nat :| LastAsked(events, j, i - 1, p)
                      && Asked(At(states[i - 1], p)) == Some((events[j].action.dest, states[j].rows));
        assert LastAsked(events, j, i, p);
      }
    }
  }

  /**
   Only a rename that succeeds changes a destination. What it puts there is a
   copy for its owner only, and of the snapshot the renaming process was last
   asked for: every row committed by then is in it, and no row that was never
   committed.
   */
  lemma OnlyRenamePublishes(states: seq<State>, events: seq<Event>, i: nat, dest: string)
    requires IsRun(states, events) && i < |events|
    requires Dest(dest) in states[i + 1].files
    requires Dest(dest) !in states[i].files || states[i].files[Dest(dest)] != states[i + 1].files[Dest(dest)]
    ensures events[i].action == Rename(true)
    ensures states[i + 1].files[Dest(dest)].mode == 0x180
    ensures exists j: nat :: LastAsked(events, j, i, events[i].pid) && events[j].action == AskSnapshot(dest)
                             && IsCopy(states[i + 1].files[Dest(dest)], states[j].rows, states[i].rows)
  {
    RunKeeps(states, events, i);
    var s, e := states[i], events[i];
    assert Step(s, e.pid, e.umask, e.action) == Some(states[i + 1]);
    assert PhaseOk(s, At(s, e.pid));
    DestUntouched(s, e.pid, e.umask, e.action, Dest(dest));
    AskedWhen(states, events, i, e.pid);
    hide IsRun, Inv;
  }

  lemma DestUntouched(s: State, p: Pid, umask: Mode, a: Action, path: Path)
    requires Step(s, p, umask, a).Some? && path.Dest?
    ensures
      var t := Step(s, p, umask, a).value;
      || (a == Rename(true) && At(s, p).Secured? && At(s, p).dest == path.name)
      || ((path in t.files <==> path in s.files) && (path in s.files ==> t.files[path] == s.files[path]))
  {
  }

  /** Once the removal succeeded, nothing of the staging directory is left. */
  lemma RemovalIsComplete(states: seq<State>, events: seq<Event>, i: nat)
    requires IsRun(states, events) && i < |events|
    requires events[i].action.RemoveStage? && events[i].action.ok
    ensures
      var dir := DirOf(At(states[i], events[i].pid));
      && dir.Some?
      && dir.value !in states[i + 1].stages
      && forall path :: path in states[i + 1].files && path.Staged? ==> path.dir != dir.value
  {
    RunKeeps(states, events, i + 1);
    var s, e := states[i], events[i];
    assert Step(s, e.pid, e.umask, e.action) == Some(states[i + 1]);
  }

  /**
   A staging directory is there exactly while a process is at work in it, or
   after its removal failed or its process died; a copy is nowhere else. With
   no snapshot under way and none of these mishaps, nothing at all is left.
   */
  lemma OnlyLitterStays(states: seq<State>, events: seq<Event>, i: nat)
    requires IsRun(states, events) && i < |states|
    ensures forall dir :: dir in states[i].stages <==>
      dir in states[i].litter || exists p: Pid :: DirOf(At(states[i], p)) == Some(dir)
    ensures forall path :: path in states[i].files && path.Staged? ==> path.dir in states[i].stages
    ensures (forall p: Pid :: DirOf(At(states[i], p)) == None) ==> states[i].stages.Keys == states[i].litter
    ensures (forall p: Pid :: DirOf(At(states[i], p)) == None) && states[i].litter == {} ==>
      forall path :: path in states[i].files ==> !path.Staged?
  {
    var s := states[i];
    RunKeeps(states, events, i);
    forall p: Pid, dir | DirOf(At(s, p)) == Some(dir)
      ensures dir in s.stages
    {
      assert PhaseOk(s, At(s, p));
    }
  }

  /** A copy, a chmod and a rename always find the file they are about: overlapping runs never take it away. */
  lemma StagedFileIsThere(states: seq<State>, events: seq<Event>, i: nat, p: Pid)
    requires IsRun(states, events) && i < |states|
    requires var ph := At(states[i], p); ph.Copying? || ph.Copied? || ph.Secured?
    ensures Staged(At(states[i], p).dir) in states[i].files
    ensures forall q: Pid :: q != p ==> DirOf(At(states[i], q)) != DirOf(At(states[i], p))
  {
    RunKeeps(states, events, i);
    assert PhaseOk(states[i], At(states[i], p));
  }

  /** The first n of the store's own files as the permission check finds them under their names. */
  function DiskOf(s: State, path: string, n: nat): Disk
    requires n <= 4
  {
    if n == 0 then map[]
    else
      var disk := DiskOf(s, path, n - 1);
      if StoreFile(n - 1) !in s.files then disk
      else disk[StorePaths(path)[n - 1] := Regular(s.files[StoreFile(n - 1)].mode)]
  }

  lemma {:induction false} DiskIsSound(first: map<Path, File>, s: State, path: string, n: nat)
    requires FilesOk(first, s) && n <= 4
    ensures forall p :: p in DiskOf(s, path, n) ==> DiskOf(s, path, n)[p].Regular? && !Loose(DiskOf(s, path, n)[p].mode)
  {
    if n > 0 {
      DiskIsSound(first, s, path, n - 1);
    }
  }

  /** As long as nothing outside these steps touches the files, the permission check has nothing to report, ever. */
  lemma CheckStaysSilent(states: seq<State>, events: seq<Event>, i: nat, path: string)
    requires IsRun(states, events) && i < |states|
    ensures forall k :: 0 <= k < 4 ==> IssueWith(DiskOf(states[i], path, 4), path, k) == Success(None)
    ensures Issues(DiskOf(states[i], path, 4), path, 4) == []
  {
    RunKeeps(states, events, i);
    DiskIsSound(states[0].files, states[i], path, 4);
    SoundStoreHasNoIssues(DiskOf(states[i], path, 4), path);
  }

  // ---------- Snapshot, as one process carries it out ----------

  /** The state the events lead to, if each of them can happen in turn. */
  function After(s: State, events: seq<Event>): Option<State> {
    if events == [] then Some(s)
    else
      var n := |events| - 1;
      match After(s, events[..n])
      case None => None
      case Some(t) => Step(t, events[n].pid, events[n].umask, events[n].action)
  }

  /** Whatever is done step by step keeps the invariant. */
  lemma {:induction false} TraceKeeps(first: map<Path, File>, s: State, events: seq<Event>)
    requires Inv(first, s) && After(s, events).Some?
    ensures Inv(first, After(s, events).value)
  {
    if events != [] {
      var n := |events| - 1;
      TraceKeeps(first, s, events[..n]);
      StepKeeps(first, After(s, events[..n]).value, events[n].pid, events[n].umask, events[n].action);
    }
  }

  /** The machine, and what has been done on it. */
  class Host {
    var state: State
    ghost var start: State
    ghost var trace: seq<Event>

    ghost predicate Valid()
      reads this
    {
      After(start, trace) == Some(state)
    }

    constructor (s: State)
      ensures Valid() && state == start == s && trace == []
    {
      state, start, trace := s, s, [];
    }

    method Perform(p: Pid, umask: Mode, a: Action)
      requires Valid() && Step(state, p, umask, a).Some?
      modifies this
      ensures Valid() && start == old(start) && trace == old(trace) + [Event(p, umask, a)]
      ensures Some(state) == Step(old(state), p, umask, a)
    {
      ghost var done := trace + [Event(p, umask, a)];
      assert done[..|trace|] == trace;
      trace := done;
      state := Step(state, p, umask, a).value;
    }
  }

  /** Which of the calls a snapshot makes go well; a failed removal may still have emptied the directory. */
  datatype Luck = Luck(stage: bool, begun: bool, copied: bool, chmod: bool, rename: bool, removed: bool, emptied: bool) {
    predicate Publishes() {
      stage && begun && copied && chmod && rename
    }
  }

  /** What Snapshot reports: that there is no new copy, that the staging directory could not be cleared, or both. */
  datatype SnapshotError = NoStage | Joined(unpublished: bool, uncleared: bool)

  /** The files agree everywhere but at one path. */
  ghost predicate SameBut(a: map<Path, File>, b: map<Path, File>, except: Path) {
    forall path :: path != except ==> (path in a <==> path in b) && (path in a ==> a[path] == b[path])
  }

  /** The files of a state, with a complete copy of it at the destination if there is one. */
  function Published(s: State, dest: string, done: bool): map<Path, File> {
    if done then s.files[Dest(dest) := File(OWNER_ONLY, Copy(s.rows))] else s.files
  }

  /** VACUUM INTO the staging directory: begun, and then finished. */
  method CopyOut(host: Host, p: Pid, umask: Mode, luck: Luck) returns (ok: bool)
    requires host.Valid() && At(host.state, p).Reserved?
    modifies host
    ensures host.Valid() && host.start == old(host.start) && old(host.trace) <= host.trace
    ensures ok <==> luck.begun && luck.copied
    ensures
      var s, t, ph := old(host.state), host.state, At(old(host.state), p);
      && t.rows == s.rows && t.stages == s.stages
      && SameBut(t.files, s.files, Staged(ph.dir))
      && At(t, p) == (if ok then Copied(ph.dest, ph.since, ph.dir) else Cleaning(ph.dest, ph.dir))
      && (ok ==> Staged(ph.dir) in t.files && t.files[Staged(ph.dir)].content == Copy(s.rows))
  {
    hide After, Masked;
    host.Perform(p, umask, StartCopy(luck.begun));
    if !luck.begun {
      return false;
    }
    host.Perform(p, umask, FinishCopy(luck.copied));
    return luck.copied;
  }

  /** From the staging directory to the destination; the first call that fails ends it. */
  method Publish(host: Host, p: Pid, umask: Mode, luck: Luck) returns (ok: bool)
    requires host.Valid() && At(host.state, p).Reserved? && luck.stage
    modifies host
    ensures host.Valid() && host.start == old(host.start) && old(host.trace) <= host.trace
    ensures ok <==> luck.Publishes()
    ensures
      var s, t, ph := old(host.state), host.state, At(old(host.state), p);
      && t.rows == s.rows && t.stages == s.stages && At(t, p) == Cleaning(ph.dest, ph.dir)
      && SameBut(t.files, Published(s, ph.dest, ok), Staged(ph.dir))
  {
    hide After, Masked;
    ok := CopyOut(host, p, umask, luck);
    if !ok {
      return;
    }
    host.Perform(p, umask, Chmod(luck.chmod));
    if !luck.chmod {
      return false;
    }
    host.Perform(p, umask, Rename(luck.rename));
    return luck.rename;
  }

  /** Notes what is committed and makes the staging directory. */
  method Reserve(host: Host, p: Pid, umask: Mode, dest: string, dir: nat, ok: bool)
    requires host.Valid() && At(host.state, p) == Open && dir !in host.state.stages
    modifies host
    ensures host.Valid() && host.start == old(host.start) && old(host.trace) <= host.trace
    ensures
      var s, t := old(host.state), host.state;
      && t.rows == s.rows && t.files == s.files && t.stages.Keys == s.stages.Keys + (if ok then {dir} else {})
      && t.stages - {dir} == s.stages
      && At(t, p) == (if ok then Reserved(dest, s.rows, dir) else Open)
  {
    hide After, Masked;
    host.Perform(p, umask, AskSnapshot(dest));
    host.Perform(p, umask, MakeStage(dir, ok));
  }

  /** Removes the staging directory with what it holds. */
  method ClearUp(host: Host, p: Pid, umask: Mode, luck: Luck)
    requires host.Valid() && At(host.state, p).Cleaning?
    modifies host
    ensures host.Valid() && host.start == old(host.start) && old(host.trace) <= host.trace
    ensures
      var s, t, ph := old(host.state), host.state, At(old(host.state), p);
      && t.rows == s.rows && At(t, p) == Open && SameBut(t.files, s.files, Staged(ph.dir))
      && (luck.removed ==> t.stages == s.stages - {ph.dir} && Staged(ph.dir) !in t.files)
  {
    hide After, Masked;
    host.Perform(p, umask, RemoveStage(luck.removed, luck.emptied));
  }

  /**
   Stages, copies, tightens, renames, and clears up in any case, undisturbed by
   others. Every call is a step of the machine above, so whatever holds of its
   runs holds of this. The destination changes exactly when every call up to
   the rename goes well, and nothing else is different afterwards unless
   clearing up failed.
   */
  method Snapshot(host: Host, p: Pid, umask: Mode, dest: string, dir: nat, luck: Luck) returns (r: Result<(), SnapshotError>)
    requires host.Valid() && At(host.state, p) == Open && dir !in host.state.stages
    requires Staged(dir) !in host.state.files
    modifies host
    ensures host.Valid() && host.start == old(host.start) && old(host.trace) <= host.trace
    ensures r.Success? <==> luck.Publishes() && luck.removed
    ensures r.Failure? ==> r.error == if luck.stage then Joined(!luck.Publishes(), !luck.removed) else NoStage
    ensures At(host.state, p) == Open && host.state.rows == old(host.state.rows)
    ensures SameBut(host.state.files, Published(old(host.state), dest, luck.Publishes()), Staged(dir))
    ensures !luck.stage || luck.removed ==>
      host.state.stages == old(host.state.stages) && Staged(dir) !in host.state.files
  {
    hide After, Step, Masked;
    Reserve(host, p, umask, dest, dir, luck.stage);
    if !luck.stage {
      return Failure(NoStage);
    }
    var ok := Publish(host, p, umask, luck);
    ClearUp(host, p, umask, luck);
    if ok && luck.removed {
      return Success(());
    }
    return Failure(Joined(!ok, !luck.removed));
  }

  /** What is made has the modes of the source, less the umask: 0600 for the store, 0700 for a staging directory. */
  lemma MadeWithModes(s: State, p: Pid, umask: Mode, dir: nat)
    ensures At(s, p).Absent? && StoreFile(0) !in s.files ==>
      Step(s, p, umask, OpenStore).Some?
      && Step(s, p, umask, OpenStore).value.files[StoreFile(0)].mode == 0x180 & !umask
    ensures At(s, p).Reserving? && dir !in s.stages ==>
      Step(s, p, umask, MakeStage(dir, true)).Some?
      && Step(s, p, umask, MakeStage(dir, true)).value.stages[dir] == 0x1C0 & !umask
  {
  }
}
