/** Which files of a store are reachable beyond their owner, and how to repair that. */
module Permissions {
  import opened Wrappers
  import opened Sequences
  import opened Shell

  /** The nine permission bits. */
  type Mode = bv9

  const GROUP_AND_OTHER: Mode := 0x3F
  const OWNER_ONLY: Mode := 0x180

  predicate Loose(m: Mode) {
    m & GROUP_AND_OTHER != 0
  }

  datatype Node = Regular(mode: Mode) | Symlink(target: string) | Denied

  /** The names on disk; Denied stands for a name whose inspection fails. */
  type Disk = map<string, Node>

  datatype StatError = NotExist | Other

  /** The mode of a name without following it; None when it is a symbolic link. */
  function Lstat(disk: Disk, path: string): Result<Option<Mode>, StatError> {
    if path !in disk then Failure(NotExist)
    else match disk[path]
      case Regular(mode) => Success(Some(mode))
      case Symlink(_) => Success(None)
      case Denied => Failure(Other)
  }

  const MAX_LINKS := 40

  /** The mode of what a name leads to, through at most `hops` links. */
  function Stat(disk: Disk, path: string, hops: nat): Result<Mode, StatError>
    decreases hops
  {
    if path !in disk then Failure(NotExist)
    else match disk[path]
      case Regular(mode) => Success(mode)
      case Symlink(target) => if hops == 0 then Failure(Other) else Stat(disk, target, hops - 1)
      case Denied => Failure(Other)
  }

  datatype PermissionIssue = PermissionIssue(path: string, mode: Mode, symlink: bool)

  function StorePaths(path: string): seq<string> {
    [path, path + "-wal", path + "-shm", path + "-journal"]
  }

  /** The issue with the i-th file of the store, if it has one. */
  function IssueWith(disk: Disk, path: string, i: nat): Result<Option<PermissionIssue>, ()>
    requires i < 4
  {
    var p := StorePaths(path)[i];
    match Lstat(disk, p)
    case Failure(NotExist) => Success(None)
    case Failure(Other) => Failure(())
    case Success(None) =>
      if i > 0 then Success(Some(PermissionIssue(p, 0, true)))
      else (match Stat(disk, p, MAX_LINKS)
            case Failure(NotExist) => Success(None)
            case Failure(Other) => Failure(())
            case Success(mode) => Success(if Loose(mode) then Some(PermissionIssue(p, mode, false)) else None))
    case Success(Some(mode)) => Success(if Loose(mode) then Some(PermissionIssue(p, mode, false)) else None)
  }

  /** The issues of the first n files, in order. */
  function Issues(disk: Disk, path: string, n: nat): seq<PermissionIssue>
    requires n <= 4
  {
    if n == 0 then []
    else match IssueWith(disk, path, n - 1)
      case Success(Some(issue)) => Issues(disk, path, n - 1) + [issue]
      case _ => Issues(disk, path, n - 1)
  }

  method CheckPermissions(disk: Disk, path: string) returns (r: Result<seq<PermissionIssue>, ()>)
    ensures r.Failure? <==> exists i :: 0 <= i < 4 && IssueWith(disk, path, i).Failure?
    ensures r.Success? ==> r.value == Issues(disk, path, 4)
  {
    var issues: seq<PermissionIssue> := [];
    var paths := [path, path + "-wal", path + "-shm", path + "-journal"];
    for i := 0 to |paths|
      invariant issues == Issues(disk, path, i)
      invariant forall k :: 0 <= k < i ==> IssueWith(disk, path, k).Success?
    {
      var p := paths[i];
      var isSidecar := i > 0;
      var info := Lstat(disk, p);
      if info.Failure? {
        if info.error == NotExist {
          continue;
        }
        assert IssueWith(disk, path, i).Failure?;
        return Failure(());
      }
      var perm: Mode;
      if info.value == None {
        if isSidecar {
          issues := issues + [PermissionIssue(p, 0, true)];
          continue;
        }
        var followed := Stat(disk, p, MAX_LINKS);
        if followed.Failure? {
          if followed.error == NotExist {
            continue;
          }
          assert IssueWith(disk, path, i).Failure?;
          return Failure(());
        }
        perm := followed.value;
      } else {
        perm := info.value.value;
      }
      if perm & GROUP_AND_OTHER != 0 {
        issues := issues + [PermissionIssue(p, perm, false)];
      }
    }
    return Success(issues);
  }

  /** What deserves a report: a linked sidecar, or a file whose mode lets others in. */
  predicate Reportable(disk: Disk, path: string, issue: PermissionIssue) {
    if issue.symlink then
      issue.path in StorePaths(path)[1..] && issue.path in disk && disk[issue.path].Symlink? && issue.mode == 0
    else
      && issue.path in StorePaths(path) && issue.path in disk && Loose(issue.mode)
      && (disk[issue.path] == Regular(issue.mode)
          || (issue.path == path && disk[path].Symlink? && Stat(disk, path, MAX_LINKS) == Success(issue.mode)))
  }

  lemma {:induction false} IssuesMembers(disk: Disk, path: string, n: nat, issue: PermissionIssue)
    requires n <= 4
    ensures issue in Issues(disk, path, n) <==> exists i :: 0 <= i < n && IssueWith(disk, path, i) == Success(Some(issue))
  {
    if n > 0 {
      IssuesMembers(disk, path, n - 1, issue);
    }
  }

  lemma PathsDiffer(path: string, i: nat, j: nat)
    requires i < j < 4
    ensures StorePaths(path)[i] != StorePaths(path)[j]
  {
    var suffixes := ["", "-wal", "-shm", "-journal"];
    var a, b := StorePaths(path)[i], StorePaths(path)[j];
    assert path + "" == path;
    assert a == path + suffixes[i] && b == path + suffixes[j];
    assert a[|path|..] == suffixes[i] && b[|path|..] == suffixes[j];
    assert suffixes[1][1] == 'w' && suffixes[2][1] == 's' && |suffixes[3]| == 8;
  }

  /**
   The check reports exactly what deserves a report: every existing file of the
   store that others can reach and every sidecar that is a link. Only the
   database itself is followed when it is a link.
   */
  lemma CheckIsExact(disk: Disk, path: string, issue: PermissionIssue)
    requires forall i :: 0 <= i < 4 ==> IssueWith(disk, path, i).Success?
    ensures issue in Issues(disk, path, 4) <==> Reportable(disk, path, issue)
  {
    IssuesMembers(disk, path, 4, issue);
    var paths := StorePaths(path);
    PathsDiffer(path, 0, 1);
    PathsDiffer(path, 0, 2);
    PathsDiffer(path, 0, 3);
    assert paths[1..] == [paths[1], paths[2], paths[3]];
    if Reportable(disk, path, issue) {
      assert exists i :: 0 <= i < 4 && paths[i] == issue.path;
      var i :| 0 <= i < 4 && paths[i] == issue.path && (issue.symlink ==> i > 0);
      assert IssueWith(disk, path, i) == Success(Some(issue));
    }
  }

  lemma {:induction false} NoIssuesFound(disk: Disk, path: string, n: nat)
    requires n <= 4 && forall i :: 0 <= i < n ==> IssueWith(disk, path, i) == Success(None)
    ensures Issues(disk, path, n) == []
  {
    if n > 0 {
      NoIssuesFound(disk, path, n - 1);
    }
  }

  /** Nothing is reported for a store whose files are all there for their owner only, or not there at all. */
  lemma SoundStoreHasNoIssues(disk: Disk, path: string)
    requires forall p :: p in StorePaths(path) && p in disk ==> disk[p].Regular? && !Loose(disk[p].mode)
    ensures forall i :: 0 <= i < 4 ==> IssueWith(disk, path, i) == Success(None)
    ensures Issues(disk, path, 4) == []
  {
    forall i | 0 <= i < 4
      ensures IssueWith(disk, path, i) == Success(None)
    {
      assert StorePaths(path)[i] in StorePaths(path);
    }
    NoIssuesFound(disk, path, 4);
  }

  // ---------- The repair ----------

  function LoosePaths(issues: seq<PermissionIssue>): seq<string> {
    if issues == [] then []
    else (if issues[0].symlink then [] else [issues[0].path]) + LoosePaths(issues[1..])
  }

  function LinkPaths(issues: seq<PermissionIssue>): seq<string> {
    if issues == [] then []
    else (if issues[0].symlink then [issues[0].path] else []) + LinkPaths(issues[1..])
  }

  lemma {:induction false} PathsAppend(a: seq<PermissionIssue>, issue: PermissionIssue)
    ensures LoosePaths(a + [issue]) == if issue.symlink then LoosePaths(a) else LoosePaths(a) + [issue.path]
    ensures LinkPaths(a + [issue]) == if issue.symlink then LinkPaths(a) + [issue.path] else LinkPaths(a)
  {
    if a == [] {
      assert a + [issue] == [issue] && [issue][1..] == [];
    } else {
      var first := [a[0].path];
      assert (a + [issue])[0] == a[0] && (a + [issue])[1..] == a[1..] + [issue];
      PathsAppend(a[1..], issue);
      Regroup(if a[0].symlink then [] else first, LoosePaths(a[1..]), [issue.path]);
      Regroup(if a[0].symlink then first else [], LinkPaths(a[1..]), [issue.path]);
    }
  }

  /** Each path quoted on its own. */
  function Quoted(paths: seq<string>): seq<string> {
    if paths == [] then [] else [ShellQuote(paths[0])] + Quoted(paths[1..])
  }

  function JoinSpace(words: seq<string>): string {
    if words == [] then "" else if |words| == 1 then words[0] else words[0] + " " + JoinSpace(words[1..])
  }

  lemma {:induction false} JoinQuoted(paths: seq<string>)
    ensures JoinSpace(Quoted(paths)) == QuoteAll(paths)
    ensures |Quoted(paths)| == |paths|
  {
    if paths != [] {
      JoinQuoted(paths[1..]);
      assert Quoted(paths)[1..] == Quoted(paths[1..]);
    }
  }

  lemma {:induction false} QuotedAppend(paths: seq<string>, p: string)
    ensures Quoted(paths + [p]) == Quoted(paths) + [ShellQuote(p)]
  {
    if paths == [] {
      assert paths + [p] == [p] && [p][1..] == [];
    } else {
      assert (paths + [p])[1..] == paths[1..] + [p];
      QuotedAppend(paths[1..], p);
    }
  }

  /**
   The actionable part of UnsafeStoreError: one command for the loose files, and
   the links that have to be replaced by hand. A shell reads the command as
   chmod, 0600 and the loose paths in order.
   */
  method RepairAdvice(issues: seq<PermissionIssue>) returns (command: Option<string>, links: seq<string>)
    ensures links == LinkPaths(issues)
    ensures command == if LoosePaths(issues) == [] then None else Some(RepairLine(LoosePaths(issues)))
    ensures command.Some? && (forall p :: p in LoosePaths(issues) ==> p != "" && NoNul(p)) ==>
      ParseLine(command.value) == Some(["chmod", "0600"] + LoosePaths(issues))
  {
    var repair: seq<string> := [];
    links := [];
    for i := 0 to |issues|
      invariant repair == Quoted(LoosePaths(issues[..i]))
      invariant links == LinkPaths(issues[..i])
    {
      assert issues[..i + 1] == issues[..i] + [issues[i]];
      PathsAppend(issues[..i], issues[i]);
      if issues[i].symlink {
        links := links + [issues[i].path];
        continue;
      }
      QuotedAppend(LoosePaths(issues[..i]), issues[i].path);
      repair := repair + [ShellQuote(issues[i].path)];
    }
    assert issues[..|issues|] == issues;
    command := None;
    ghost var paths := LoosePaths(issues);
    JoinQuoted(paths);
    if |repair| > 0 {
      command := Some("    chmod 0600 " + JoinSpace(repair) + "\n");
      if forall p :: p in paths ==> p != "" && NoNul(p) {
        RepairLineReads(paths);
      }
    }
  }

  // ---------- The same from the modes and links themselves ----------

  /** A mode is loose when any of the six bits for group and other is set: 0040, 0020, 0010, 0004, 0002, 0001. */
  lemma LooseMeans(m: Mode)
    ensures Loose(m) <==>
      m & 0x20 != 0 || m & 0x10 != 0 || m & 0x08 != 0 || m & 0x04 != 0 || m & 0x02 != 0 || m & 0x01 != 0
  {
  }

  /** Each name but the last is a link to the next. */
  ghost predicate IsChain(disk: Disk, names: seq<string>) {
    names != [] && forall k :: 0 <= k < |names| - 1 ==> names[k] in disk && disk[names[k]] == Symlink(names[k + 1])
  }

  /** Following a name leads to `end` through at most 40 links. */
  ghost predicate LeadsTo(disk: Disk, path: string, end: string) {
    exists names :: IsChain(disk, names) && |names| <= 41 && names[0] == path && names[|names| - 1] == end
  }

  /** The names met when following links from a name, at most `hops` of them. */
  function Follow(disk: Disk, path: string, hops: nat): (names: seq<string>)
    ensures 1 <= |names| <= hops + 1 && names[0] == path
    decreases hops
  {
    if hops > 0 && path in disk && disk[path].Symlink? then [path] + Follow(disk, disk[path].target, hops - 1) else [path]
  }

  lemma {:induction false} FollowIsChain(disk: Disk, path: string, hops: nat)
    ensures IsChain(disk, Follow(disk, path, hops))
    ensures
      var names := Follow(disk, path, hops);
      var end := names[|names| - 1];
      && (end in disk && disk[end].Symlink? ==> |names| == hops + 1)
      && Stat(disk, path, hops) ==
           if end !in disk then Failure(NotExist)
           else match disk[end]
             case Regular(mode) => Success(mode)
             case _ => Failure(Other)
    decreases hops
  {
    if hops > 0 && path in disk && disk[path].Symlink? {
      FollowIsChain(disk, disk[path].target, hops - 1);
    }
  }

  /** There is only one way to follow links. */
  lemma {:induction false} ChainIsFollow(disk: Disk, names: seq<string>, hops: nat)
    requires IsChain(disk, names) && |names| <= hops + 1
    requires names[|names| - 1] in disk ==> !disk[names[|names| - 1]].Symlink?
    ensures Follow(disk, names[0], hops) == names
    decreases hops
  {
    if |names| > 1 {
      assert names[0] in disk && disk[names[0]] == Symlink(names[1]);
      forall k | 0 <= k < |names[1..]| - 1
        ensures names[1..][k] in disk && disk[names[1..][k]] == Symlink(names[1..][k + 1])
      {
        assert names[k + 1] in disk;
      }
      ChainIsFollow(disk, names[1..], hops - 1);
    }
  }

  lemma StatMeans(disk: Disk, path: string)
    ensures forall mode :: Stat(disk, path, 40) == Success(mode) <==>
      exists end :: LeadsTo(disk, path, end) && end in disk && disk[end] == Regular(mode)
    ensures Stat(disk, path, 40) == Failure(NotExist) <==> exists end :: LeadsTo(disk, path, end) && end !in disk
  {
    FollowIsChain(disk, path, 40);
    var names := Follow(disk, path, 40);
    var last := names[|names| - 1];
    assert LeadsTo(disk, path, last);
    forall end | LeadsTo(disk, path, end) && (end in disk ==> !disk[end].Symlink?)
      ensures end == last
    {
      var other :| IsChain(disk, other) && |other| <= 41 && other[0] == path && other[|other| - 1] == end;
      ChainIsFollow(disk, other, 40);
    }
  }

  /**
   The check fails exactly when one of the four names cannot be inspected, or
   the database is a link that leads neither to a file nor to nothing: to a name
   that cannot be inspected, or through more than 40 links.
   */
  lemma CheckFailsExactly(disk: Disk, path: string)
    ensures (exists i :: 0 <= i < 4 && IssueWith(disk, path, i).Failure?) <==>
      || (exists p :: p in [path, path + "-wal", path + "-shm", path + "-journal"] && p in disk && disk[p] == Denied)
      || (path in disk && disk[path].Symlink?
          && forall end :: LeadsTo(disk, path, end) ==> end in disk && !disk[end].Regular?)
  {
    var paths := [path, path + "-wal", path + "-shm", path + "-journal"];
    assert paths == StorePaths(path);
    forall i | 0 <= i < 4
      ensures IssueWith(disk, path, i).Failure? <==>
        paths[i] in disk && (disk[paths[i]] == Denied || (i == 0 && disk[path].Symlink? && Stat(disk, path, 40) == Failure(Other)))
    {
      IssueFails(disk, path, i);
    }
    hide Stat, LeadsTo, IssueWith, StorePaths;
    LeadsSomewhere(disk, path);
    if p :| p in paths && p in disk && disk[p] == Denied {
      var i :| 0 <= i < 4 && paths[i] == p;
      assert IssueWith(disk, path, i).Failure?;
    }
    assert paths[0] == path;
    assert forall i :: 0 <= i < 4 ==> paths[i] in paths;
  }

  lemma IssueFails(disk: Disk, path: string, i: nat)
    requires i < 4
    ensures
      var p := StorePaths(path)[i];
      IssueWith(disk, path, i).Failure? <==>
        p in disk && (disk[p] == Denied || (i == 0 && disk[path].Symlink? && Stat(disk, path, 40) == Failure(Other)))
  {
    hide Stat;
  }

  lemma LeadsSomewhere(disk: Disk, path: string)
    ensures Stat(disk, path, 40) == Failure(Other) <==>
      forall end :: LeadsTo(disk, path, end) ==> end in disk && !disk[end].Regular?
  {
    StatMeans(disk, path);
    hide Stat, LeadsTo;
    if Stat(disk, path, 40).Success? {
      var mode := Stat(disk, path, 40).value;
      var end :| LeadsTo(disk, path, end) && end in disk && disk[end] == Regular(mode);
    } else if Stat(disk, path, 40) == Failure(NotExist) {
      var end :| LeadsTo(disk, path, end) && end !in disk;
    } else {
      var stat := Stat(disk, path, 40);
      assert stat.error == Other;
      assert stat == Failure(Other);
    }
  }

  /**
   What is reported, without the model's own terms: a file of the four whose
   mode has a bit for group or other, a sidecar that is a link, or a database
   that leads to such a file.
   */
  lemma CheckReports(disk: Disk, path: string, issue: PermissionIssue)
    requires forall i :: 0 <= i < 4 ==> IssueWith(disk, path, i).Success?
    ensures issue in Issues(disk, path, 4) <==>
      if issue.symlink then
        && issue.path in [path + "-wal", path + "-shm", path + "-journal"]
        && issue.path in disk && disk[issue.path].Symlink? && issue.mode == 0
      else
        && issue.path in [path, path + "-wal", path + "-shm", path + "-journal"]
        && issue.path in disk && issue.mode & 0x3F != 0
        && (disk[issue.path] == Regular(issue.mode)
            || (issue.path == path && disk[path].Symlink?
                && exists end :: LeadsTo(disk, path, end) && end in disk && disk[end] == Regular(issue.mode)))
  {
    CheckIsExact(disk, path, issue);
    StatMeans(disk, path);
    hide Stat, LeadsTo, Issues, IssueWith;
    assert StorePaths(path)[1..] == [path + "-wal", path + "-shm", path + "-journal"];
  }

  /** The issues come in the order of the four names, at most one for each. */
  lemma {:induction false} IssuesInOrder(disk: Disk, path: string, n: nat, a: nat, b: nat)
    requires n <= 4 && a < b < |Issues(disk, path, n)|
    ensures exists i, j ::
      && 0 <= i < j < n
      && Issues(disk, path, n)[a].path == StorePaths(path)[i] && Issues(disk, path, n)[b].path == StorePaths(path)[j]
  {
    hide StorePaths;
    var issues := Issues(disk, path, n);
    if b < |Issues(disk, path, n - 1)| {
      IssuesInOrder(disk, path, n - 1, a, b);
    } else {
      IssuesMembers(disk, path, n - 1, issues[a]);
      assert issues[a] in Issues(disk, path, n - 1);
      var i :| 0 <= i < n - 1 && IssueWith(disk, path, i) == Success(Some(issues[a]));
      IssuePath(disk, path, i);
      IssuePath(disk, path, n - 1);
    }
  }

  lemma IssuePath(disk: Disk, path: string, i: nat)
    requires i < 4
    ensures
      var found := IssueWith(disk, path, i);
      found.Success? && found.value.Some? ==> found.value.value.path == StorePaths(path)[i]
  {
  }

  /** The positions, in order, of the issues that are links or that are not. */
  function Positions(issues: seq<PermissionIssue>, symlink: bool): seq<nat> {
    if issues == [] then []
    else
      var n := |issues| - 1;
      Positions(issues[..n], symlink) + if issues[n].symlink == symlink then [n] else []
  }

  /** Increasing positions of exactly the issues of one kind, with their paths. */
  ghost predicate ArePositions(issues: seq<PermissionIssue>, symlink: bool, at: seq<nat>, paths: seq<string>) {
    && |at| == |paths|
    && (forall k, l :: 0 <= k < l < |at| ==> at[k] < at[l])
    && (forall i :: 0 <= i < |issues| ==> (i in at <==> issues[i].symlink == symlink))
    && (forall k :: 0 <= k < |at| ==> at[k] < |issues| && issues[at[k]].path == paths[k])
  }

  lemma OneMore(issues: seq<PermissionIssue>, issue: PermissionIssue, symlink: bool, at: seq<nat>, paths: seq<string>)
    requires ArePositions(issues, symlink, at, paths)
    ensures issue.symlink == symlink ==> ArePositions(issues + [issue], symlink, at + [|issues|], paths + [issue.path])
    ensures issue.symlink != symlink ==> ArePositions(issues + [issue], symlink, at, paths)
  {
    assert |issues| !in at;
    if issue.symlink == symlink {
      var more, names := at + [|issues|], paths + [issue.path];
      assert forall k :: 0 <= k < |at| ==> more[k] == at[k] && names[k] == paths[k];
      assert more[|at|] == |issues|;
      forall i | 0 <= i < |issues|
        ensures i in more <==> i in at
      {
      }
    }
  }

  lemma {:induction false} PositionsMean(issues: seq<PermissionIssue>, symlink: bool)
    ensures ArePositions(
      issues, symlink, Positions(issues, symlink), if symlink then LinkPaths(issues) else LoosePaths(issues))
  {
    hide ArePositions, LinkPaths, LoosePaths;
    if issues == [] {
      NoPositions(symlink);
    } else {
      var n := |issues| - 1;
      PositionsMean(issues[..n], symlink);
      PathsAppend(issues[..n], issues[n]);
      assert issues == issues[..n] + [issues[n]];
      OneMore(
        issues[..n], issues[n], symlink, Positions(issues[..n], symlink),
        if symlink then LinkPaths(issues[..n]) else LoosePaths(issues[..n]));
      assert Positions(issues[..n], symlink) + [] == Positions(issues[..n], symlink);
    }
  }

  lemma NoPositions(symlink: bool)
    ensures ArePositions([], symlink, [], if symlink then LinkPaths([]) else LoosePaths([]))
  {
  }

  /** The paths to repair are those of the issues that are no links, each once for its issue and in their order. */
  lemma RepairsInOrder(issues: seq<PermissionIssue>)
    ensures exists at: seq<nat> ::
      && |at| == |LoosePaths(issues)|
      && (forall k, l :: 0 <= k < l < |at| ==> at[k] < at[l])
      && (forall i :: 0 <= i < |issues| ==> (i in at <==> !issues[i].symlink))
      && (forall k :: 0 <= k < |at| ==> at[k] < |issues| && issues[at[k]].path == LoosePaths(issues)[k])
  {
    hide LoosePaths, Positions;
    PositionsMean(issues, false);
    var at := Positions(issues, false);
    assert |at| == |LoosePaths(issues)|;
  }

  /** And the paths to replace by hand are those of the links, likewise. */
  lemma LinksInOrder(issues: seq<PermissionIssue>)
    ensures exists at: seq<nat> ::
      && |at| == |LinkPaths(issues)|
      && (forall k, l :: 0 <= k < l < |at| ==> at[k] < at[l])
      && (forall i :: 0 <= i < |issues| ==> (i in at <==> issues[i].symlink))
      && (forall k :: 0 <= k < |at| ==> at[k] < |issues| && issues[at[k]].path == LinkPaths(issues)[k])
  {
    hide LinkPaths, Positions;
    PositionsMean(issues, true);
    var at := Positions(issues, true);
    assert |at| == |LinkPaths(issues)|;
  }
}
