/** The file-integrity monitor: a baseline of hashes, its checks, and the file it is kept in. */
module FileIntegrity {
  import opened Options

  /** A hexadecimal digest, never empty. */
  type Digest = s: string | s != "" witness "0"

  /** A baseline as it may be loaded: any string, or null. */
  type Baseline = map<string, Option<string>>

  /** What hashing a path gives: None when the file cannot be read. */
  type Files = string -> Option<Digest>

  datatype Change =
    | Deleted(path: string)
    | New(path: string)
    | Modified(path: string, previous: Option<string>, current: Option<string>)

  /** The baseline file. Content that does not parse counts as corrupt. */
  datatype Saved = Missing | Corrupt | Json(baseline: Baseline)

  /** A write succeeds, fails before it changes anything, or leaves a truncated file. */
  datatype Write = Written | Refused | Torn

  function Get(b: Baseline, path: string): Option<string>
  {
    if path in b then b[path] else None
  }

  /** Python's truth value of a hash. */
  predicate Truthy(h: Option<string>)
  {
    h.Some? && h.value != ""
  }

  function Load(file: Saved): Baseline
  {
    if file.Json? then file.baseline else map[]
  }

  function Save(file: Saved, b: Baseline, w: Write): Saved
  {
    match w
    case Written => Json(b)
    case Refused => file
    case Torn => Corrupt
  }

  // ----- one check as a function

  function ChangeAt(b: Baseline, path: string, files: Files): Option<Change>
  {
    var current, base := files(path), Get(b, path);
    if current.None? && Truthy(base) then Some(Deleted(path))
    else if Truthy(current) && !Truthy(base) then Some(New(path))
    else if current != base then Some(Modified(path, base, current))
    else None
  }

  function Update(b: Baseline, path: string, files: Files): Baseline
  {
    match ChangeAt(b, path, files)
    case None => b
    case Some(Deleted(_)) => b
    case Some(_) => b[path := files(path)]
  }

  function Updated(b: Baseline, paths: seq<string>, files: Files): Baseline
    decreases |paths|
  {
    if paths == [] then b
    else Update(Updated(b, paths[..|paths| - 1], files), paths[|paths| - 1], files)
  }

  function Changes(b: Baseline, paths: seq<string>, files: Files): seq<Change>
    decreases |paths|
  {
    if paths == [] then []
    else
      var n := |paths| - 1;
      var front := Changes(b, paths[..n], files);
      match ChangeAt(Updated(b, paths[..n], files), paths[n], files)
      case None => front
      case Some(c) => front + [c]
  }

  function Initialized(b: Baseline, paths: seq<string>, files: Files): Baseline
    decreases |paths|
  {
    if paths == [] then b
    else
      var n := |paths| - 1;
      var front := Initialized(b, paths[..n], files);
      if Truthy(files(paths[n])) then front[paths[n] := files(paths[n])] else front
  }

  datatype State = State(baseline: Baseline, file: Saved)

  function Check(s: State, paths: seq<string>, files: Files, w: Write): (State, seq<Change>)
  {
    if s.baseline == map[] then
      var b := Initialized(s.baseline, paths, files);
      (State(b, Save(s.file, b, w)), [])
    else
      var b, changes := Updated(s.baseline, paths, files), Changes(s.baseline, paths, files);
      (State(b, if changes != [] then Save(s.file, b, w) else s.file), changes)
  }

  /** A new monitor over the same file. */
  function Restart(s: State): State
  {
    State(Load(s.file), s.file)
  }

  class FileIntegrityMonitor {
    const paths: seq<string>
    var baseline: Baseline
    /** The content of the baseline file. */
    var file: Saved

    constructor (paths: seq<string>, file: Saved)
      ensures this.paths == paths && this.file == file
      ensures baseline == Load(file)
    {
      this.paths := paths;
      this.file := file;
      baseline := Load(file);
    }

    method SaveBaseline(w: Write)
      modifies this`file
      ensures file == Save(old(file), baseline, w)
    {
      match w
      case Written => file := Json(baseline);
      case Refused =>
      case Torn => file := Corrupt;
    }

    method InitializeBaseline(files: Files, w: Write)
      modifies this
      ensures baseline == Initialized(old(baseline), paths, files)
      ensures file == Save(old(file), baseline, w)
    {
      var i := 0;
      while i < |paths|
        invariant 0 <= i <= |paths|
        invariant baseline == Initialized(old(baseline), paths[..i], files)
        invariant file == old(file)
      {
        assert paths[..i + 1][..i] == paths[..i];
        var h := files(paths[i]);
        if Truthy(h) {
          baseline := baseline[paths[i] := h];
        }
        i := i + 1;
      }
      assert paths[..i] == paths;
      SaveBaseline(w);
    }

    method CheckFiles(files: Files, w: Write) returns (changes: seq<Change>)
      modifies this
      ensures (State(baseline, file), changes) == Check(old(State(baseline, file)), paths, files, w)
    {
      if baseline == map[] {
        InitializeBaseline(files, w);
        return [];
      }
      changes := [];
      var i := 0;
      while i < |paths|
        invariant 0 <= i <= |paths|
        invariant baseline == Updated(old(baseline), paths[..i], files)
        invariant changes == Changes(old(baseline), paths[..i], files)
        invariant file == old(file)
      {
        assert paths[..i + 1][..i] == paths[..i];
        var path := paths[i];
        var current, base := files(path), Get(baseline, path);
        if current.None? && Truthy(base) {
          changes := changes + [Deleted(path)];
        } else if Truthy(current) && !Truthy(base) {
          baseline := baseline[path := current];
          changes := changes + [New(path)];
        } else if current != base {
          changes := changes + [Modified(path, base, current)];
          baseline := baseline[path := current];
        }
        i := i + 1;
      }
      assert paths[..i] == paths;
      if changes != [] {
        SaveBaseline(w);
      }
    }
  }

  // ----- what a check does to the baseline

  /** The hash of `path` after a check: the file's, if it can be read; otherwise what was known. */
  function Target(b: Baseline, paths: seq<string>, files: Files, path: string): Option<string>
  {
    if path !in paths then Get(b, path)
    else if files(path).Some? then files(path)
    else if Truthy(Get(b, path)) then Get(b, path)
    else None
  }

  lemma {:induction false} UpdatedIsTarget(b: Baseline, paths: seq<string>, files: Files, path: string)
    ensures Get(Updated(b, paths, files), path) == Target(b, paths, files, path)
    decreases |paths|
  {
    if paths != [] {
      var n := |paths| - 1;
      UpdatedIsTarget(b, paths[..n], files, path);
      assert paths == paths[..n] + [paths[n]];
    }
  }

  /** After a check the baseline agrees with the disk on every monitored path that can be read. */
  lemma AgreesWithDisk(b: Baseline, paths: seq<string>, files: Files, path: string)
    requires path in paths && files(path).Some?
    ensures Get(Updated(b, paths, files), path) == files(path)
  {
    UpdatedIsTarget(b, paths, files, path);
  }

  /** Applies a reported change; a 'new' entry carries no hash, so it is read from the disk. */
  function ReplayOne(b: Baseline, c: Change, files: Files): Baseline
  {
    match c
    case Deleted(_) => b
    case New(path) => b[path := files(path)]
    case Modified(path, _, current) => b[path := current]
  }

  function Replay(b: Baseline, changes: seq<Change>, files: Files): Baseline
    decreases |changes|
  {
    if changes == [] then b
    else ReplayOne(Replay(b, changes[..|changes| - 1], files), changes[|changes| - 1], files)
  }

  lemma ReplayAppend(b: Baseline, changes: seq<Change>, c: Change, files: Files)
    ensures Replay(b, changes + [c], files) == ReplayOne(Replay(b, changes, files), c, files)
  {
    assert (changes + [c])[..|changes|] == changes;
  }

  /** The reports account for every update: replaying them over the old baseline gives the new. */
  lemma {:induction false} ReplayGivesUpdated(b: Baseline, paths: seq<string>, files: Files)
    ensures Replay(b, Changes(b, paths, files), files) == Updated(b, paths, files)
    decreases |paths|
  {
    if paths != [] {
      var front, path := paths[..|paths| - 1], paths[|paths| - 1];
      ReplayGivesUpdated(b, front, files);
      var c := ChangeAt(Updated(b, front, files), path, files);
      if c.Some? {
        ReplayAppend(b, Changes(b, front, files), c.value, files);
      }
    }
  }

  // ----- what a check reports

  ghost predicate IsUpdate(c: Change, path: string)
  {
    !c.Deleted? && c.path == path
  }

  ghost predicate ReportsUpdate(changes: seq<Change>, path: string)
  {
    exists i :: 0 <= i < |changes| && IsUpdate(changes[i], path)
  }

  lemma ReportsUpdateAppend(changes: seq<Change>, c: Change, path: string)
    ensures ReportsUpdate(changes + [c], path) <==> ReportsUpdate(changes, path) || IsUpdate(c, path)
  {
    var all := changes + [c];
    if ReportsUpdate(changes, path) {
      var i :| 0 <= i < |changes| && IsUpdate(changes[i], path);
      assert IsUpdate(all[i], path);
    }
    if IsUpdate(c, path) {
      assert IsUpdate(all[|changes|], path);
    }
  }

  /** A path is reported as new or modified exactly when its hash in the baseline changes, even
      if the path is monitored twice. */
  lemma {:induction false} ReportedExactly(b: Baseline, paths: seq<string>, files: Files, path: string)
    ensures ReportsUpdate(Changes(b, paths, files), path) <==> Get(b, path) != Target(b, paths, files, path)
    decreases |paths|
  {
    if paths != [] {
      var n := |paths| - 1;
      var before := Updated(b, paths[..n], files);
      ReportedExactly(b, paths[..n], files, path);
      UpdatedIsTarget(b, paths[..n], files, path);
      var c := ChangeAt(before, paths[n], files);
      if c.Some? {
        ReportsUpdateAppend(Changes(b, paths[..n], files), c.value, path);
      }
      assert paths == paths[..n] + [paths[n]];
    }
  }

  /** What a check must report, from the baseline before it and the disk alone: a recorded file that
      cannot be read is deleted; a readable one is new when no hash was recorded and modified when
      another was; and an empty string that was recorded for an unreadable file is modified to
      nothing. */
  ghost predicate Due(b: Baseline, paths: seq<string>, files: Files, c: Change)
  {
    var base, disk := Get(b, c.path), files(c.path);
    var unrecorded := base == None || base == Some("");
    c.path in paths &&
    match c
    case Deleted(_) => disk == None && !unrecorded
    case New(_) => disk != None && unrecorded
    case Modified(_, previous, current) =>
      previous == base && current == disk && (if disk == None then base == Some("") else !unrecorded && base != disk)
  }

  /** A check reports exactly what is due, each change as the kind it is. */
  lemma {:induction false} ReportsExactly(b: Baseline, paths: seq<string>, files: Files, c: Change)
    ensures c in Changes(b, paths, files) <==> Due(b, paths, files, c)
    decreases |paths|
  {
    if paths != [] {
      var n := |paths| - 1;
      ReportsExactly(b, paths[..n], files, c);
      UpdatedIsTarget(b, paths[..n], files, paths[n]);
      assert paths == paths[..n] + [paths[n]];
    }
  }

  /** A 'modified' report carries the hash of the old baseline and the hash on disk. */
  lemma {:induction false} ModifiedHashes(b: Baseline, paths: seq<string>, files: Files, i: nat)
    requires i < |Changes(b, paths, files)| && Changes(b, paths, files)[i].Modified?
    ensures var c := Changes(b, paths, files)[i];
            c.previous == Get(b, c.path) && c.current == files(c.path) && c.previous != c.current
    decreases |paths|
  {
    var n := |paths| - 1;
    if i < |Changes(b, paths[..n], files)| {
      ModifiedHashes(b, paths[..n], files, i);
    } else {
      UpdatedIsTarget(b, paths[..n], files, paths[n]);
    }
  }

  /** No path is reported as new or modified twice in one check. */
  lemma {:induction false} ReportedOnce(b: Baseline, paths: seq<string>, files: Files, i: nat, j: nat)
    requires i < j < |Changes(b, paths, files)|
    requires !Changes(b, paths, files)[i].Deleted? && !Changes(b, paths, files)[j].Deleted?
    ensures Changes(b, paths, files)[i].path != Changes(b, paths, files)[j].path
    decreases |paths|
  {
    var n := |paths| - 1;
    var front := Changes(b, paths[..n], files);
    if j < |front| {
      ReportedOnce(b, paths[..n], files, i, j);
    } else {
      var path := front[i].path;
      assert IsUpdate(front[i], path);
      ReportedExactly(b, paths[..n], files, path);
      UpdatedIsTarget(b, paths[..n], files, path);
    }
  }

  /** The monitored paths, with repetitions, that are in the baseline but cannot be read. */
  function Gone(b: Baseline, paths: seq<string>, files: Files): seq<Change>
    decreases |paths|
  {
    if paths == [] then []
    else
      var n := |paths| - 1;
      var front := Gone(b, paths[..n], files);
      if files(paths[n]).None? && Truthy(Get(b, paths[n])) then front + [Deleted(paths[n])] else front
  }

  /** The baseline needs no update on these paths. */
  ghost predicate Settled(b: Baseline, paths: seq<string>, files: Files)
  {
    forall p :: p in paths ==> Get(b, p) == Target(b, paths, files, p)
  }

  lemma {:induction false} SettledCheck(b: Baseline, paths: seq<string>, files: Files)
    requires Settled(b, paths, files)
    ensures Updated(b, paths, files) == b
    ensures Changes(b, paths, files) == Gone(b, paths, files)
    decreases |paths|
  {
    if paths != [] {
      var n := |paths| - 1;
      assert paths[n] in paths;
      forall p | p in paths[..n]
        ensures Get(b, p) == Target(b, paths[..n], files, p)
      {
        assert p in paths;
      }
      SettledCheck(b, paths[..n], files);
    }
  }

  lemma UpdatedIsSettled(b: Baseline, paths: seq<string>, files: Files)
    ensures Settled(Updated(b, paths, files), paths, files)
  {
    var after := Updated(b, paths, files);
    forall p | p in paths
      ensures Get(after, p) == Target(after, paths, files, p)
    {
      UpdatedIsTarget(b, paths, files, p);
    }
  }

  /** A second check on an unchanged disk reports only the deleted files, and changes nothing. */
  lemma ChecksConverge(s: State, paths: seq<string>, files: Files, w: Write, w': Write)
    requires s.baseline != map[]
    ensures var first := Check(s, paths, files, w).0;
            var second := Check(first, paths, files, w');
            first.baseline != map[] && second.0.baseline == first.baseline &&
            second.1 == Gone(first.baseline, paths, files)
  {
    UpdatedIsSettled(s.baseline, paths, files);
    UpdatedKeepsKeys(s.baseline, paths, files);
    SettledCheck(Updated(s.baseline, paths, files), paths, files);
  }

  lemma {:induction false} UpdatedKeepsKeys(b: Baseline, paths: seq<string>, files: Files)
    ensures b.Keys <= Updated(b, paths, files).Keys
    decreases |paths|
  {
    if paths != [] {
      UpdatedKeepsKeys(b, paths[..|paths| - 1], files);
    }
  }

  lemma {:induction false} InitializedIs(paths: seq<string>, files: Files, path: string)
    ensures Get(Initialized(map[], paths, files), path) == (if path in paths then files(path) else None)
    decreases |paths|
  {
    if paths != [] {
      var n := |paths| - 1;
      InitializedIs(paths[..n], files, path);
      assert paths == paths[..n] + [paths[n]];
    }
  }

  lemma {:induction false} NothingGone(b: Baseline, paths: seq<string>, files: Files)
    requires forall p :: p in paths ==> Get(b, p) == files(p)
    ensures Gone(b, paths, files) == []
    decreases |paths|
  {
    if paths != [] {
      var n := |paths| - 1;
      assert paths[n] in paths;
      assert forall p :: p in paths[..n] ==> p in paths;
      NothingGone(b, paths[..n], files);
    }
  }

  /** The first check builds the baseline from the disk and reports nothing, and a second one finds
      no change. */
  lemma FirstCheckSettles(file: Saved, paths: seq<string>, files: Files, w: Write, w': Write)
    ensures var first := Check(State(map[], file), paths, files, w).0;
            Check(State(map[], file), paths, files, w).1 == [] &&
            (forall p :: p in paths ==> Get(first.baseline, p) == files(p)) &&
            Check(first, paths, files, w').1 == []
  {
    var first := Check(State(map[], file), paths, files, w).0;
    forall p | p in paths
      ensures Get(first.baseline, p) == files(p)
    {
      InitializedIs(paths, files, p);
    }
    if first.baseline != map[] {
      SettledCheck(first.baseline, paths, files);
      NothingGone(first.baseline, paths, files);
    }
  }

  // ----- restarts

  /** The saved baseline reloads to the one in memory. */
  ghost predicate Synced(s: State)
  {
    Load(s.file) == s.baseline
  }

  lemma NoChangesNoUpdate(b: Baseline, paths: seq<string>, files: Files)
    requires Changes(b, paths, files) == []
    ensures Updated(b, paths, files) == b
  {
    ReplayGivesUpdated(b, paths, files);
  }

  /** After a check the file still matches memory exactly when the write succeeded, the failed
      write left the file alone and there was nothing new to record, or the file was truncated
      and there is nothing to reload. */
  lemma CheckSynced(s: State, paths: seq<string>, files: Files, w: Write)
    requires Synced(s)
    ensures var (t, changes) := Check(s, paths, files, w);
            Synced(t) <==>
            match w
            case Written => true
            case Refused => t.baseline == s.baseline
            case Torn => t.baseline == map[] || (s.baseline != map[] && changes == [])
  {
    if s.baseline != map[] && Changes(s.baseline, paths, files) == [] {
      NoChangesNoUpdate(s.baseline, paths, files);
    }
  }

  datatype Op = Scan(files: Files) | Reboot

  function RunState(s: State, paths: seq<string>, ops: seq<Op>): State
    decreases |ops|
  {
    if ops == [] then s
    else
      var before := RunState(s, paths, ops[..|ops| - 1]);
      match ops[|ops| - 1]
      case Scan(files) => Check(before, paths, files, Written).0
      case Reboot => Restart(before)
  }

  function RunReports(s: State, paths: seq<string>, ops: seq<Op>): seq<seq<Change>>
    decreases |ops|
  {
    if ops == [] then []
    else
      var before := RunReports(s, paths, ops[..|ops| - 1]);
      match ops[|ops| - 1]
      case Scan(files) => before + [Check(RunState(s, paths, ops[..|ops| - 1]), paths, files, Written).1]
      case Reboot => before
  }

  function WithoutReboots(ops: seq<Op>): seq<Op>
    decreases |ops|
  {
    if ops == [] then []
    else
      var front, last := WithoutReboots(ops[..|ops| - 1]), ops[|ops| - 1];
      if last.Reboot? then front else front + [last]
  }

  /** Restarting the monitor between any checks changes no report and no later state. */
  lemma {:induction false} RestartsAreInvisible(s: State, paths: seq<string>, ops: seq<Op>)
    requires Synced(s)
    ensures Synced(RunState(s, paths, ops))
    ensures RunState(s, paths, ops) == RunState(s, paths, WithoutReboots(ops))
    ensures RunReports(s, paths, ops) == RunReports(s, paths, WithoutReboots(ops))
    decreases |ops|
  {
    if ops != [] {
      var front, last := ops[..|ops| - 1], ops[|ops| - 1];
      RestartsAreInvisible(s, paths, front);
      if last.Scan? {
        CheckSynced(RunState(s, paths, front), paths, last.files, Written);
        var kept := WithoutReboots(front);
        assert (kept + [last])[..|kept|] == kept;
      }
    }
  }
}
