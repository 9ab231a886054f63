/** GitFlashback's export: every commit of a repository's log becomes a folder
    `versions/<hash>` holding the top-level entries of the work tree as that
    commit left it, and `versions/commits.txt` lists the commits.

    git and the file system are abstract. A repository is what the script can
    observe of it: whether it is a directory with a `.git` directory, the lines
    `git log` prints (or that it fails), and for each ref that can be checked
    out, the top-level listing of the work tree afterwards. A ref missing from
    that map is one whose checkout fails; a failed checkout leaves the work tree
    as it was. */
module Flashback {
  import opened Wrappers
  import OsPath
  import PyStrings
  import CommitLog

  /** A directory entry: a file's bytes, or a directory of named entries. */
  datatype Entry = File(bytes: seq<bv8>) | Directory(children: map<string, Entry>)

  /** The top-level entries of a directory, by name. */
  type Tree = map<string, Entry>

  /** The branch checked out again after each commit. */
  const DefaultBranch: string := "main"

  const VersionsName: string := "versions"

  /** Entries of the work tree that are never copied into a snapshot. */
  const Excluded: set<string> := {".git", "versions"}

  datatype Repository = Repository(
    isDir: bool,
    hasGitDir: bool,
    log: Option<seq<string>>,
    trees: map<string, Tree>)

  /** The repository path is a directory holding a `.git` directory. */
  predicate IsGitRepository(r: Repository)
  {
    r.isDir && r.hasGitDir
  }

  /** Why an export stops early. `error_exit` ends the run for the first three
      and for a failed checkout; a failed checkout of the default branch in the
      `finally` block raises instead, and that exception replaces the exit. */
  datatype ExportError =
    | InvalidRepository
    | LogFailed
    | MalformedLine(failure: CommitLog.LineFailure)
    | CheckoutFailed(hash: string)
    | RestoreFailed(hash: string)

  /** `get_commit_details`: the log lines of a valid repository. */
  function CommitDetails(r: Repository): (d: Result<seq<string>, ExportError>)
    ensures d.Success? <==> IsGitRepository(r) && r.log.Some?
    ensures d.Success? ==> d.value == r.log.value
    ensures d.Failure? ==> d.error == (if IsGitRepository(r) then LogFailed else InvalidRepository)
  {
    if !IsGitRepository(r) then Failure(InvalidRepository)
    else match r.log
      case None => Failure(LogFailed)
      case Some(lines) => Success(lines)
  }

  /** Where the `versions` folder goes: `"."` means the working directory, an
      empty argument means the repository itself, anything else is taken as is. */
  function ResolveOutput(output: string, cwd: string, repoPath: string): (r: string)
    ensures output == "." ==> r == cwd
    ensures output == "" ==> r == repoPath
    ensures output != "." && output != "" ==> r == output
  {
    if output == "." then cwd
    else if output == "" then repoPath
    else output
  }

  /** The `versions` folder is always a child named `versions` of the resolved
      output directory. */
  function VersionsFolder(output: string, cwd: string, repoPath: string): (r: string)
    ensures |VersionsName| <= |r| && r[|r| - |VersionsName|..] == VersionsName
    ensures var dir := ResolveOutput(output, cwd, repoPath);
      r[..|r| - |VersionsName|] == dir || r[..|r| - |VersionsName|] == dir + "/"
    ensures var dir := ResolveOutput(output, cwd, repoPath);
      dir != "" && dir[|dir| - 1] != '/' ==> r == dir + "/" + VersionsName
    ensures var dir := ResolveOutput(output, cwd, repoPath);
      (dir == "" || dir[|dir| - 1] == '/') ==> r == dir + VersionsName
  {
    OsPath.Join(ResolveOutput(output, cwd, repoPath), VersionsName)
  }

  /** The entries a snapshot receives: every top-level entry of the work tree
      except `.git` and `versions`, under its own name. */
  function Snapshot(worktree: Tree): (t: Tree)
    ensures forall name :: name in t <==> name in worktree && name !in Excluded
    ensures forall name :: name in t ==> t[name] == worktree[name]
  {
    map name | name in worktree && name !in Excluded :: worktree[name]
  }

  /** What the export can change: the checked-out ref and its work tree, whether
      the `versions` folder exists, the text of `commits.txt` (None before it is
      opened) and the snapshot folders by commit hash. */
  datatype State = State(
    head: string,
    worktree: Tree,
    versionsExists: bool,
    commitsFile: Option<string>,
    snapshots: map<string, Tree>)

  /** A state and the error that stopped the export there, if any. */
  datatype Step = Step(state: State, error: Option<ExportError>)

  /** The folder `os.makedirs(..., exist_ok=True)` leaves for `hash`: the one
      there already, or a new empty one. */
  function Folder(snapshots: map<string, Tree>, hash: string): Tree
  {
    if hash in snapshots then snapshots[hash] else map[]
  }

  /** One pass of the export loop: make the folder, check out the commit and
      copy its entries (skipped when the checkout fails), then check out the
      default branch again whatever happened. */
  function ExportOne(r: Repository, st: State, hash: string): (s: Step)
    ensures s.error.None? <==> hash in r.trees && DefaultBranch in r.trees
    ensures s.error.Some? ==>
      s.error.value == if DefaultBranch in r.trees then CheckoutFailed(hash) else RestoreFailed(hash)
    ensures DefaultBranch in r.trees ==> s.state.head == DefaultBranch && s.state.worktree == r.trees[DefaultBranch]
    ensures DefaultBranch !in r.trees && hash !in r.trees ==> s.state.head == st.head && s.state.worktree == st.worktree
    ensures DefaultBranch !in r.trees && hash in r.trees ==> s.state.head == hash && s.state.worktree == r.trees[hash]
    ensures s.state.snapshots.Keys == st.snapshots.Keys + {hash}
    ensures s.state.snapshots[hash] ==
      if hash in r.trees then Folder(st.snapshots, hash) + Snapshot(r.trees[hash]) else Folder(st.snapshots, hash)
    ensures forall h :: h in st.snapshots && h != hash ==> s.state.snapshots[h] == st.snapshots[h]
    ensures s.state.versionsExists == st.versionsExists && s.state.commitsFile == st.commitsFile
  {
    var made := st.(snapshots := st.snapshots[hash := Folder(st.snapshots, hash)]);
    var tried :=
      if hash in r.trees then
        made.(head := hash, worktree := r.trees[hash],
              snapshots := made.snapshots[hash := made.snapshots[hash] + Snapshot(r.trees[hash])])
      else made;
    if DefaultBranch in r.trees then
      Step(tried.(head := DefaultBranch, worktree := r.trees[DefaultBranch]),
           if hash in r.trees then None else Some(CheckoutFailed(hash)))
    else
      Step(tried, Some(RestoreFailed(hash)))
  }

  /** The export loop over the hashes in log order, stopping at the first error;
      defined from the back as the loop runs. */
  function ExportAll(r: Repository, st: State, hashes: seq<string>): (s: Step)
    ensures s.error.Some? ==>
      (s.error.value.CheckoutFailed? || s.error.value.RestoreFailed?) && s.error.value.hash in hashes
    ensures s.state.versionsExists == st.versionsExists && s.state.commitsFile == st.commitsFile
    ensures st.snapshots.Keys <= s.state.snapshots.Keys
  {
    if |hashes| == 0 then Step(st, None)
    else
      var init := hashes[..|hashes| - 1];
      var prior := ExportAll(r, st, init);
      assert hashes == init + [hashes[|hashes| - 1]];
      if prior.error.Some? then prior
      else ExportOne(r, prior.state, hashes[|hashes| - 1])
  }

  /** One more hash runs one more pass, unless the export has already stopped. */
  lemma ExportAllStep(r: Repository, st: State, hashes: seq<string>, i: nat)
    requires i < |hashes|
    ensures ExportAll(r, st, hashes[..i + 1]) ==
      if ExportAll(r, st, hashes[..i]).error.Some? then ExportAll(r, st, hashes[..i])
      else ExportOne(r, ExportAll(r, st, hashes[..i]).state, hashes[i])
  {
    assert hashes[..i + 1][..i] == hashes[..i];
  }

  /** No commit after a failing one is touched. */
  lemma {:induction false} ExportAllStopsAfterError(r: Repository, st: State, hashes: seq<string>, n: nat)
    requires n <= |hashes| && ExportAll(r, st, hashes[..n]).error.Some?
    ensures ExportAll(r, st, hashes) == ExportAll(r, st, hashes[..n])
    decreases |hashes| - n
  {
    if n < |hashes| {
      var init := hashes[..|hashes| - 1];
      assert init[..n] == hashes[..n];
      ExportAllStopsAfterError(r, st, init, n);
    } else {
      assert hashes[..n] == hashes;
    }
  }

  /** The export runs to the end exactly when every commit can be checked out
      and, if there is any commit, so can the default branch. */
  lemma {:induction false} ExportAllSucceeds(r: Repository, st: State, hashes: seq<string>)
    ensures ExportAll(r, st, hashes).error.None? <==>
      (forall h :: h in hashes ==> h in r.trees) && (|hashes| == 0 || DefaultBranch in r.trees)
    decreases |hashes|
  {
    if |hashes| > 0 {
      var init, last := hashes[..|hashes| - 1], hashes[|hashes| - 1];
      assert hashes == init + [last];
      ExportAllSucceeds(r, st, init);
    }
  }

  /** With a default branch to return to, every attempted pass ends on it, and
      the only possible error is a commit that could not be checked out. */
  lemma {:induction false} ExportAllEndsOnDefaultBranch(r: Repository, st: State, hashes: seq<string>)
    requires |hashes| > 0 && DefaultBranch in r.trees
    ensures ExportAll(r, st, hashes).state.head == DefaultBranch
    ensures ExportAll(r, st, hashes).state.worktree == r.trees[DefaultBranch]
    ensures ExportAll(r, st, hashes).error.None? || ExportAll(r, st, hashes).error.value.CheckoutFailed?
    decreases |hashes|
  {
    var init := hashes[..|hashes| - 1];
    if |init| > 0 {
      ExportAllEndsOnDefaultBranch(r, st, init);
    }
  }

  /** Without a default branch the first pass already fails, on restoring it. */
  lemma ExportAllWithoutDefaultBranch(r: Repository, st: State, hashes: seq<string>)
    requires |hashes| > 0 && DefaultBranch !in r.trees
    ensures ExportAll(r, st, hashes).error == Some(RestoreFailed(hashes[0]))
  {
    ExportAllStep(r, st, hashes, 0);
    ExportAllStopsAfterError(r, st, hashes, 1);
  }

  /** The first commit that cannot be checked out ends the export, after its
      folder was made and the default branch was checked out again. */
  lemma ExportAllStopsAtFirstMissing(r: Repository, st: State, hashes: seq<string>, i: nat)
    requires i < |hashes| && hashes[i] !in r.trees && DefaultBranch in r.trees
    requires forall k :: 0 <= k < i ==> hashes[k] in r.trees
    ensures ExportAll(r, st, hashes).error == Some(CheckoutFailed(hashes[i]))
    ensures hashes[i] in ExportAll(r, st, hashes).state.snapshots
    ensures ExportAll(r, st, hashes).state.head == DefaultBranch
  {
    var prefix := hashes[..i];
    forall h | h in prefix
      ensures h in r.trees
    {
      var k :| 0 <= k < i && prefix[k] == h;
    }
    ExportAllSucceeds(r, st, prefix);
    ExportAllStep(r, st, hashes, i);
    ExportAllStopsAfterError(r, st, hashes, i + 1);
  }

  /** Copying the same entries over a folder a second time changes nothing. */
  lemma CopyAgain(folder: Tree, entries: Tree)
    ensures (folder + entries) + entries == folder + entries
  {
  }

  /** After a complete export, every commit's folder holds what was there before
      with the commit's entries copied over it, and no other folder changed. */
  lemma {:induction false} ExportAllSnapshots(r: Repository, st: State, hashes: seq<string>)
    requires ExportAll(r, st, hashes).error.None?
    ensures var snaps := ExportAll(r, st, hashes).state.snapshots;
      forall h :: h in hashes ==>
        h in r.trees && h in snaps && snaps[h] == Folder(st.snapshots, h) + Snapshot(r.trees[h])
    ensures var snaps := ExportAll(r, st, hashes).state.snapshots;
      forall h :: h in st.snapshots && h !in hashes ==> h in snaps && snaps[h] == st.snapshots[h]
    ensures forall h :: h in ExportAll(r, st, hashes).state.snapshots ==> h in st.snapshots || h in hashes
    decreases |hashes|
  {
    if |hashes| > 0 {
      var init, last := hashes[..|hashes| - 1], hashes[|hashes| - 1];
      assert hashes == init + [last];
      var prior := ExportAll(r, st, init);
      assert prior.error.None?;
      ExportAllSnapshots(r, st, init);
      var step := ExportOne(r, prior.state, last);
      assert ExportAll(r, st, hashes) == step;
      assert last in r.trees;
      var entries := Snapshot(r.trees[last]);
      var before := Folder(st.snapshots, last);
      if last in init {
        assert Folder(prior.state.snapshots, last) == before + entries;
        CopyAgain(before, entries);
      } else if last in st.snapshots {
        assert Folder(prior.state.snapshots, last) == before;
      } else {
        assert last !in prior.state.snapshots;
      }
      assert step.state.snapshots[last] == before + entries;
      forall h | h in hashes && h != last
        ensures h in r.trees && h in step.state.snapshots &&
          step.state.snapshots[h] == Folder(st.snapshots, h) + Snapshot(r.trees[h])
      {
        assert h in init;
      }
      forall h | h in st.snapshots && h !in hashes
        ensures h in step.state.snapshots && step.state.snapshots[h] == st.snapshots[h]
      {
        assert h !in init;
      }
      forall h | h in step.state.snapshots
        ensures h in st.snapshots || h in hashes
      {
        if h != last {
          assert h in prior.state.snapshots;
        }
      }
    }
  }

  /** A complete loop into an empty `versions` folder leaves one folder per
      hash, holding exactly that commit's snapshot. */
  lemma ExportAllIntoEmpty(r: Repository, st: State, hashes: seq<string>)
    requires st.snapshots == map[] && ExportAll(r, st, hashes).error.None?
    ensures var snaps := ExportAll(r, st, hashes).state.snapshots;
      && (forall h :: h in snaps <==> h in hashes)
      && (forall h :: h in snaps ==> h in r.trees && snaps[h] == Snapshot(r.trees[h]))
  {
    ExportAllSnapshots(r, st, hashes);
    assert forall h :: Folder(st.snapshots, h) == map[];
    forall t: Tree
      ensures map[] + t == t
    {
    }
  }

  /** The hashes the second loop reads back out of the log lines, one for each
      line that parses. */
  function LogHashes(lines: seq<string>): (hs: seq<string>)
    ensures |hs| <= |lines|
    ensures CommitLog.ParseLines(lines).failure.None? ==> |hs| == |lines|
    ensures forall k :: 0 <= k < |hs| ==> hs[k] == PyStrings.Split(lines[k], ":", 3)[0]
  {
    var records := CommitLog.ParseLines(lines).records;
    seq(|records|, k requires 0 <= k < |records| => records[k].hash)
  }

  /** The state once the versions folder exists and `commits.txt` is written. */
  function Written(st: State, lines: seq<string>): State
  {
    st.(versionsExists := true, commitsFile := Some(CommitLog.RenderLog(CommitLog.ParseLines(lines).records)))
  }

  /** How `export_git_versions` ends: it reports the versions folder, or it
      stops with an error. */
  datatype Outcome = Completed(versionsFolder: string) | Failed(error: ExportError)

  datatype Run = Run(state: State, outcome: Outcome)

  /** `export_git_versions`: check the repository, make the versions folder,
      read the log, write `commits.txt` and export every commit. */
  function ExportRun(r: Repository, output: string, cwd: string, repoPath: string, st: State): (run: Run)
    ensures run.outcome.Completed? ==> run.outcome.versionsFolder == VersionsFolder(output, cwd, repoPath)
  {
    if !IsGitRepository(r) then Run(st, Failed(InvalidRepository))
    else match CommitDetails(r)
      case Failure(e) => Run(st.(versionsExists := true), Failed(e))
      case Success(lines) =>
        var written := Written(st, lines);
        var failure := CommitLog.ParseLines(lines).failure;
        if failure.Some? then Run(written, Failed(MalformedLine(failure.value)))
        else
          var exported := ExportAll(r, written, LogHashes(lines));
          Run(exported.state,
              if exported.error.None? then Completed(VersionsFolder(output, cwd, repoPath))
              else Failed(exported.error.value))
  }

  /** An invalid repository is rejected before anything is created, and it is
      the only reason for that error; a valid one always gets its versions
      folder. */
  lemma ExportRunRejectsInvalid(r: Repository, output: string, cwd: string, repoPath: string, st: State)
    ensures ExportRun(r, output, cwd, repoPath, st).outcome == Failed(InvalidRepository) <==> !IsGitRepository(r)
    ensures !IsGitRepository(r) ==> ExportRun(r, output, cwd, repoPath, st).state == st
    ensures IsGitRepository(r) ==> ExportRun(r, output, cwd, repoPath, st).state.versionsExists
  {
  }

  /** A malformed log line ends the run before any commit is exported, with
      `commits.txt` holding the paragraphs of the lines before it. */
  lemma ExportRunStopsOnMalformedLine(r: Repository, output: string, cwd: string, repoPath: string, st: State)
    requires IsGitRepository(r) && r.log.Some?
    requires CommitLog.ParseLines(r.log.value).failure.Some?
    ensures var run := ExportRun(r, output, cwd, repoPath, st);
      && run.outcome == Failed(MalformedLine(CommitLog.ParseLines(r.log.value).failure.value))
      && run.state.snapshots == st.snapshots && run.state.head == st.head
      && run.state.commitsFile == Some(CommitLog.RenderLog(CommitLog.ParseLines(r.log.value).records))
  {
  }

  /** The export completes exactly when the repository is valid, its log can be
      read, every line has its four fields, every commit can be checked out and
      (when there is one) the default branch can be too. */
  lemma ExportRunCompletes(r: Repository, output: string, cwd: string, repoPath: string, st: State)
    ensures var run := ExportRun(r, output, cwd, repoPath, st);
      run.outcome.Completed? <==>
        && IsGitRepository(r) && r.log.Some?
        && CommitLog.ParseLines(r.log.value).failure.None?
        && (forall h :: h in LogHashes(r.log.value) ==> h in r.trees)
        && (|r.log.value| == 0 || DefaultBranch in r.trees)
  {
    if IsGitRepository(r) && r.log.Some? {
      var lines := r.log.value;
      if CommitLog.ParseLines(lines).failure.None? {
        ExportAllSucceeds(r, Written(st, lines), LogHashes(lines));
      }
    }
  }

  /** A completed export reports `<resolved output>/versions`, has written one
      paragraph per log line to `commits.txt` in log order, and leaves the
      default branch checked out when there was any commit. */
  lemma ExportRunCompletedState(r: Repository, output: string, cwd: string, repoPath: string, st: State)
    requires ExportRun(r, output, cwd, repoPath, st).outcome.Completed?
    ensures var run := ExportRun(r, output, cwd, repoPath, st);
      && IsGitRepository(r) && r.log.Some?
      && run.outcome.versionsFolder == VersionsFolder(output, cwd, repoPath)
      && run.state.commitsFile == Some(CommitLog.RenderLog(CommitLog.ParseLines(r.log.value).records))
      && |CommitLog.ParseLines(r.log.value).records| == |r.log.value|
      && run.state.head == (if |r.log.value| == 0 then st.head else DefaultBranch)
  {
    var lines := r.log.value;
    var hs := LogHashes(lines);
    var written := Written(st, lines);
    if |hs| > 0 {
      ExportRunCompletes(r, output, cwd, repoPath, st);
      ExportAllEndsOnDefaultBranch(r, written, hs);
    }
  }

  /** Exported into a fresh `versions` folder, there is exactly one snapshot
      folder per commit, named by its hash and holding every top-level entry of
      its work tree but `.git` and `versions`. */
  lemma ExportRunSnapshots(r: Repository, output: string, cwd: string, repoPath: string, st: State)
    requires st.snapshots == map[]
    requires ExportRun(r, output, cwd, repoPath, st).outcome.Completed?
    ensures var snaps := ExportRun(r, output, cwd, repoPath, st).state.snapshots;
      && (forall h :: h in snaps <==> h in LogHashes(r.log.value))
      && (forall h :: h in snaps ==> h in r.trees && snaps[h] == Snapshot(r.trees[h]))
  {
    var lines := r.log.value;
    var written := Written(st, lines);
    var hs := LogHashes(lines);
    ExportAllIntoEmpty(r, written, hs);
    assert ExportRun(r, output, cwd, repoPath, st).state == ExportAll(r, written, hs).state;
  }

  /** The pieces of a work-tree listing copied so far: the entries among the
      names in `done` that a snapshot receives. */
  function Copied(worktree: Tree, done: set<string>): Tree
  {
    map name | name in done && name in worktree && name !in Excluded :: worktree[name]
  }
  /** Taking one more name copies its entry, unless it is excluded. */
  lemma CopiedStep(worktree: Tree, done: set<string>, name: string)
    requires name in worktree
    ensures Copied(worktree, done + {name}) ==
      if name in Excluded then Copied(worktree, done) else Copied(worktree, done)[name := worktree[name]]
  {
  }

  /** Once every name is taken, the copies are the snapshot. */
  lemma CopiedAll(worktree: Tree)
    ensures Copied(worktree, worktree.Keys) == Snapshot(worktree)
  {
  }

  /** Copying into the merged folder is copying into the new entries. */
  lemma MergeUpdate(base: Tree, done: Tree, name: string, e: Entry)
    ensures (base + done)[name := e] == base + done[name := e]
  {
  }


  /** The repository's work tree and the output folder, changed in place as the
      script runs. */
  class Workspace {
    const repo: Repository
    var head: string
    var worktree: Tree
    var versionsExists: bool
    var commitsFile: Option<string>
    var snapshots: map<string, Tree>

    function Abs(): State
      reads this
    {
      State(head, worktree, versionsExists, commitsFile, snapshots)
    }

    constructor (repo: Repository, start: State)
      ensures this.repo == repo && Abs() == start
    {
      this.repo := repo;
      head := start.head;
      worktree := start.worktree;
      versionsExists := start.versionsExists;
      commitsFile := start.commitsFile;
      snapshots := start.snapshots;
    }

    /** `git checkout ref`: on success the work tree is the ref's; on failure
        nothing moves. */
    method Checkout(ref: string) returns (ok: bool)
      modifies this`head, this`worktree
      ensures ok == (ref in repo.trees)
      ensures ok ==> head == ref && worktree == repo.trees[ref]
      ensures !ok ==> head == old(head) && worktree == old(worktree)
    {
      ok := ref in repo.trees;
      if ok {
        head := ref;
        worktree := repo.trees[ref];
      }
    }

    /** `os.makedirs(versions/hash, exist_ok=True)`. */
    method MakeFolder(hash: string)
      modifies this`snapshots
      ensures snapshots == old(snapshots)[hash := Folder(old(snapshots), hash)]
    {
      if hash !in snapshots {
        snapshots := snapshots[hash := map[]];
      }
    }

    /** Copies the work tree's entries, one at a time, into the folder of `hash`. */
    method CopyEntries(hash: string)
      requires hash in snapshots
      modifies this`snapshots
      ensures snapshots == old(snapshots)[hash := old(snapshots)[hash] + Snapshot(worktree)]
    {
      ghost var base := snapshots[hash];
      var names := worktree.Keys;
      ghost var done: set<string> := {};
      assert Copied(worktree, done) == map[];
      assert base + map[] == base;
      assert snapshots == old(snapshots)[hash := base];
      while names != {}
        invariant names <= worktree.Keys && done == worktree.Keys - names
        invariant snapshots == old(snapshots)[hash := base + Copied(worktree, done)]
        decreases names
      {
        var name :| name in names;
        CopiedStep(worktree, done, name);
        if name !in Excluded {
          MergeUpdate(base, Copied(worktree, done), name, worktree[name]);
          snapshots := snapshots[hash := snapshots[hash][name := worktree[name]]];
        }
        names := names - {name};
        done := done + {name};
      }
      assert done == worktree.Keys;
      CopiedAll(worktree);
    }

    /** One pass of the export loop, with the default branch checked out again
        in the `finally` block. */
    method ExportCommit(hash: string) returns (error: Option<ExportError>)
      modifies this`head, this`worktree, this`snapshots
      ensures Step(Abs(), error) == ExportOne(repo, old(Abs()), hash)
    {
      MakeFolder(hash);
      var ok := Checkout(hash);
      if ok {
        CopyEntries(hash);
      }
      var restored := Checkout(DefaultBranch);
      if !restored {
        error := Some(RestoreFailed(hash));
      } else if !ok {
        error := Some(CheckoutFailed(hash));
      } else {
        error := None;
      }
    }

    /** The first loop: truncate `commits.txt` and write one paragraph per log
        line, stopping at the first line that cannot be unpacked. */
    method WriteCommitsFile(lines: seq<string>) returns (failure: Option<CommitLog.LineFailure>)
      modifies this`commitsFile
      ensures failure == CommitLog.ParseLines(lines).failure
      ensures commitsFile == Some(CommitLog.RenderLog(CommitLog.ParseLines(lines).records))
    {
      commitsFile := Some("");
      ghost var records: seq<CommitLog.CommitRecord> := [];
      var i := 0;
      while i < |lines|
        invariant 0 <= i <= |lines|
        invariant CommitLog.ParseLines(lines[..i]) == CommitLog.Parsed(records, None)
        invariant commitsFile == Some(CommitLog.RenderLog(records))
      {
        CommitLog.ParseLinesStep(lines, i);
        match CommitLog.ParseLine(lines[i])
        case Failure(e) =>
          failure := Some(CommitLog.LineFailure(i, e));
          CommitLog.ParseLinesStopsAfterFailure(lines, i + 1);
          return;
        case Success(c) =>
          commitsFile := Some(commitsFile.value + CommitLog.FormatRecord(c));
          CommitLog.RenderLogSnoc(records, c);
          records := records + [c];
        i := i + 1;
      }
      assert lines[..i] == lines;
      failure := None;
    }

    /** The second loop: for each log line in order, read its hash again and
        export that commit, stopping at the first error. */
    method ExportCommits(lines: seq<string>) returns (error: Option<ExportError>)
      requires CommitLog.ParseLines(lines).failure.None?
      modifies this`head, this`worktree, this`snapshots
      ensures Step(Abs(), error) == ExportAll(repo, old(Abs()), LogHashes(lines))
    {
      ghost var hashes := LogHashes(lines);
      var i := 0;
      while i < |lines|
        invariant 0 <= i <= |lines| == |hashes|
        invariant ExportAll(repo, old(Abs()), hashes[..i]) == Step(Abs(), None)
      {
        var hash := CommitLog.ParseLine(lines[i]).value.hash;
        ExportAllStep(repo, old(Abs()), hashes, i);
        var e := ExportCommit(hash);
        if e.Some? {
          ExportAllStopsAfterError(repo, old(Abs()), hashes, i + 1);
          return e;
        }
        i := i + 1;
      }
      assert hashes[..i] == hashes;
      error := None;
    }

    /** `export_git_versions(repo_path, output_path)`. */
    method ExportGitVersions(output: string, cwd: string, repoPath: string) returns (outcome: Outcome)
      modifies this
      ensures Run(Abs(), outcome) == ExportRun(repo, output, cwd, repoPath, old(Abs()))
    {
      if !IsGitRepository(repo) {
        return Failed(InvalidRepository);
      }
      var folder := VersionsFolder(output, cwd, repoPath);
      versionsExists := true;
      match CommitDetails(repo)
      case Failure(e) =>
        return Failed(e);
      case Success(lines) =>
        var failure := WriteCommitsFile(lines);
        if failure.Some? {
          return Failed(MalformedLine(failure.value));
        }
        var error := ExportCommits(lines);
        outcome := if error.None? then Completed(folder) else Failed(error.value);
    }
  }
}
