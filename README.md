# GitFlashback, modelled in Dafny

GitFlashback exports every commit of a git repository as a snapshot folder.
`GitFlashback/__main__.py` checks that the repository path is a git
repository and resolves where the `versions` folder goes. It reads
`git log --pretty=format:%H:%cd:%an:%s --date=short`, splits each line into
hash, date, author and subject, and writes `versions/commits.txt` with one
paragraph per commit. Then, for each commit in log order, it makes
`versions/<hash>`, checks the commit out, copies every top-level entry except
`.git` and `versions`, and checks `main` out again in a `finally` block.
`tools/verbuild.py` runs one shell command in every directory of a
`versions` folder, with `%REF%` replaced by the directory's name.

The model has these files:

- `wrappers.dfy`: `Option` and `Result`.
- `pystrings.dfy`: the Python string operations the scripts depend on, proved
  against each other:
  - `find` and `partition`;
  - `split` with a `maxsplit`, and `join`;
  - `replace`, left to right without overlap;
  - `count` for one character.
- `ospath.dfy`: POSIX `os.path.join` of two components.
- `commit_log.dfy`: the log-line parser, the `commits.txt` paragraph writer
  and a reader that inverts it, and the first loop's parse of all lines.
- `flashback.dfy`: `export_git_versions`, in two forms:
  - pure functions: `ExportOne` is one iteration of the per-commit loop,
    `ExportAll` is the loop, and `ExportRun` is the whole function;
  - a `Workspace` class whose methods change the checkout pointer, the work
    tree, the `versions` folder and `commits.txt` in place. Each method is
    proved equal to the matching function.
- `verbuild.dfy`: `%REF%` substitution, the command string, the
  subdirectory filter and the runner loop.

git and the file system are abstract. A `Repository` records:

- whether the path is a directory;
- whether it has a `.git` directory;
- the lines `git log` prints, or that `git log` fails;
- for each ref that can be checked out, the top-level listing of the work
  tree afterwards.

A ref missing from that map is one whose checkout fails. A failed checkout
leaves the pointer and the work tree where they were. The working directory
(`os.getcwd()`) is a parameter. So is the shell (`os.system`), whose result
the runner ignores.

Four details of the code shape the model:

- After every commit the script checks out the fixed branch `main`. It does
  not return to the branch it started on.
- The restore sits in `finally`, so it runs after every iteration, not only
  on the error path.
- If restoring `main` fails, its `CalledProcessError` replaces the pending
  exit. The model reports this as `RestoreFailed`.
- Only `CalledProcessError` is caught. A failed copy is not a reported
  error; see below.

## Model

| member | source | states |
|---|---|---|
| PyStrings.JoinSplit | GitFlashback/__main__.py:58 | joining the pieces of `split(sep, n)` with `sep` gives the line back |
| PyStrings.Split | GitFlashback/__main__.py:58 | `s.split(sep, n)` gives between one and `n + 1` pieces; JoinSplit, SplitPiecesFree and SplitCount state what the pieces are |
| PyStrings.SplitPiecesFree | GitFlashback/__main__.py:58 | every piece of `split(sep, n)` but the last holds no `sep`; the last holds none either when fewer than `n` cuts were made |
| PyStrings.SplitCount | GitFlashback/__main__.py:58 | `split(c, n)` on a one-character separator gives `min(count(c), n) + 1` pieces |
| PyStrings.Replace | tools/verbuild.py:42 | `replace` leaves a string without the pattern unchanged |
| PyStrings.ReplaceJoinsPieces | tools/verbuild.py:42 | `s.replace(p, r)` equals `r.join(s.split(p))` |
| PyStrings.SplitAllPiecesFree | tools/verbuild.py:42 | no piece of an unlimited split holds the separator |
| PyStrings.ReplaceBySelf | tools/verbuild.py:42 | replacing the pattern with itself changes nothing |
| OsPath.Join | GitFlashback/__main__.py:50 | `os.path.join(a, b)` ends with `b`; an absolute `b` replaces `a`; otherwise the result is `a + b` when `a` is empty or ends in `/`, and `a + "/" + b` when it does not |
| CommitLog.SplitFields | GitFlashback/__main__.py:58 | `split(":", 3)` gives four pieces iff the line has three colons, and otherwise one more piece than it has colons; the four pieces joined with `:` are the line, and the first three hold no colon |
| CommitLog.ParseLine | GitFlashback/__main__.py:58 | unpacking succeeds iff the line has at least three colons; on failure, the ValueError reports the number of pieces |
| CommitLog.ParseLineFields | GitFlashback/__main__.py:58 | a line that unpacks is `hash:date:author:subject`, and hash, date and author hold no colon |
| CommitLog.ParseLogLine | GitFlashback/__main__.py:58 | a line printed with format `%H:%cd:%an:%s` parses back to exactly its four fields when hash, date and author hold no colon, even when the subject does |
| CommitLog.FormatRecord | GitFlashback/__main__.py:59 | the paragraph for a commit starts with its hash, ends with a blank line, and holds the four fields plus six characters of punctuation; ReadFormattedRecord reads it back |
| CommitLog.ReadFormattedRecord | GitFlashback/__main__.py:59 | the paragraph `hash: date author\nsubject\n\n` can be read back into its record, leaving the text after it |
| CommitLog.RenderLogCons | GitFlashback/__main__.py:57-59 | the first commit's paragraph comes first in `commits.txt` |
| CommitLog.RenderLog | GitFlashback/__main__.py:56-59 | `commits.txt` is empty iff there are no records, and each record adds a paragraph of at least six characters; RenderLogCons, RenderLogAppend and ReadRenderedLog state its order and content |
| CommitLog.RenderLogAppend | GitFlashback/__main__.py:57-59 | `commits.txt` for two runs of commits is the first run's paragraphs followed by the second's |
| CommitLog.ReadRenderedLog | GitFlashback/__main__.py:56-59 | reading `commits.txt` back gives exactly the records written, in log order; N records make N paragraphs |
| CommitLog.ParseLines | GitFlashback/__main__.py:57-58 | the first loop parses lines in order; record k comes from line k, and on failure the failing line comes right after the last record |
| CommitLog.ParseLinesStep | GitFlashback/__main__.py:57-59 | one more line adds its record when it unpacks, and otherwise stops the loop at that line's index |
| CommitLog.ParseLinesFirstFailure | GitFlashback/__main__.py:57-58 | parsing all lines succeeds iff every line has three colons; otherwise the failure names the first line with fewer |
| CommitLog.ParseLinesStopsAfterFailure | GitFlashback/__main__.py:57-58 | lines after the first malformed one never affect the result |
| CommitLog.ParsedRecordsReadable | GitFlashback/__main__.py:56-59 | the records parsed from one-line log entries with space-free dates can be read back from `commits.txt` |
| Flashback.CommitDetails | GitFlashback/__main__.py:25-38 | the log lines are returned iff the path is a git repository and `git log` succeeds; otherwise the invalid repository is reported first, then the failed log |
| Flashback.ResolveOutput | GitFlashback/__main__.py:45-48 | `"."` gives the working directory, `""` gives the repository path, and anything else is used as given |
| Flashback.VersionsFolder | GitFlashback/__main__.py:50 | the versions folder is `<resolved>/versions` when the resolved directory does not end in `/`, `<resolved>versions` when it does, and `versions` when it is empty |
| Flashback.Snapshot | GitFlashback/__main__.py:71-78 | a snapshot has exactly the work tree's entries not named `.git` or `versions`, with their contents |
| Flashback.ExportOne | GitFlashback/__main__.py:63-85 | one iteration succeeds iff the commit and `main` both check out; otherwise it fails with CheckoutFailed, or with RestoreFailed when `main` is missing; with `main` present it always ends on `main`; without `main` it stays on the commit if that checked out, and where it was if not; the commit's folder exists afterwards and holds its entries copied over what was there; no other folder changes |
| Flashback.ExportAll | GitFlashback/__main__.py:61-85 | the loop's error names a hash it was given and is a checkout or restore failure; it never touches `commits.txt` or the versions folder's existence, and never removes a folder |
| Flashback.ExportAllStopsAfterError | GitFlashback/__main__.py:79-80 | once an iteration fails, no later commit is processed |
| Flashback.ExportAllSucceeds | GitFlashback/__main__.py:61-85 | the loop completes iff every hash can be checked out and `main` can be too, when there is any hash |
| Flashback.ExportAllEndsOnDefaultBranch | GitFlashback/__main__.py:81-85 | with `main` present, the loop ends with `main` checked out and its work tree in place, and its only possible error is a failed checkout |
| Flashback.ExportAllWithoutDefaultBranch | GitFlashback/__main__.py:81-85 | without `main`, the first iteration already fails while restoring it |
| Flashback.ExportAllStopsAtFirstMissing | GitFlashback/__main__.py:64-80 | the first hash that cannot be checked out ends the run with CheckoutFailed naming it; its folder has been made and `main` is checked out |
| Flashback.ExportAllSnapshots | GitFlashback/__main__.py:63-78 | after a complete loop, each commit's folder is its previous contents with the commit's snapshot copied over them; every other folder is unchanged, and no folder appears that is not a commit's |
| Flashback.ExportAllIntoEmpty | GitFlashback/__main__.py:61-78 | a complete loop into an empty versions folder leaves exactly one folder per hash, holding that commit's snapshot |
| Flashback.LogHashes | GitFlashback/__main__.py:61-62 | the second loop binds to `commit_hash` the first piece of `line.split(":", 3)` of each line in turn; with every line well formed there is one hash per line |
| Flashback.ExportRunRejectsInvalid | GitFlashback/__main__.py:41-43 | the run fails with InvalidRepository iff the path is not a git repository, and then nothing changes; a valid repository always gets its versions folder |
| Flashback.ExportRunStopsOnMalformedLine | GitFlashback/__main__.py:56-58 | a malformed log line ends the run before any checkout or folder; `commits.txt` holds the paragraphs of the lines before it |
| Flashback.ExportRun | GitFlashback/__main__.py:40-87 | a completed run reports the versions folder; ExportRunRejectsInvalid, ExportRunStopsOnMalformedLine, ExportRunCompletes, ExportRunCompletedState and ExportRunSnapshots state its outcomes and effects |
| Flashback.ExportRunCompletes | GitFlashback/__main__.py:40-87 | the export completes iff the repository is valid, the log reads, every line has four fields, every hash read from the log checks out, and `main` does when there is a commit |
| Flashback.ExportRunCompletedState | GitFlashback/__main__.py:50-87 | a completed export reports `<resolved>/versions`, `commits.txt` has one paragraph per log line in log order, and `main` is checked out when there was a commit |
| Flashback.ExportRunSnapshots | GitFlashback/__main__.py:61-78 | exported into an empty versions folder, there is exactly one folder per log hash, each holding precisely that commit's snapshot |
| Flashback.Workspace.Checkout | GitFlashback/__main__.py:68-70 | `git checkout` succeeds iff the ref exists, and then moves the pointer and the work tree; on failure nothing moves |
| Flashback.Workspace.MakeFolder | GitFlashback/__main__.py:63-64 | `makedirs(exist_ok=True)` keeps an existing folder and creates an empty one otherwise |
| Flashback.Workspace.CopyEntries | GitFlashback/__main__.py:71-78 | the entry-by-entry copy leaves the commit's folder as its old contents with the snapshot copied over them |
| Flashback.Workspace.ExportCommit | GitFlashback/__main__.py:62-85 | one iteration of the loop, with the `finally` restore, changes the state exactly as `ExportOne` says |
| Flashback.Workspace.WriteCommitsFile | GitFlashback/__main__.py:56-59 | the first loop truncates `commits.txt`, writes the paragraphs of the lines parsed, and stops at the first malformed line |
| Flashback.Workspace.ExportCommits | GitFlashback/__main__.py:61-85 | the second loop changes the state exactly as `ExportAll` says over the hashes of the log lines |
| Flashback.Workspace.ExportGitVersions | GitFlashback/__main__.py:40-87 | `export_git_versions` changes the state and reports exactly as `ExportRun` says |
| VerBuild.SubstituteReplacesEveryToken | tools/verbuild.py:42 | the command is the template cut at every `%REF%` into token-free pieces, which are joined again with the directory name; joined with `%REF%`, the pieces give the template back |
| VerBuild.Substitute | tools/verbuild.py:42 | a template without `%REF%` is used as is; SubstituteReplacesEveryToken states the general case |
| VerBuild.CommandLineShape | tools/verbuild.py:43 | the command is `cd `, then a path ending in the directory's name, then ` && `, then the substituted template |
| VerBuild.CommandLine | tools/verbuild.py:43 | the command starts with `cd ` and ends with the substituted template; CommandLineShape gives the path in between |
| VerBuild.SubdirectoriesMembers | tools/verbuild.py:36-39 | a name gets a command iff the listing has a directory of that name |
| VerBuild.Subdirectories | tools/verbuild.py:36-39 | no more directories than listing entries; SubdirectoriesMembers, SubdirectoriesConcat and SubdirectoriesDistinct state which and in what order |
| VerBuild.SubdirectoriesConcat | tools/verbuild.py:36-39 | the directories keep listing order |
| VerBuild.SubdirectoriesDistinct | tools/verbuild.py:36-41 | with distinct names in the listing, no directory gets two commands |
| VerBuild.RunOnEachVersion | tools/verbuild.py:32-43 | with no directory at the path, no command is run; otherwise each directory, in listing order, gets exactly one command, `cd <join(versions, name)> && <template with %REF% replaced>`, whatever the shell returns |

## Left out

- Command-line handling is not modelled:
  - `argparse`;
  - the `-q` flag, which only silences git's output;
  - the global `args`;
  - every `print`, including the messages of `error_exit`.

  A run that ends in `error_exit` is a `Failed` outcome. An exception that
  escapes is one too.
- git itself is abstract: a ref either checks out to a known work-tree
  listing or fails. Untracked files and local changes that git carries
  across checkouts are part of that listing.
- The copy cannot fail in the model:
  - `copytree` raises `FileExistsError` when an export runs into an existing
    snapshot, and other copy errors are `OSError`s. These are not
    `CalledProcessError`s, so they escape after the `finally` restore. The
    model leaves them out.
  - A copy is modelled as map insertion with overwrite.
  - File metadata kept by `copy2` is not modelled.
  - The other file-system writes cannot fail either. In the source,
    `os.makedirs` of the versions folder (line 51) and of each commit folder
    (line 64), and opening and writing `commits.txt` (lines 56-59), raise
    `OSError`, for example on an unwritable path or a file in the way, and
    the run ends there.
- Flashback.Workspace.CopyEntries: copies the entries in an unspecified
  order rather than the order of `os.listdir`. The result does not depend on
  the order.
- The versions folder is assumed to lie outside the work tree, except as its
  top-level `versions` entry, which the name filter skips. When the output
  folder is nested under another top-level entry (such as `repo/out`, or `.`
  run from `repo/sub`), `os.listdir` lists that entry, and `copytree` at
  line 76 then copies the versions folder into the snapshot being written,
  which lies inside the entry it copies. The copy recurses into its own
  output until it fails with `shutil.Error`, an `OSError`, so the run ends at
  the first commit. The model keeps the work trees and the snapshot folders
  apart and does not capture this.
- `os.path.join` is modelled for POSIX and two components only. `os.path.isdir`
  and symbolic links are the booleans of the abstract repository and listing.
- CommitLog.ParsedRecordsReadable: requires that each date holds no space,
  which git's `--date=short` guarantees but the model cannot see.
- Log lines are given already split. Python's `splitlines` also splits on
  characters other than `\n`; this is not modelled.
- The shell is not modelled: how `os.system` runs the command, its quoting,
  and its effects. Only the command string is.
