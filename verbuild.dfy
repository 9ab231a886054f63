/** `tools/verbuild.py`: run one shell command in every snapshot folder of a
    `versions` folder, with `%REF%` in the command replaced by the folder's name.
    The folder listing is given as a value, each entry with whether it is a
    directory; the shell is a function whose result the runner ignores. */
module VerBuild {
  import opened Wrappers
  import PyStrings
  import OsPath

  /** The placeholder for a version's name in the command template. */
  const Token: string := "%REF%"

  /** `template.replace("%REF%", version)`. */
  function Substitute(template: string, version: string): (r: string)
    ensures !PyStrings.Contains(template, Token) ==> r == template
  {
    PyStrings.Replace(template, Token, version)
  }

  /** The command is the template cut at every `%REF%` and glued back with the
      version's name: the pieces hold no `%REF%`, and gluing them with `%REF%`
      gives the template back. */
  lemma SubstituteReplacesEveryToken(template: string, version: string)
    ensures var pieces := PyStrings.SplitAll(template, Token);
      && (forall k :: 0 <= k < |pieces| ==> !PyStrings.Contains(pieces[k], Token))
      && PyStrings.Join(pieces, Token) == template
      && Substitute(template, version) == PyStrings.Join(pieces, version)
  {
    PyStrings.SplitAllPiecesFree(template, Token, |template| + 1);
    PyStrings.JoinSplit(template, Token, |template| + 1);
    PyStrings.ReplaceJoinsPieces(template, Token, version, |template| + 1);
  }

  /** The shell command for one version: change into its folder, then run the
      substituted template. */
  function CommandLine(versions: string, template: string, version: string): (r: string)
    ensures 3 <= |r| && r[..3] == "cd "
    ensures |Substitute(template, version)| < |r| && r[|r| - |Substitute(template, version)|..] == Substitute(template, version)
  {
    "cd " + OsPath.Join(versions, version) + " && " + Substitute(template, version)
  }

  /** The command changes into a path ending in the version's name and then
      runs the template with that name put in. */
  lemma CommandLineShape(versions: string, template: string, version: string)
    ensures var line := CommandLine(versions, template, version);
      var path := OsPath.Join(versions, version);
      && line[..3] == "cd "
      && line[3..3 + |path|] == path
      && |version| <= |path| && path[|path| - |version|..] == version
      && line[3 + |path|..3 + |path| + 4] == " && "
      && line[3 + |path| + 4..] == Substitute(template, version)
  {
  }

  /** One entry of `os.listdir(versions)` and whether its path is a directory. */
  datatype Item = Item(name: string, isDirectory: bool)

  /** The names of the directories in a listing, in listing order. */
  function Subdirectories(listing: seq<Item>): (dirs: seq<string>)
    ensures |dirs| <= |listing|
  {
    if |listing| == 0 then []
    else
      var last := listing[|listing| - 1];
      Subdirectories(listing[..|listing| - 1]) + (if last.isDirectory then [last.name] else [])
  }

  /** A name is among the subdirectories exactly when the listing has a
      directory of that name. */
  lemma {:induction false} SubdirectoriesMembers(listing: seq<Item>, name: string)
    ensures name in Subdirectories(listing) <==>
      exists i :: 0 <= i < |listing| && listing[i].isDirectory && listing[i].name == name
    decreases |listing|
  {
    if |listing| > 0 {
      var init := listing[..|listing| - 1];
      SubdirectoriesMembers(init, name);
      assert forall i :: 0 <= i < |init| ==> init[i] == listing[i];
    }
  }

  /** Listings taken in two parts keep their order: the first part's
      subdirectories come first. */
  lemma {:induction false} SubdirectoriesConcat(a: seq<Item>, b: seq<Item>)
    ensures Subdirectories(a + b) == Subdirectories(a) + Subdirectories(b)
    decreases |b|
  {
    if |b| == 0 {
      assert a + b == a;
    } else {
      assert (a + b)[..|a + b| - 1] == a + b[..|b| - 1];
      SubdirectoriesConcat(a, b[..|b| - 1]);
    }
  }

  /** Names in a listing are distinct, so each subdirectory gets one command. */
  lemma {:induction false} SubdirectoriesDistinct(listing: seq<Item>)
    requires forall i, j :: 0 <= i < j < |listing| ==> listing[i].name != listing[j].name
    ensures var dirs := Subdirectories(listing);
      forall i, j :: 0 <= i < j < |dirs| ==> dirs[i] != dirs[j]
    decreases |listing|
  {
    if |listing| > 0 {
      var init := listing[..|listing| - 1];
      var last := listing[|listing| - 1];
      SubdirectoriesDistinct(init);
      if last.isDirectory {
        SubdirectoriesMembers(init, last.name);
      }
    }
  }

  /** What the runner did: nothing, because the path was not a directory, or
      the commands it handed to the shell, in order. */
  datatype Report = NotAVersionsFolder | Ran(commands: seq<string>)

  /** `main()`: for each directory of the listing, in order, hand one command to
      the shell and carry on whatever it returns. `listing` is None when the
      versions path is not a directory. */
  method RunOnEachVersion(versions: string, template: string, listing: Option<seq<Item>>, system: string -> int)
    returns (report: Report)
    ensures listing.None? <==> report.NotAVersionsFolder?
    ensures listing.Some? ==>
      var dirs := Subdirectories(listing.value);
      && |report.commands| == |dirs|
      && forall k :: 0 <= k < |dirs| ==> report.commands[k] == CommandLine(versions, template, dirs[k])
  {
    if listing.None? {
      return NotAVersionsFolder;
    }
    var items := listing.value;
    var commands: seq<string> := [];
    var i := 0;
    while i < |items|
      invariant 0 <= i <= |items|
      invariant |commands| == |Subdirectories(items[..i])|
      invariant forall k :: 0 <= k < |commands| ==>
        commands[k] == CommandLine(versions, template, Subdirectories(items[..i])[k])
    {
      assert items[..i + 1][..i] == items[..i];
      var item := items[i];
      if item.isDirectory {
        var command := Substitute(template, item.name);
        var line := "cd " + OsPath.Join(versions, item.name) + " && " + command;
        var status := system(line);
        commands := commands + [line];
      }
      i := i + 1;
    }
    assert items[..i] == items;
    report := Ran(commands);
  }
}
