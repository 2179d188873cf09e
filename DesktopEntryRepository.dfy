/**
 * The directory-scan operations over the user's applications directory
 * (`read_all_app`, `find_desktop_entry`, `find_desktop_entries_by_exec_contains`,
 * `delete_desktop_file_by_name`). The directory is an ordered sequence of files,
 * each a path and its text, in the order the operating system enumerates them;
 * whether it can be enumerated at all is part of its state. Every operation reads
 * and parses each file in that order and skips the files that do not parse.
 */
module DesktopEntryRepository {
  import opened Wrappers
  import opened Text
  import opened DesktopEntryParser

  /** One launcher file: its path and its full text. */
  datatype FileEntry = FileEntry(path: string, content: string)

  /** The listing's view of a managed launcher: name, encoded icon if the encoder succeeded, launch path. */
  datatype App = App(name: string, iconBase64: Option<string>, appPath: string)

  /** The text that marks a launcher file as installed by this application. */
  const Marker: string := "X-AppHub=true"

  function ReadDirFailure(reason: string): string { "Failed to read directory: " + reason }
  function NotFound(appName: string): string { "App not found: " + appName }
  function RemoveFailure(reason: string): string { "Failed to remove file: " + reason }

  /** The file's text contains the marker somewhere (not necessarily as a line of its own). */
  predicate IsMarked(f: FileEntry)
  {
    Contains(f.content, Marker)
  }

  /** The listing's record for a parsed entry; `encode` stands for the icon encoder. */
  function AppOf(e: DesktopEntry, encode: string -> Option<string>): App
  {
    App(e.name, encode(e.iconPath), e.exec)
  }

  /** What the listing contributes for one file: one record if it is marked and parses, otherwise nothing. */
  function ListedApp(f: FileEntry, encode: string -> Option<string>): seq<App>
  {
    if IsMarked(f) && Parse(f.content).Ok? then [AppOf(Parse(f.content).value, encode)] else []
  }

  /** The listing of a directory, in directory order. */
  function ManagedApps(files: seq<FileEntry>, encode: string -> Option<string>): seq<App>
    decreases |files|
  {
    if |files| == 0 then []
    else ManagedApps(files[..|files| - 1], encode) + ListedApp(files[|files| - 1], encode)
  }

  /** The file parses and its launch command contains `query`. */
  predicate ExecMatches(f: FileEntry, query: string)
  {
    Parse(f.content).Ok? && Contains(Parse(f.content).value.exec, query)
  }

  /** The paths of the files whose launch command contains `query`, in directory order. */
  function MatchingPaths(files: seq<FileEntry>, query: string): seq<string>
    decreases |files|
  {
    if |files| == 0 then []
    else
      var f := files[|files| - 1];
      MatchingPaths(files[..|files| - 1], query) + (if ExecMatches(f, query) then [f.path] else [])
  }

  /** The file parses and its name is exactly `appName`. */
  predicate NameMatches(f: FileEntry, appName: string)
  {
    Parse(f.content).Ok? && Parse(f.content).value.name == appName
  }

  /** The position of the first file whose parsed name is `appName`, if any. */
  function FirstNameMatch(files: seq<FileEntry>, appName: string): (r: Option<nat>)
    ensures r.Some? ==> r.value < |files| && NameMatches(files[r.value], appName)
    ensures r.Some? ==> forall j :: 0 <= j < r.value ==> !NameMatches(files[j], appName)
    ensures r.None? ==> forall j :: 0 <= j < |files| ==> !NameMatches(files[j], appName)
    decreases |files|
  {
    if |files| == 0 then None
    else if NameMatches(files[0], appName) then Some(0)
    else match FirstNameMatch(files[1..], appName)
      case None => None
      case Some(i) => Some(i + 1)
  }

  /** How many files parse with the name `appName`. */
  function CountNameMatches(files: seq<FileEntry>, appName: string): nat
    decreases |files|
  {
    if |files| == 0 then 0
    else (if NameMatches(files[0], appName) then 1 else 0) + CountNameMatches(files[1..], appName)
  }

  /** The directory with the file at position `i` removed; the others keep their order. */
  function RemoveAt(files: seq<FileEntry>, i: nat): (r: seq<FileEntry>)
    requires i < |files|
    ensures |r| == |files| - 1
    ensures forall j :: 0 <= j < i ==> r[j] == files[j]
    ensures forall j :: i <= j < |r| ==> r[j] == files[j + 1]
  {
    files[..i] + files[i + 1..]
  }

  // ---------------------------------------------------------------------------
  // The listing

  /** The listing of two directory parts is the listing of the first followed by that of the second. */
  lemma {:induction false} ManagedAppsOfConcat(a: seq<FileEntry>, b: seq<FileEntry>, encode: string -> Option<string>)
    ensures ManagedApps(a + b, encode) == ManagedApps(a, encode) + ManagedApps(b, encode)
    decreases |b|
  {
    if |b| == 0 {
      assert a + b == a;
    } else {
      var n := |b|;
      assert (a + b)[..|a + b| - 1] == a + b[..n - 1];
      assert (a + b)[|a + b| - 1] == b[n - 1];
      ManagedAppsOfConcat(a, b[..n - 1], encode);
    }
  }

  /** File `f` yields record `app` in the listing. */
  ghost predicate Lists(f: FileEntry, encode: string -> Option<string>, app: App)
  {
    IsMarked(f) && Parse(f.content).Ok? && app == AppOf(Parse(f.content).value, encode)
  }

  /** A record is listed exactly when some marked file parses to it: files without the marker never appear, however well they parse. */
  lemma {:induction false} ManagedAppsMembership(files: seq<FileEntry>, encode: string -> Option<string>, app: App)
    ensures app in ManagedApps(files, encode) <==> exists i :: 0 <= i < |files| && Lists(files[i], encode, app)
    decreases |files|
  {
    var n := |files|;
    if n > 0 {
      var init := files[..n - 1];
      ManagedAppsMembership(init, encode, app);
      if exists i :: 0 <= i < n && Lists(files[i], encode, app) {
        var i :| 0 <= i < n && Lists(files[i], encode, app);
        if i < n - 1 {
          assert init[i] == files[i];
        }
      }
      if exists i :: 0 <= i < n - 1 && Lists(init[i], encode, app) {
        var i :| 0 <= i < n - 1 && Lists(init[i], encode, app);
        assert files[i] == init[i];
      }
    }
  }

  /** A file without the marker, or one that does not parse, has no effect on the listing. */
  lemma {:induction false} SkippedFileIgnored(pre: seq<FileEntry>, f: FileEntry, post: seq<FileEntry>, encode: string -> Option<string>)
    requires !IsMarked(f) || Parse(f.content).Err?
    ensures ManagedApps(pre + [f] + post, encode) == ManagedApps(pre + post, encode)
  {
    assert (pre + [f])[..|pre + [f]| - 1] == pre;
    assert ManagedApps(pre + [f], encode) == ManagedApps(pre, encode);
    ManagedAppsOfConcat(pre + [f], post, encode);
    ManagedAppsOfConcat(pre, post, encode);
  }

  /** A marked file that parses stays in the listing when its icon cannot be encoded, with no icon. */
  lemma IconFailureKeepsEntry(files: seq<FileEntry>, encode: string -> Option<string>, i: nat)
    requires i < |files| && IsMarked(files[i]) && Parse(files[i].content).Ok?
    requires encode(Parse(files[i].content).value.iconPath).None?
    ensures App(Parse(files[i].content).value.name, None, Parse(files[i].content).value.exec)
      in ManagedApps(files, encode)
  {
    var e := Parse(files[i].content).value;
    assert Lists(files[i], encode, App(e.name, None, e.exec));
    ManagedAppsMembership(files, encode, App(e.name, None, e.exec));
  }

  /** A directory with no marked file, the empty one included, lists nothing. */
  lemma {:induction false} NoMarkedFilesListNothing(files: seq<FileEntry>, encode: string -> Option<string>)
    requires forall i :: 0 <= i < |files| ==> !IsMarked(files[i])
    ensures ManagedApps(files, encode) == []
    decreases |files|
  {
    var n := |files|;
    if n > 0 {
      var init := files[..n - 1];
      assert forall i :: 0 <= i < n - 1 ==> init[i] == files[i];
      NoMarkedFilesListNothing(init, encode);
    }
  }

  // ---------------------------------------------------------------------------
  // The search by launch command

  /** The search over two directory parts is the search over the first followed by that over the second. */
  lemma {:induction false} MatchingPathsOfConcat(a: seq<FileEntry>, b: seq<FileEntry>, query: string)
    ensures MatchingPaths(a + b, query) == MatchingPaths(a, query) + MatchingPaths(b, query)
    decreases |b|
  {
    if |b| == 0 {
      assert a + b == a;
    } else {
      var n := |b|;
      assert (a + b)[..|a + b| - 1] == a + b[..n - 1];
      assert (a + b)[|a + b| - 1] == b[n - 1];
      MatchingPathsOfConcat(a, b[..n - 1], query);
    }
  }

  /** A path is returned exactly when it belongs to a file, marked or not, that parses with a launch command containing the query. */
  lemma {:induction false} MatchingPathsMembership(files: seq<FileEntry>, query: string, path: string)
    ensures path in MatchingPaths(files, query) <==>
      exists i :: 0 <= i < |files| && files[i].path == path && ExecMatches(files[i], query)
    decreases |files|
  {
    var n := |files|;
    if n > 0 {
      var init := files[..n - 1];
      MatchingPathsMembership(init, query, path);
      if exists i :: 0 <= i < n && files[i].path == path && ExecMatches(files[i], query) {
        var i :| 0 <= i < n && files[i].path == path && ExecMatches(files[i], query);
        if i < n - 1 {
          assert init[i] == files[i];
        }
      }
      if exists i :: 0 <= i < n - 1 && init[i].path == path && ExecMatches(init[i], query) {
        var i :| 0 <= i < n - 1 && init[i].path == path && ExecMatches(init[i], query);
        assert files[i] == init[i];
      }
    }
  }

  /** The search is empty, not an error, exactly when no file matches. */
  lemma {:induction false} MatchingPathsEmptyIff(files: seq<FileEntry>, query: string)
    ensures MatchingPaths(files, query) == [] <==> forall i :: 0 <= i < |files| ==> !ExecMatches(files[i], query)
    decreases |files|
  {
    var n := |files|;
    if n > 0 {
      var init := files[..n - 1];
      assert forall i :: 0 <= i < n - 1 ==> init[i] == files[i];
      MatchingPathsEmptyIff(init, query);
    }
  }

  // ---------------------------------------------------------------------------
  // Lookup and removal by name

  /** Counting name matches over two directory parts adds up. */
  lemma {:induction false} CountNameMatchesOfConcat(a: seq<FileEntry>, b: seq<FileEntry>, appName: string)
    ensures CountNameMatches(a + b, appName) == CountNameMatches(a, appName) + CountNameMatches(b, appName)
    decreases |a|
  {
    if |a| == 0 {
      assert a + b == b;
    } else {
      assert (a + b)[1..] == a[1..] + b;
      CountNameMatchesOfConcat(a[1..], b, appName);
    }
  }

  /** There is no file with the name exactly when the count of such files is zero. */
  lemma {:induction false} NoNameMatchIffZeroCount(files: seq<FileEntry>, appName: string)
    ensures FirstNameMatch(files, appName).None? <==> CountNameMatches(files, appName) == 0
    decreases |files|
  {
    if |files| > 0 {
      NoNameMatchIffZeroCount(files[1..], appName);
    }
  }

  /** Removing the first file with the name removes exactly one such file; every other file, same-name duplicates included, remains. */
  lemma RemoveFirstMatch(files: seq<FileEntry>, appName: string, i: nat)
    requires FirstNameMatch(files, appName) == Some(i)
    ensures CountNameMatches(RemoveAt(files, i), appName) == CountNameMatches(files, appName) - 1
    ensures multiset(RemoveAt(files, i)) + multiset{files[i]} == multiset(files)
  {
    assert files == files[..i] + [files[i]] + files[i + 1..];
    CountNameMatchesOfConcat(files[..i] + [files[i]], files[i + 1..], appName);
    CountNameMatchesOfConcat(files[..i], [files[i]], appName);
    CountNameMatchesOfConcat(files[..i], files[i + 1..], appName);
    assert CountNameMatches([files[i]], appName) == 1 by {
      assert [files[i]][1..] == [];
    }
  }

  /** After removing the first file with the name, a second lookup fails exactly when that file was the only one. */
  lemma SecondLookupAfterRemoval(files: seq<FileEntry>, appName: string, i: nat)
    requires FirstNameMatch(files, appName) == Some(i)
    ensures FirstNameMatch(RemoveAt(files, i), appName).None? <==> CountNameMatches(files, appName) == 1
  {
    RemoveFirstMatch(files, appName, i);
    NoNameMatchIffZeroCount(RemoveAt(files, i), appName);
  }

  /**
   * The applications directory. `files` lists its launcher files in enumeration
   * order; `readError` is the operating system's reason when the directory
   * cannot be enumerated.
   */
  class ApplicationsDirectory {
    var files: seq<FileEntry>
    var readError: Option<string>

    constructor (files: seq<FileEntry>, readError: Option<string>)
      ensures this.files == files && this.readError == readError
    {
      this.files := files;
      this.readError := readError;
    }

    /** `read_all_app`: one record per marked file that parses, in directory order. */
    method ReadAllApp(encode: string -> Option<string>) returns (r: Result<seq<App>, string>)
      ensures readError.Some? ==> r == Err(ReadDirFailure(readError.value))
      ensures readError.None? ==> r == Ok(ManagedApps(files, encode))
    {
      if readError.Some? {
        return Err(ReadDirFailure(readError.value));
      }
      var apps: seq<App> := [];
      for i := 0 to |files|
        invariant apps == ManagedApps(files[..i], encode)
      {
        assert files[..i + 1][..i] == files[..i];
        var content := files[i].content;
        if Contains(content, Marker) {
          var parsed := ParseDesktopEntry(content);
          if parsed.Ok? {
            var entry := parsed.value;
            var icon := encode(entry.iconPath);
            apps := apps + [App(entry.name, icon, entry.exec)];
          }
        }
      }
      assert files[..|files|] == files;
      return Ok(apps);
    }

    /** `find_desktop_entry`: the entry of the first file whose parsed name is `appName`. */
    method FindDesktopEntry(appName: string) returns (r: Result<DesktopEntry, string>)
      ensures readError.Some? ==> r == Err(ReadDirFailure(readError.value))
      ensures readError.None? ==>
        match FirstNameMatch(files, appName)
        case Some(i) => r == Parse(files[i].content)
        case None => r == Err(NotFound(appName))
    {
      if readError.Some? {
        return Err(ReadDirFailure(readError.value));
      }
      for i := 0 to |files|
        invariant forall j :: 0 <= j < i ==> !NameMatches(files[j], appName)
      {
        var parsed := ParseDesktopEntry(files[i].content);
        if parsed.Ok? && parsed.value.name == appName {
          return parsed;
        }
      }
      return Err(NotFound(appName));
    }

    /** `find_desktop_entries_by_exec_contains`: the paths of all files whose launch command contains `query`. */
    method FindDesktopEntriesByExecContains(query: string) returns (r: Result<seq<string>, string>)
      ensures readError.Some? ==> r == Err(ReadDirFailure(readError.value))
      ensures readError.None? ==> r == Ok(MatchingPaths(files, query))
    {
      if readError.Some? {
        return Err(ReadDirFailure(readError.value));
      }
      var paths: seq<string> := [];
      for i := 0 to |files|
        invariant paths == MatchingPaths(files[..i], query)
      {
        assert files[..i + 1][..i] == files[..i];
        var parsed := ParseDesktopEntry(files[i].content);
        if parsed.Ok? && Contains(parsed.value.exec, query) {
          paths := paths + [files[i].path];
        }
      }
      assert files[..|files|] == files;
      return Ok(paths);
    }

    /**
     * `delete_desktop_file_by_name`: removes the first file whose parsed name is
     * `appName`. `removeError` is the operating system's reason when removing
     * that file fails.
     */
    method DeleteDesktopFileByName(appName: string, removeError: Option<string>) returns (r: Result<bool, string>)
      modifies this
      ensures readError == old(readError)
      ensures old(readError).Some? ==> r == Err(ReadDirFailure(old(readError).value)) && files == old(files)
      ensures old(readError).None? ==>
        match FirstNameMatch(old(files), appName)
        case None => r == Err(NotFound(appName)) && files == old(files)
        case Some(i) =>
          if removeError.Some? then r == Err(RemoveFailure(removeError.value)) && files == old(files)
          else r == Ok(true) && files == RemoveAt(old(files), i)
    {
      if readError.Some? {
        return Err(ReadDirFailure(readError.value));
      }
      for i := 0 to |files|
        invariant files == old(files) && readError == old(readError)
        invariant forall j :: 0 <= j < i ==> !NameMatches(files[j], appName)
      {
        var parsed := ParseDesktopEntry(files[i].content);
        if parsed.Ok? && parsed.value.name == appName {
          if removeError.Some? {
            return Err(RemoveFailure(removeError.value));
          }
          files := files[..i] + files[i + 1..];
          return Ok(true);
        }
      }
      return Err(NotFound(appName));
    }
  }
}
