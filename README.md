# AppHub desktop-entry repository, modelled in Dafny

AppHub installs portable application images on Linux and registers each one
with a launcher file (a freedesktop "desktop entry") in
`~/.local/share/applications`. This project models the part of AppHub that
reads that directory back: the launcher-file parser `parse_desktop_entry`
and the four directory scans built on it (`read_all_app`,
`find_desktop_entry`, `find_desktop_entries_by_exec_contains`,
`delete_desktop_file_by_name`), all in
`src-tauri/src/helpers/desktop_file_helpers.rs`.

Files:

- `Wrappers.dfy`: `Option` and `Result`.
- `Text.dfy`: prefix test, Rust's `str::contains`, and the split of a text
  into lines at `'\n'`. `SplitLines` is the one-pass method. `Lines` is its
  specification. `Join` is its inverse.
- `DesktopEntryParser.dfy`: the parser. `ParseDesktopEntry` is the loop
  that overwrites three strings, as in the source. It is proved equal to
  the pure function `Parse`, and the lemmas about `Parse` state the parser's
  properties.
- `DesktopEntryExamples.dfy`: consequences for typical texts, for
  arbitrary values: two Name lines, indented or longer keys, CRLF line ends.
- `DesktopEntryRepository.dfy`: the class `ApplicationsDirectory` and the
  four scans. `files` is the list of `(path, content)` pairs in enumeration
  order. `readError` is the operating system's reason when
  `std::fs::read_dir` fails. Delete reassigns `files`. Each method is proved
  against a specification function (`ManagedApps`, `FirstNameMatch`,
  `MatchingPaths`, `RemoveAt`), and the lemmas prove what the source
  promises about those functions.

How the regular expression is modelled. The source uses
`(?m)^Exec=(.*)$|^Name=(.*)$|^Icon=(.*)$`. In Rust's `regex` crate, `.` never
matches `'\n'`, and in multi-line mode `^` and `$` match only at `'\n'` or at
the ends of the text. So every match is one whole line that starts with one of
the three keys, and the capture is the rest of that line. Only `'\n'` ends a
line, so a `'\r'` before it stays in the value. The model splits the text at
`'\n'` and tests each line for the three prefixes. Each match overwrites the
value for its key, so the value is the rest of the LAST line with that key.
An empty last line (`Name=`) counts too: it sets the value to `""`.

Collaborators that are passed in:

- The icon encoder `image_to_base64` is the parameter
  `encode: string -> Option<string>`. `None` means the encoder failed.
- The outcome of `std::fs::remove_file` is the parameter
  `removeError: Option<string>`.
- The success or failure of `read_dir` is the field `readError`.

Facts about the code that the model follows:

- The doc comment on `delete_desktop_file_by_name` (line 178) says it
  returns true on success and false otherwise. The code never returns
  `Ok(false)`. It returns `Ok(true)` after a removal (line 199) and an `Err`
  in every other case (lines 202, 212, 215). The model does the same.
- A file that cannot be read makes the code panic through `expect` (lines
  23, 117, 154, 191). It does not return an error, so it is left out below.
- Only `read_all_app` tests the `X-AppHub=true` marker. Find-by-name, exec
  search and delete consider every file that parses.

## Model

| member | source | states |
|---|---|---|
| `Text.SplitLines` | src-tauri/src/helpers/desktop_file_helpers.rs:72 | the one-pass split returns exactly `Lines(s)`, the lines the multi-line anchors `^`/`$` delimit |
| `Text.JoinLines` | src-tauri/src/helpers/desktop_file_helpers.rs:72 | joining the lines with `'\n'` gives back the text: the lines cover the whole text |
| `Text.LinesOfJoin` | src-tauri/src/helpers/desktop_file_helpers.rs:72 | splitting a join of break-free lines gives back those lines (the other round trip) |
| `Text.LinesHaveNoBreaks` | src-tauri/src/helpers/desktop_file_helpers.rs:72 | no line contains `'\n'`, as `.` never matches it |
| `Text.LinesOfConcat` | src-tauri/src/helpers/desktop_file_helpers.rs:72 | the lines of `t + "\n" + u` are the lines of `t` followed by those of `u` |
| `Text.ContainsIff` | src-tauri/src/helpers/desktop_file_helpers.rs:25 | `Contains` (Rust's `str::contains`) holds exactly when the substring occurs at some position |
| `DesktopEntryParser.ParseDesktopEntry` | src-tauri/src/helpers/desktop_file_helpers.rs:70-103 | the loop over lines with three overwritten strings and the final emptiness test returns exactly `Parse(text)` |
| `DesktopEntryParser.LastValueCharacterization` | src-tauri/src/helpers/desktop_file_helpers.rs:79-93 | a key's value is non-empty exactly when the last line that starts with the key has text after it, and it is then exactly that remainder |
| `DesktopEntryParser.LastValueOfLastKeyLine` | src-tauri/src/helpers/desktop_file_helpers.rs:79-93 | with a line starting with the key, the value is the rest of the last such line (last match wins) |
| `DesktopEntryParser.LastValueWithoutKeyLine` | src-tauri/src/helpers/desktop_file_helpers.rs:74-77 | with no line starting with the key, the value stays the initial empty string |
| `DesktopEntryParser.LastValueOfConcat` | src-tauri/src/helpers/desktop_file_helpers.rs:79-93 | scanning `a` then `b`: `b` decides the value when one of its lines has the key, otherwise `a` does |
| `DesktopEntryParser.ParseSucceedsIff` | src-tauri/src/helpers/desktop_file_helpers.rs:95-102 | parsing succeeds iff, for each of Exec, Name and Icon, the last line with that key has a non-empty remainder |
| `DesktopEntryParser.ParseIsLastLines` | src-tauri/src/helpers/desktop_file_helpers.rs:79-102 | `Parse(text) == Ok(e)` iff every field of `e` is non-empty and is the remainder of the last line with its key (both directions) |
| `DesktopEntryParser.ParsedValuesAreSingleLine` | src-tauri/src/helpers/desktop_file_helpers.rs:72 | no parsed value contains `'\n'` |
| `DesktopEntryParser.SingleKeyLine` | src-tauri/src/helpers/desktop_file_helpers.rs:80-84 | a one-line text `key + v` holds `v` for that key |
| `DesktopEntryParser.LaterLineOverrides` | src-tauri/src/helpers/desktop_file_helpers.rs:80-93 | an appended line `key + v` sets that key's value to `v`, whatever it was, and leaves the other two unchanged |
| `DesktopEntryParser.UnkeyedLineIgnored` | src-tauri/src/helpers/desktop_file_helpers.rs:72 | an appended line that starts with none of the three keys changes nothing |
| `DesktopEntryParser.EmptyLaterLineFails` | src-tauri/src/helpers/desktop_file_helpers.rs:86-98 | a later empty `Name=` (or `Exec=`, `Icon=`) line clears the value, so the parse fails |
| `DesktopEntryExamples.LastNameWins` | src-tauri/src/helpers/desktop_file_helpers.rs:80-102 | after any prefix text, trailing Name, Exec and Icon lines decide the parsed entry, so a second Name line wins |
| `DesktopEntryExamples.IndentedNameIgnored` | src-tauri/src/helpers/desktop_file_helpers.rs:72 | a ` Name=` line (leading space) is not a Name line: an instance of `UnkeyedLineIgnored` showing the key must start the line |
| `DesktopEntryExamples.GenericNameIgnored` | src-tauri/src/helpers/desktop_file_helpers.rs:72 | a `GenericName=` line is not a Name line: an instance of `UnkeyedLineIgnored` showing a longer key does not match |
| `DesktopEntryExamples.CarriageReturnKept` | src-tauri/src/helpers/desktop_file_helpers.rs:72 | with CRLF line ends every parsed value keeps its trailing `'\r'` |
| `DesktopEntryRepository.ApplicationsDirectory.ReadAllApp` | src-tauri/src/helpers/desktop_file_helpers.rs:9-63 | on a readable directory the result is `Ok(ManagedApps(files, encode))`; on a read failure it is the "Failed to read directory: " error |
| `DesktopEntryRepository.ManagedAppsOfConcat` | src-tauri/src/helpers/desktop_file_helpers.rs:17-55 | the listing follows directory order: the listing of `a + b` is the listing of `a` followed by that of `b` |
| `DesktopEntryRepository.ManagedAppsMembership` | src-tauri/src/helpers/desktop_file_helpers.rs:25-43 | a record is listed iff some file contains `X-AppHub=true`, parses, and yields that `App { name, icon, app_path = exec }`; unmarked files never appear |
| `DesktopEntryRepository.SkippedFileIgnored` | src-tauri/src/helpers/desktop_file_helpers.rs:25-53 | a file without the marker, or one that does not parse, has no effect on the listing |
| `DesktopEntryRepository.IconFailureKeepsEntry` | src-tauri/src/helpers/desktop_file_helpers.rs:31-43 | when the icon encoder fails, the entry is still listed, with `icon_base64 = None` |
| `DesktopEntryRepository.NoMarkedFilesListNothing` | src-tauri/src/helpers/desktop_file_helpers.rs:51-62 | a directory with no marked file, including an empty one, lists nothing |
| `DesktopEntryRepository.FirstNameMatch` | src-tauri/src/helpers/desktop_file_helpers.rs:114-131 | the index returned is of a file that parses with exactly that name, and no earlier file does; `None` means no file does |
| `DesktopEntryRepository.ApplicationsDirectory.FindDesktopEntry` | src-tauri/src/helpers/desktop_file_helpers.rs:108-137 | returns the parsed entry of the first exact name match, with no marker check; with no match, "App not found: <name>"; on a read failure, the directory error |
| `DesktopEntryRepository.ApplicationsDirectory.FindDesktopEntriesByExecContains` | src-tauri/src/helpers/desktop_file_helpers.rs:143-175 | on a readable directory, `Ok(MatchingPaths(files, query))`; on a read failure, the directory error |
| `DesktopEntryRepository.MatchingPathsOfConcat` | src-tauri/src/helpers/desktop_file_helpers.rs:151-167 | matching paths come in directory order: the result for `a + b` is that for `a` followed by that for `b` |
| `DesktopEntryRepository.MatchingPathsMembership` | src-tauri/src/helpers/desktop_file_helpers.rs:157-161 | a path is returned iff it belongs to a file, marked or not, that parses with an exec containing the query |
| `DesktopEntryRepository.MatchingPathsEmptyIff` | src-tauri/src/helpers/desktop_file_helpers.rs:144-174 | the result is the empty list (not an error) exactly when no file matches |
| `DesktopEntryRepository.ApplicationsDirectory.DeleteDesktopFileByName` | src-tauri/src/helpers/desktop_file_helpers.rs:182-218 | removes exactly the first exact name match and returns `Ok(true)`; a remove failure gives "Failed to remove file: " with nothing removed; no match gives "App not found: <name>" with nothing removed; a read failure gives the directory error |
| `DesktopEntryRepository.NoNameMatchIffZeroCount` | src-tauri/src/helpers/desktop_file_helpers.rs:114-131 | lookup by name finds nothing exactly when no file parses with that name |
| `DesktopEntryRepository.RemoveFirstMatch` | src-tauri/src/helpers/desktop_file_helpers.rs:194-199 | deleting the first match lowers the number of same-name files by exactly one and keeps every other file (as a multiset) |
| `DesktopEntryRepository.SecondLookupAfterRemoval` | src-tauri/src/helpers/desktop_file_helpers.rs:188-212 | after a delete, a second lookup or delete of that name fails exactly when the name had a single copy |

## Left out

- The home-directory lookup `dirs::home_dir()` and the fixed sub-path. The directory is the object's state instead.
- The real `read_dir`, `read_to_string` and `remove_file` calls. The enumeration order is the order of `files`. Concurrent changes to the directory by other processes are not modelled.
- Panics from `expect` and `unwrap` are not modelled. These cover the home directory (line 13), a failed directory entry (lines 19, 117, 154, 191), an unreadable or non-UTF-8 file (lines 23, 117, 154, 191) and a non-UTF-8 path (line 160). Every read is treated as succeeding.
- Logging through `debug!`, `info!` and `error!`.
- The workings of `image_to_base64`. It is a foreign module, here a parameter function.
- The regular-expression engine. Its line-anchored match semantics are written out as the split at `'\n'` plus a prefix test. That this agrees with the `regex` crate is argued above, not proved.
- The second `contains("X-AppHub=true")` test in `read_all_app` (line 30) is always true at that point, so it is modelled once.
- Rust strings are UTF-8 bytes. The model works on `char` sequences, which is enough because the pattern only matches ASCII keys and `'\n'`.
- `src-tauri/src/commands/dialog_commands.rs` (file and folder pickers) and `src/lib/i18n/translations.ts` (a string table) are not part of this model.
