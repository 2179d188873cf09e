/**
 * The launcher-file parser (`parse_desktop_entry`). The source matches the text
 * against the multiline pattern `^Exec=(.*)$|^Name=(.*)$|^Icon=(.*)$`: every line
 * that begins with one of the three keys overwrites the value held for that key,
 * so the last such line wins, and parsing fails unless all three values end up
 * non-empty. Here the pattern is spelled out as a split at '\n' followed by a
 * prefix test on each line.
 */
module DesktopEntryParser {
  import opened Wrappers
  import opened Text

  /** The parsed record: launch command, display name and icon path. */
  datatype DesktopEntry = DesktopEntry(exec: string, name: string, iconPath: string)

  const ExecKey: string := "Exec="
  const NameKey: string := "Name="
  const IconKey: string := "Icon="

  /** The error text of a failed parse. */
  const ParseFailure: string := "Failed to parse desktop entry"

  /** One of the three keys the pattern looks for. */
  predicate IsKey(key: string)
  {
    key == ExecKey || key == NameKey || key == IconKey
  }

  /** The value held for `key` after scanning `lines`: the rest of the last line
    * that begins with `key`, or "" when no line does. */
  function LastValue(lines: seq<string>, key: string): string
    decreases |lines|
  {
    if |lines| == 0 then ""
    else if StartsWith(lines[|lines| - 1], key) then lines[|lines| - 1][|key|..]
    else LastValue(lines[..|lines| - 1], key)
  }

  /** The three values held after scanning the whole text; any of them may be empty. */
  function Captured(text: string): DesktopEntry
  {
    var ls := Lines(text);
    DesktopEntry(LastValue(ls, ExecKey), LastValue(ls, NameKey), LastValue(ls, IconKey))
  }

  /** All three fields are non-empty. */
  predicate Complete(e: DesktopEntry)
  {
    e.exec != "" && e.name != "" && e.iconPath != ""
  }

  /** The parser's result: the captured values when all are non-empty, otherwise the parse error. */
  function Parse(text: string): Result<DesktopEntry, string>
  {
    var e := Captured(text);
    if Complete(e) then Ok(e) else Err(ParseFailure)
  }

  /** The imperative parser: one pass over the lines, three overwritable values, then the emptiness test. */
  method ParseDesktopEntry(text: string) returns (r: Result<DesktopEntry, string>)
    ensures r == Parse(text)
  {
    var lines := SplitLines(text);
    var exec, name, icon := "", "", "";
    for i := 0 to |lines|
      invariant exec == LastValue(lines[..i], ExecKey)
      invariant name == LastValue(lines[..i], NameKey)
      invariant icon == LastValue(lines[..i], IconKey)
    {
      assert lines[..i + 1][..i] == lines[..i];
      var line := lines[i];
      if StartsWith(line, ExecKey) {
        exec := line[|ExecKey|..];
      }
      if StartsWith(line, NameKey) {
        name := line[|NameKey|..];
      }
      if StartsWith(line, IconKey) {
        icon := line[|IconKey|..];
      }
    }
    assert lines[..|lines|] == lines;
    if exec == "" || name == "" || icon == "" {
      return Err(ParseFailure);
    }
    return Ok(DesktopEntry(exec, name, icon));
  }

  // ---------------------------------------------------------------------------
  // What the value of a key is, stated without the scan

  /** Line `i` begins with `key` and no later line does. */
  ghost predicate IsLastKeyLine(lines: seq<string>, key: string, i: int)
  {
    0 <= i < |lines| && StartsWith(lines[i], key)
    && forall j :: i < j < |lines| ==> !StartsWith(lines[j], key)
  }

  /** Some line begins with `key`. */
  ghost predicate HasKeyLine(lines: seq<string>, key: string)
  {
    exists j :: 0 <= j < |lines| && StartsWith(lines[j], key)
  }

  /** The last line beginning with `key` is exactly `key + v`. */
  ghost predicate LastLineCarries(lines: seq<string>, key: string, v: string)
  {
    exists i :: IsLastKeyLine(lines, key, i) && lines[i] == key + v
  }

  /** The last line beginning with `key` has something after the key. */
  ghost predicate HasValue(lines: seq<string>, key: string)
  {
    exists i :: IsLastKeyLine(lines, key, i) && |lines[i]| > |key|
  }

  /** With a line beginning with `key`, the value is the rest of the last such line. */
  lemma {:induction false} LastValueOfLastKeyLine(lines: seq<string>, key: string, i: int)
    requires IsLastKeyLine(lines, key, i)
    ensures LastValue(lines, key) == lines[i][|key|..]
    decreases |lines|
  {
    if i < |lines| - 1 {
      var init := lines[..|lines| - 1];
      assert IsLastKeyLine(init, key, i) by {
        forall j | i < j < |init| ensures !StartsWith(init[j], key) {
          assert init[j] == lines[j];
        }
      }
      LastValueOfLastKeyLine(init, key, i);
    }
  }

  /** With no line beginning with `key`, the value stays empty. */
  lemma {:induction false} LastValueWithoutKeyLine(lines: seq<string>, key: string)
    requires !HasKeyLine(lines, key)
    ensures LastValue(lines, key) == ""
    decreases |lines|
  {
    if |lines| > 0 {
      var init := lines[..|lines| - 1];
      assert !HasKeyLine(init, key) by {
        forall j | 0 <= j < |init| ensures !StartsWith(init[j], key) {
          assert init[j] == lines[j];
        }
      }
      LastValueWithoutKeyLine(init, key);
    }
  }

  /** A line beginning with `key` means there is a last one. */
  lemma {:induction false} LastKeyLineExists(lines: seq<string>, key: string)
    requires HasKeyLine(lines, key)
    ensures exists i :: IsLastKeyLine(lines, key, i)
    decreases |lines|
  {
    var n := |lines|;
    if StartsWith(lines[n - 1], key) {
      assert IsLastKeyLine(lines, key, n - 1);
    } else {
      var init := lines[..n - 1];
      var j :| 0 <= j < n && StartsWith(lines[j], key);
      assert init[j] == lines[j];
      LastKeyLineExists(init, key);
      var i :| IsLastKeyLine(init, key, i);
      assert forall k :: i < k < n - 1 ==> lines[k] == init[k];
      assert IsLastKeyLine(lines, key, i);
    }
  }

  /** Only one line can be the last one beginning with `key`. */
  lemma LastKeyLineUnique(lines: seq<string>, key: string, i: int, j: int)
    requires IsLastKeyLine(lines, key, i) && IsLastKeyLine(lines, key, j)
    ensures i == j
  {
  }

  /** Scanning `a` then `b`: the lines of `b` decide the value whenever one of them begins with `key`. */
  lemma {:induction false} LastValueOfConcat(a: seq<string>, b: seq<string>, key: string)
    ensures LastValue(a + b, key) == if HasKeyLine(b, key) then LastValue(b, key) else LastValue(a, key)
    decreases |b|
  {
    if |b| == 0 {
      assert a + b == a;
    } else {
      var n := |b|;
      assert (a + b)[..|a + b| - 1] == a + b[..n - 1];
      assert (a + b)[|a + b| - 1] == b[n - 1];
      LastValueOfConcat(a, b[..n - 1], key);
      if !StartsWith(b[n - 1], key) {
        assert HasKeyLine(b, key) <==> HasKeyLine(b[..n - 1], key) by {
          if HasKeyLine(b, key) {
            var j :| 0 <= j < n && StartsWith(b[j], key);
            assert b[..n - 1][j] == b[j];
          }
          if HasKeyLine(b[..n - 1], key) {
            var j :| 0 <= j < n - 1 && StartsWith(b[..n - 1][j], key);
            assert b[..n - 1][j] == b[j];
          }
        }
      } else {
        assert HasKeyLine(b, key);
      }
    }
  }

  /** The value held for `key` is the rest of the last line beginning with `key`, and any non-empty value comes from such a line. */
  lemma LastValueCharacterization(lines: seq<string>, key: string)
    ensures LastValue(lines, key) != "" <==> HasValue(lines, key)
    ensures forall v :: v != "" ==> (LastValue(lines, key) == v <==> LastLineCarries(lines, key, v))
  {
    if HasKeyLine(lines, key) {
      LastKeyLineExists(lines, key);
      var i :| IsLastKeyLine(lines, key, i);
      LastValueOfLastKeyLine(lines, key, i);
      assert lines[i] == key + lines[i][|key|..];
      forall v | v != "" && LastLineCarries(lines, key, v) ensures LastValue(lines, key) == v {
        var i' :| IsLastKeyLine(lines, key, i') && lines[i'] == key + v;
        LastKeyLineUnique(lines, key, i, i');
        assert lines[i][|key|..] == v;
      }
      assert LastLineCarries(lines, key, LastValue(lines, key));
    } else {
      LastValueWithoutKeyLine(lines, key);
    }
  }

  // ---------------------------------------------------------------------------
  // Properties of the parser

  /** Parsing succeeds exactly when, for each of Exec, Name and Icon, the last line beginning with that key has a non-empty remainder. */
  lemma ParseSucceedsIff(text: string)
    ensures Parse(text).Ok? <==>
      HasValue(Lines(text), ExecKey) && HasValue(Lines(text), NameKey) && HasValue(Lines(text), IconKey)
  {
    LastValueCharacterization(Lines(text), ExecKey);
    LastValueCharacterization(Lines(text), NameKey);
    LastValueCharacterization(Lines(text), IconKey);
  }

  /** `Parse(text)` returns `e` exactly when every field of `e` is non-empty and is the remainder of the last line of the text carrying that key. */
  lemma ParseIsLastLines(text: string, e: DesktopEntry)
    ensures Parse(text) == Ok(e) <==>
      && e.exec != "" && e.name != "" && e.iconPath != ""
      && LastLineCarries(Lines(text), ExecKey, e.exec)
      && LastLineCarries(Lines(text), NameKey, e.name)
      && LastLineCarries(Lines(text), IconKey, e.iconPath)
  {
    LastValueCharacterization(Lines(text), ExecKey);
    LastValueCharacterization(Lines(text), NameKey);
    LastValueCharacterization(Lines(text), IconKey);
  }

  /** A captured value never contains '\n': it runs to the end of its line. */
  lemma {:induction false} LastValueHasNoLineBreak(lines: seq<string>, key: string)
    requires NoLineBreaks(lines)
    ensures '\n' !in LastValue(lines, key)
    decreases |lines|
  {
    var n := |lines|;
    if n > 0 {
      if StartsWith(lines[n - 1], key) {
        var last := lines[n - 1];
        assert '\n' !in last;
        var rest := last[|key|..];
        forall k | 0 <= k < |rest| ensures rest[k] != '\n' {
          assert rest[k] == last[|key| + k];
        }
      } else {
        var init := lines[..n - 1];
        assert NoLineBreaks(init) by {
          forall i | 0 <= i < n - 1 ensures '\n' !in init[i] { assert init[i] == lines[i]; }
        }
        LastValueHasNoLineBreak(init, key);
      }
    }
  }

  /** The values of a parsed entry contain no '\n'. */
  lemma ParsedValuesAreSingleLine(text: string)
    requires Parse(text).Ok?
    ensures '\n' !in Parse(text).value.exec
    ensures '\n' !in Parse(text).value.name
    ensures '\n' !in Parse(text).value.iconPath
  {
    LinesHaveNoBreaks(text);
    LastValueHasNoLineBreak(Lines(text), ExecKey);
    LastValueHasNoLineBreak(Lines(text), NameKey);
    LastValueHasNoLineBreak(Lines(text), IconKey);
  }

  /** A line `key + v` added at the end overwrites that key's value, however it was set before, and leaves the other two alone. */
  lemma LaterLineOverrides(t: string, key: string, v: string)
    requires IsKey(key) && '\n' !in v
    ensures Captured(t + "\n" + key + v) ==
      if key == ExecKey then Captured(t).(exec := v)
      else if key == NameKey then Captured(t).(name := v)
      else Captured(t).(iconPath := v)
  {
    var line := key + v;
    assert '\n' !in line by {
      assert forall k :: 0 <= k < |key| ==> line[k] == key[k];
      assert forall k :: |key| <= k < |line| ==> line[k] == v[k - |key|];
    }
    assert t + "\n" + key + v == t + "\n" + line;
    LinesOfConcat(t, line);
    LinesOfSingleLine(line);
    assert Lines(t + "\n" + line) == Lines(t) + [line];
    LastValueOfConcat(Lines(t), [line], ExecKey);
    LastValueOfConcat(Lines(t), [line], NameKey);
    LastValueOfConcat(Lines(t), [line], IconKey);
    assert line[..|key|] == key;
    assert line[|key|..] == v;
  }

  /** A text made of the single line `key + v` holds `v` for that key. */
  lemma SingleKeyLine(key: string, v: string)
    requires IsKey(key) && '\n' !in v
    ensures LastValue(Lines(key + v), key) == v
  {
    var line := key + v;
    assert '\n' !in line by {
      assert forall k :: 0 <= k < |key| ==> line[k] == key[k];
      assert forall k :: |key| <= k < |line| ==> line[k] == v[k - |key|];
    }
    LinesOfSingleLine(line);
    assert line[..|key|] == key;
    assert line[|key|..] == v;
  }

  /** A line that begins with none of the keys leaves all three values as they were. */
  lemma UnkeyedLineIgnored(t: string, line: string)
    requires '\n' !in line
    requires !StartsWith(line, ExecKey) && !StartsWith(line, NameKey) && !StartsWith(line, IconKey)
    ensures Captured(t + "\n" + line) == Captured(t)
  {
    LinesOfConcat(t, line);
    LinesOfSingleLine(line);
    LastValueOfConcat(Lines(t), [line], ExecKey);
    LastValueOfConcat(Lines(t), [line], NameKey);
    LastValueOfConcat(Lines(t), [line], IconKey);
  }

  /** A later empty `Name=` (or `Exec=`, `Icon=`) line clears the value and makes the parse fail. */
  lemma EmptyLaterLineFails(t: string, key: string)
    requires IsKey(key)
    ensures Parse(t + "\n" + key) == Err(ParseFailure)
  {
    LaterLineOverrides(t, key, "");
    assert t + "\n" + key + "" == t + "\n" + key;
  }
}
