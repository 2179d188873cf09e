/**
 * Consequences of the parser's overwrite semantics for typical launcher texts:
 * the last of two Name lines wins, keys count only at the very start of a line,
 * and a '\r' before the line break is kept in the value. The values are left
 * arbitrary (any text without '\n').
 */
module DesktopEntryExamples {
  import opened Wrappers
  import opened Text
  import opened DesktopEntryParser

  /** Whatever the text `t` held before, Name lines included, three trailing key
    * lines decide the parse: a second Name line wins over any earlier one. */
  lemma LastNameWins(t: string, b: string, x: string, y: string)
    requires '\n' !in b && '\n' !in x && '\n' !in y
    requires b != "" && x != "" && y != ""
    ensures Parse(t + "\n" + NameKey + b + "\n" + ExecKey + x + "\n" + IconKey + y) == Ok(DesktopEntry(x, b, y))
  {
    var t1 := t + "\n" + NameKey + b;
    var t2 := t1 + "\n" + ExecKey + x;
    LaterLineOverrides(t, NameKey, b);
    LaterLineOverrides(t1, ExecKey, x);
    LaterLineOverrides(t2, IconKey, y);
  }

  /** An indented ` Name=` line is not a Name line. */
  lemma IndentedNameIgnored(t: string, v: string)
    requires '\n' !in v
    ensures Captured(t + "\n" + " Name=" + v) == Captured(t)
  {
    var line := " Name=" + v;
    assert line[0] == ' ';
    assert '\n' !in line by {
      assert forall k :: 6 <= k < |line| ==> line[k] == v[k - 6];
    }
    UnkeyedLineIgnored(t, line);
    assert t + "\n" + " Name=" + v == t + "\n" + line;
  }

  /** A `GenericName=` line is not a Name line either. */
  lemma GenericNameIgnored(t: string, v: string)
    requires '\n' !in v
    ensures Captured(t + "\n" + "GenericName=" + v) == Captured(t)
  {
    var line := "GenericName=" + v;
    assert line[0] == 'G' && line[1] == 'e';
    assert '\n' !in line by {
      assert forall k :: 12 <= k < |line| ==> line[k] == v[k - 12];
    }
    UnkeyedLineIgnored(t, line);
    assert t + "\n" + "GenericName=" + v == t + "\n" + line;
  }

  /** Only '\n' ends a line: with CRLF line ends every value keeps its '\r'. */
  lemma CarriageReturnKept(x: string, n: string, y: string)
    requires '\n' !in x && '\n' !in n && '\n' !in y
    ensures Parse(ExecKey + x + "\r\n" + NameKey + n + "\r\n" + IconKey + y + "\r\n")
      == Ok(DesktopEntry(x + "\r", n + "\r", y + "\r"))
  {
    var x', n', y' := x + "\r", n + "\r", y + "\r";
    assert '\n' !in x' && '\n' !in n' && '\n' !in y';
    var t0 := ExecKey + x';
    var t1 := t0 + "\n" + NameKey + n';
    var t2 := t1 + "\n" + IconKey + y';
    SingleKeyLine(ExecKey, x');
    LaterLineOverrides(t0, NameKey, n');
    LaterLineOverrides(t1, IconKey, y');
    UnkeyedLineIgnored(t2, "");
    assert Captured(t2 + "\n" + "") == DesktopEntry(x', n', y');
    assert "\r\n" == "\r" + "\n";
    assert t2 + "\n" + "" == ExecKey + x + "\r\n" + NameKey + n + "\r\n" + IconKey + y + "\r\n";
  }
}
