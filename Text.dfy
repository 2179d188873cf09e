/**
 * The string operations the desktop-entry code relies on: Rust's `str::contains`,
 * the line-start anchoring of a multiline regular expression (`^Key=`), and the
 * division of a text into lines at '\n' that the `(?m)` flag and `.` (which never
 * matches '\n') impose on a match.
 */
module Text {

  /** `s` begins with `prefix`. */
  predicate StartsWith(s: string, prefix: string)
  {
    |prefix| <= |s| && s[..|prefix|] == prefix
  }

  /** Rust's `s.contains(sub)`: `sub` occurs in `s` at some position (the empty string always does). */
  predicate Contains(s: string, sub: string)
    decreases |s|
  {
    StartsWith(s, sub) || (|s| > 0 && Contains(s[1..], sub))
  }

  /** `sub` occurs in `s` at position `k`. */
  ghost predicate OccursAt(s: string, sub: string, k: int)
  {
    0 <= k && k + |sub| <= |s| && s[k..k + |sub|] == sub
  }

  /** An occurrence at position `k` makes `Contains` hold. */
  lemma {:induction false} OccursAtContains(s: string, sub: string, k: int)
    requires OccursAt(s, sub, k)
    ensures Contains(s, sub)
    decreases k
  {
    if k > 0 {
      assert s[1..][k - 1..k - 1 + |sub|] == s[k..k + |sub|];
      OccursAtContains(s[1..], sub, k - 1);
    }
  }

  /** `Contains` is substring containment. */
  lemma {:induction false} ContainsIff(s: string, sub: string)
    ensures Contains(s, sub) <==> exists k :: OccursAt(s, sub, k)
    decreases |s|
  {
    forall k | OccursAt(s, sub, k) ensures Contains(s, sub) {
      OccursAtContains(s, sub, k);
    }
    if StartsWith(s, sub) {
      assert OccursAt(s, sub, 0);
    } else if |s| > 0 {
      ContainsIff(s[1..], sub);
      if Contains(s[1..], sub) {
        var k :| OccursAt(s[1..], sub, k);
        assert s[k + 1..k + 1 + |sub|] == s[1..][k..k + |sub|];
        assert OccursAt(s, sub, k + 1);
      }
    }
  }

  /** The lines of `s`: the maximal pieces between '\n' characters. A text without
    * '\n' is one line; a trailing '\n' ends with an empty last line. */
  function Lines(s: string): (ls: seq<string>)
    ensures |ls| >= 1
    decreases |s|
  {
    if |s| == 0 then [""]
    else if s[0] == '\n' then [""] + Lines(s[1..])
    else
      var rest := Lines(s[1..]);
      [[s[0]] + rest[0]] + rest[1..]
  }

  /** The inverse of `Lines`: the lines put back together with '\n' between them. */
  function Join(ls: seq<string>): string
    requires |ls| >= 1
    decreases |ls|
  {
    if |ls| == 1 then ls[0] else ls[0] + "\n" + Join(ls[1..])
  }

  /** No line contains '\n'. */
  ghost predicate NoLineBreaks(ls: seq<string>)
  {
    forall i :: 0 <= i < |ls| ==> '\n' !in ls[i]
  }

  /** A text without '\n' is a single line. */
  lemma {:induction false} LinesOfSingleLine(s: string)
    requires '\n' !in s
    ensures Lines(s) == [s]
    decreases |s|
  {
    if |s| > 0 {
      LinesOfSingleLine(s[1..]);
      assert [s[0]] + s[1..] == s;
    }
  }

  /** Cutting at the first '\n' (position `k`) gives the first line and the lines of the rest. */
  lemma {:induction false} LinesAtFirstBreak(s: string, k: nat)
    requires k < |s| && s[k] == '\n'
    requires forall j :: 0 <= j < k ==> s[j] != '\n'
    ensures Lines(s) == [s[..k]] + Lines(s[k + 1..])
    decreases k
  {
    if k > 0 {
      LinesAtFirstBreak(s[1..], k - 1);
      assert s[1..][..k - 1] == s[1..k];
      assert s[1..][k..] == s[k + 1..];
      assert [s[0]] + s[1..k] == s[..k];
    }
  }

  /** The same cut, for the suffix of `s` from `start`, with the first '\n' at `i`. */
  lemma LinesFromBreak(s: string, start: nat, i: nat)
    requires start <= i < |s| && s[i] == '\n'
    requires forall j :: start <= j < i ==> s[j] != '\n'
    ensures Lines(s[start..]) == [s[start..i]] + Lines(s[i + 1..])
  {
    var suffix := s[start..];
    assert forall j :: 0 <= j < i - start ==> suffix[j] == s[start + j];
    LinesAtFirstBreak(suffix, i - start);
    assert suffix[..i - start] == s[start..i];
    assert suffix[i - start + 1..] == s[i + 1..];
  }

  /** Concatenation is associative; used to regroup the lines of `t + "\n" + u`. */
  lemma ConcatAssoc<T>(a: seq<T>, b: seq<T>, c: seq<T>)
    ensures a + (b + c) == (a + b) + c
  {
  }

  /** `Lines` unfolded once on a text that starts with `c`. */
  lemma LinesCons(c: char, r: string)
    ensures Lines([c] + r) ==
      if c == '\n' then [""] + Lines(r) else [[c] + Lines(r)[0]] + Lines(r)[1..]
  {
    assert ([c] + r)[0] == c;
    assert ([c] + r)[1..] == r;
  }

  /** One step of `LinesOfConcat`: putting a character in front of `t` keeps the law. */
  lemma LinesOfConcatStep(c: char, t: string, u: string)
    requires Lines(t + "\n" + u) == Lines(t) + Lines(u)
    ensures Lines([c] + (t + "\n" + u)) == Lines([c] + t) + Lines(u)
  {
    LinesCons(c, t + "\n" + u);
    LinesCons(c, t);
    var lt, lu := Lines(t), Lines(u);
    var head := if c == '\n' then [""] else [[c] + lt[0]];
    var tail := if c == '\n' then lt else lt[1..];
    assert Lines([c] + t) == head + tail;
    assert Lines([c] + (t + "\n" + u)) == head + (tail + lu) by {
      if c != '\n' {
        assert (lt + lu)[0] == lt[0];
        assert (lt + lu)[1..] == lt[1..] + lu;
      }
    }
    ConcatAssoc(head, tail, lu);
  }

  /** Lines of `t + "\n" + u` are the lines of `t` followed by the lines of `u`. */
  lemma {:induction false} LinesOfConcat(t: string, u: string)
    ensures Lines(t + "\n" + u) == Lines(t) + Lines(u)
    decreases |t|
  {
    if |t| == 0 {
      assert t + "\n" + u == ['\n'] + u;
      LinesCons('\n', u);
    } else {
      var c, t' := t[0], t[1..];
      LinesOfConcat(t', u);
      LinesOfConcatStep(c, t', u);
      assert t == [c] + t';
      ConcatAssoc([c], t', "\n");
      ConcatAssoc([c], t' + "\n", u);
    }
  }

  /** No line of a text contains '\n'. */
  lemma {:induction false} LinesHaveNoBreaks(s: string)
    ensures NoLineBreaks(Lines(s))
    decreases |s|
  {
    if |s| > 0 {
      LinesHaveNoBreaks(s[1..]);
      var rest := Lines(s[1..]);
      var ls := Lines(s);
      if s[0] == '\n' {
        assert forall i :: 0 < i < |ls| ==> ls[i] == rest[i - 1];
      } else {
        assert ls[0] == [s[0]] + rest[0];
        assert forall i :: 0 < i < |ls| ==> ls[i] == rest[i];
      }
    }
  }

  /** Joining the lines of a text gives back the text. */
  lemma {:induction false} JoinLines(s: string)
    ensures Join(Lines(s)) == s
    decreases |s|
  {
    if |s| > 0 {
      JoinLines(s[1..]);
      var rest := Lines(s[1..]);
      var ls := Lines(s);
      if s[0] == '\n' {
        assert ls == [""] + rest;
        assert ls[1..] == rest;
        assert Join(ls) == "" + "\n" + s[1..];
        assert s == "" + "\n" + s[1..];
      } else {
        assert ls == [[s[0]] + rest[0]] + rest[1..];
        if |rest| == 1 {
          assert Join(ls) == [s[0]] + rest[0];
        } else {
          assert ls[1..] == rest[1..];
          assert Join(rest) == rest[0] + "\n" + Join(rest[1..]);
          assert Join(ls) == ([s[0]] + rest[0]) + "\n" + Join(rest[1..]);
        }
        assert [s[0]] + s[1..] == s;
      }
    }
  }

  /** Splitting a join of break-free lines gives back those lines. */
  lemma {:induction false} LinesOfJoin(ls: seq<string>)
    requires |ls| >= 1 && NoLineBreaks(ls)
    ensures Lines(Join(ls)) == ls
    decreases |ls|
  {
    assert '\n' !in ls[0];
    LinesOfSingleLine(ls[0]);
    if |ls| > 1 {
      assert NoLineBreaks(ls[1..]) by {
        forall i | 0 <= i < |ls[1..]| ensures '\n' !in ls[1..][i] { assert ls[1..][i] == ls[i + 1]; }
      }
      LinesOfJoin(ls[1..]);
      LinesOfConcat(ls[0], Join(ls[1..]));
      assert ls == [ls[0]] + ls[1..];
    }
  }

  /** The lines of `s`, computed by one scan over its characters. */
  method SplitLines(s: string) returns (ls: seq<string>)
    ensures ls == Lines(s)
  {
    ls := [];
    var start := 0;
    var i := 0;
    while i < |s|
      invariant 0 <= start <= i <= |s|
      invariant forall j :: start <= j < i ==> s[j] != '\n'
      invariant ls + Lines(s[start..]) == Lines(s)
    {
      if s[i] == '\n' {
        LinesFromBreak(s, start, i);
        ls := ls + [s[start..i]];
        start := i + 1;
      }
      i := i + 1;
    }
    LinesOfSingleLine(s[start..]);
    ls := ls + [s[start..]];
  }
}
