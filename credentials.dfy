/**
  The credential capture of submit mode (kattis-tools.py lines 263-281):
  up to six pasted lines are read, `username: X` and `token: Y` lines set
  the two values, and the first line that is neither, once both values are
  non-empty, ends the capture. The lines `input()` would return are given
  as a sequence; reading past its end is the `EOFError` of `input()`.
*/
module Credentials {
  import opened Wrappers
  import opened Text

  /** The number of `input()` calls the loop allows, `range(6)`. */
  const MaxLines := 6

  /** `re.match("^" + prefix + "(.*)$", line).group(1)`: `line` starts with
      `prefix`, and the rest, which `.` must cover, holds no line break
      except one at the very end, where `$` also matches and which the
      group leaves out. */
  function MatchLine(line: string, prefix: string): Option<string> {
    if !StartsWith(line, prefix) then None
    else
      var rest := line[|prefix|..];
      if '\n' !in rest then Some(rest)
      else if rest[|rest| - 1] == '\n' && '\n' !in rest[..|rest| - 1] then Some(rest[..|rest| - 1])
      else None
  }

  /** A match gives a group without line breaks that, after the prefix,
      makes up the line, with at most one final `\n` beyond it. */
  lemma MatchLineSound(line: string, prefix: string)
    ensures var m := MatchLine(line, prefix);
      m.Some? ==> '\n' !in m.value && (line == prefix + m.value || line == prefix + m.value + "\n")
  {
    var m := MatchLine(line, prefix);
    if m.Some? {
      var rest := line[|prefix|..];
      assert line == prefix + rest;
      if '\n' in rest {
        assert rest == m.value + "\n";
      }
    }
  }

  /** Every line of that shape matches, with exactly that group. */
  lemma MatchLineComplete(line: string, prefix: string, v: string)
    requires '\n' !in v && (line == prefix + v || line == prefix + v + "\n")
    ensures MatchLine(line, prefix) == Some(v)
  {
    assert line[..|prefix|] == prefix;
    var rest := line[|prefix|..];
    if line == prefix + v {
      assert rest == v;
    } else {
      assert rest == v + "\n";
      assert rest[..|rest| - 1] == v;
    }
  }

  /** What one line does: the username pattern is tried first. */
  datatype LineKind = UsernameLine(value: string) | TokenLine(value: string) | Other

  function Kind(line: string): LineKind {
    match MatchLine(line, "username: ")
    case Some(v) => UsernameLine(v)
    case None =>
      match MatchLine(line, "token: ")
      case Some(v) => TokenLine(v)
      case None => Other
  }

  datatype Capture =
    | Captured(username: string, token: string, consumed: nat)  // the `break` at line 278
    | CaptureFailed                                             // the `else` branch, exit(1)
    | EndOfInput                                                // `input()` raises EOFError

  /** The loop from iteration `i` on, with the values held so far. */
  function CaptureFrom(lines: seq<string>, i: nat, username: string, token: string): Capture
    requires i <= MaxLines
    decreases MaxLines - i
  {
    if i == MaxLines then CaptureFailed
    else if i >= |lines| then EndOfInput
    else
      match Kind(lines[i])
      case UsernameLine(v) => CaptureFrom(lines, i + 1, v, token)
      case TokenLine(v) => CaptureFrom(lines, i + 1, username, v)
      case Other =>
        if username != "" && token != "" then Captured(username, token, i + 1)
        else CaptureFrom(lines, i + 1, username, token)
  }

  /** Lines 265-281 from `username = ""`, `token = ""`. */
  function CaptureAll(lines: seq<string>): Capture {
    CaptureFrom(lines, 0, "", "")
  }

  /** The loop itself, with its two `continue`s, the `break` and the `for ... else`. */
  method CaptureCredentials(lines: seq<string>) returns (o: Capture)
    ensures o == CaptureAll(lines)
  {
    var username := "";
    var token := "";
    for i := 0 to MaxLines
      invariant CaptureFrom(lines, i, username, token) == CaptureAll(lines)
    {
      if i >= |lines| {
        return EndOfInput;
      }
      var data := lines[i];
      var m := MatchLine(data, "username: ");
      if m.Some? {
        username := m.value;
        continue;
      }
      m := MatchLine(data, "token: ");
      if m.Some? {
        token := m.value;
        continue;
      }
      if username != "" && token != "" {
        return Captured(username, token, i + 1);
      }
    }
    return CaptureFailed;
  }

  // ----- A reference for the two values -----

  datatype Field = Username | Token

  function Sets(kind: LineKind, f: Field): Option<string> {
    match (kind, f)
    case (UsernameLine(v), Username) => Some(v)
    case (TokenLine(v), Token) => Some(v)
    case _ => None
  }

  /** The value the last line of `lines` that sets `f` gives, or "". */
  function Last(lines: seq<string>, f: Field): string {
    if lines == [] then ""
    else
      match Sets(Kind(lines[|lines| - 1]), f)
      case Some(v) => v
      case None => Last(lines[..|lines| - 1], f)
  }

  /** A later line overrides every earlier one: the value is the one set by
      the last line that sets it, and "" when no line does. */
  lemma {:induction false} LastIsLatest(lines: seq<string>, f: Field, k: int)
    requires -1 <= k < |lines|
    requires k >= 0 ==> Sets(Kind(lines[k]), f).Some?
    requires forall j :: k < j < |lines| ==> Sets(Kind(lines[j]), f).None?
    ensures Last(lines, f) == if k >= 0 then Sets(Kind(lines[k]), f).value else ""
  {
    if lines != [] && k < |lines| - 1 {
      var init := lines[..|lines| - 1];
      assert forall j :: k < j < |init| ==> init[j] == lines[j];
      assert k >= 0 ==> init[k] == lines[k];
      LastIsLatest(init, f, k);
    }
  }

  /** The capture stops at line `k`: a line that is neither pattern, read
      while both values are already non-empty. */
  predicate StopsAt(lines: seq<string>, k: nat) {
    k < |lines| && Kind(lines[k]) == Other && Last(lines[..k], Username) != "" && Last(lines[..k], Token) != ""
  }

  lemma LastStep(lines: seq<string>, i: nat, f: Field)
    requires i < |lines|
    ensures Last(lines[..i + 1], f) == match Sets(Kind(lines[i]), f) case Some(v) => v case None => Last(lines[..i], f)
  {
    assert lines[..i + 1][..i] == lines[..i];
  }

  /** Line `k` is the first of the six to stop the capture. */
  predicate FirstStop(lines: seq<string>, k: nat) {
    k < MaxLines && StopsAt(lines, k) && forall j :: 0 <= j < k ==> !StopsAt(lines, j)
  }

  /** A line that does not stop the capture moves the held values to those of one more line. */
  lemma CaptureStep(lines: seq<string>, i: nat, u: string, t: string)
    requires i < MaxLines && i < |lines| && !StopsAt(lines, i)
    requires u == Last(lines[..i], Username) && t == Last(lines[..i], Token)
    ensures CaptureFrom(lines, i, u, t)
         == CaptureFrom(lines, i + 1, Last(lines[..i + 1], Username), Last(lines[..i + 1], Token))
  {
    LastStep(lines, i, Username);
    LastStep(lines, i, Token);
  }

  lemma CaptureStop(lines: seq<string>, i: nat, u: string, t: string)
    requires i < MaxLines && StopsAt(lines, i)
    requires u == Last(lines[..i], Username) && t == Last(lines[..i], Token)
    ensures CaptureFrom(lines, i, u, t) == Captured(u, t, i + 1)
  {
  }

  /** From iteration `i`, holding the values `u` and `t` of the first `i`
      lines, when no earlier line stopped the capture: a capture happens at
      the first stopping line, with the values held before it. */
  lemma {:induction false} CapturedFrom(lines: seq<string>, i: nat, u: string, t: string)
    requires i <= MaxLines && i <= |lines|
    requires forall k :: 0 <= k < i ==> !StopsAt(lines, k)
    requires u == Last(lines[..i], Username) && t == Last(lines[..i], Token)
    ensures var o := CaptureFrom(lines, i, u, t);
      o.Captured? ==>
        && 0 < o.consumed && FirstStop(lines, o.consumed - 1)
        && o.username == Last(lines[..o.consumed - 1], Username)
        && o.token == Last(lines[..o.consumed - 1], Token)
    decreases MaxLines - i
  {
    if i < MaxLines && i < |lines| {
      if StopsAt(lines, i) {
        CaptureStop(lines, i, u, t);
      } else {
        CaptureStep(lines, i, u, t);
        CapturedFrom(lines, i + 1, Last(lines[..i + 1], Username), Last(lines[..i + 1], Token));
      }
    }
  }

  /** The same, when no capture happens: no line within reach stops it, and
      the loop ends by end of input exactly when fewer than six lines exist. */
  lemma {:induction false} NotCapturedFrom(lines: seq<string>, i: nat, u: string, t: string)
    requires i <= MaxLines && i <= |lines|
    requires forall k :: 0 <= k < i ==> !StopsAt(lines, k)
    requires u == Last(lines[..i], Username) && t == Last(lines[..i], Token)
    ensures var o := CaptureFrom(lines, i, u, t);
      !o.Captured? ==>
        && (forall k :: 0 <= k < MaxLines && k < |lines| ==> !StopsAt(lines, k))
        && (o == EndOfInput <==> |lines| < MaxLines)
    decreases MaxLines - i
  {
    if i < MaxLines && i < |lines| {
      if StopsAt(lines, i) {
        CaptureStop(lines, i, u, t);
      } else {
        CaptureStep(lines, i, u, t);
        NotCapturedFrom(lines, i + 1, Last(lines[..i + 1], Username), Last(lines[..i + 1], Token));
      }
    }
  }

  /** What the capture loop does, stated without the loop. It succeeds
      exactly when one of the first six lines stops it. Then it consumes the
      lines up to the first such one, and keeps the last username and token
      set before it. It fails with end of input exactly when fewer than six
      lines are available and none of them stops it. Otherwise it takes the
      `else` branch. */
  lemma CaptureSpec(lines: seq<string>)
    ensures var o := CaptureAll(lines);
      && (o.Captured? <==> exists k :: 0 <= k < MaxLines && StopsAt(lines, k))
      && (o.Captured? ==>
            && 1 <= o.consumed <= MaxLines && o.consumed <= |lines| && StopsAt(lines, o.consumed - 1)
            && (forall k :: 0 <= k < o.consumed - 1 ==> !StopsAt(lines, k))
            && o.username == Last(lines[..o.consumed - 1], Username) != ""
            && o.token == Last(lines[..o.consumed - 1], Token) != "")
      && (o == EndOfInput <==> |lines| < MaxLines && forall k :: 0 <= k < |lines| ==> !StopsAt(lines, k))
      && (o == CaptureFailed <==> |lines| >= MaxLines && forall k :: 0 <= k < MaxLines ==> !StopsAt(lines, k))
  {
    assert lines[..0] == [];
    CapturedFrom(lines, 0, "", "");
    NotCapturedFrom(lines, 0, "", "");
  }

  /** Six pasted lines that all set a value leave no room for the stopping
      line: the capture fails even though both values were seen. */
  lemma SixSettingLinesFail(lines: seq<string>)
    requires |lines| >= MaxLines
    requires forall k :: 0 <= k < MaxLines ==> Kind(lines[k]) != Other
    ensures CaptureAll(lines) == CaptureFailed
  {
    CaptureSpec(lines);
  }

  lemma KindOfSettingLine(prefix: string, v: string)
    requires prefix == "username: " || prefix == "token: "
    requires '\n' !in v
    ensures prefix == "username: " ==> Kind(prefix + v) == UsernameLine(v)
    ensures prefix == "token: " ==> Kind(prefix + v) == TokenLine(v)
  {
    MatchLineComplete(prefix + v, prefix, v);
    if prefix == "token: " {
      assert (prefix + v)[0] == 't';
      assert !StartsWith(prefix + v, "username: ");
    }
  }

  /** The `.kattisrc` lines pasted three times over: both values are set from
      the first two lines on, yet capture fails. */
  lemma RepeatedPasteFails(user: string, token: string)
    requires '\n' !in user && '\n' !in token && user != "" && token != ""
    ensures var u := "username: " + user;
      var t := "token: " + token;
      CaptureAll([u, t, u, t, u, t]) == CaptureFailed
  {
    var u := "username: " + user;
    var t := "token: " + token;
    KindOfSettingLine("username: ", user);
    KindOfSettingLine("token: ", token);
    SixSettingLinesFail([u, t, u, t, u, t]);
  }

  /** The two lines followed by an empty line, the usual paste: captured
      after three lines. */
  lemma PasteThenEnterCaptures(user: string, token: string)
    requires '\n' !in user && '\n' !in token && user != "" && token != ""
    ensures CaptureAll(["username: " + user, "token: " + token, ""]) == Captured(user, token, 3)
  {
    KindOfSettingLine("username: ", user);
    KindOfSettingLine("token: ", token);
    assert !StartsWith("", "username: ") && !StartsWith("", "token: ");
  }

}
