/**
  Judge mode of kattis-tools.py (lines 164-204) with the captured-output
  half of `run_problem` (lines 86-101) and `before_run_problem` (lines
  75-84). The problem directory is a listing plus the text of the files
  that can be opened; launching a command is a function `run` from the
  resolved command line and the input file fed to it to what the process
  did (its wall-clock time as a natural number, its standard output and
  error, its exit code).
*/
module Judge {
  import opened Wrappers
  import opened Text
  import opened Interpolation
  import Selection

  /** What one launch of the run command did. */
  datatype RawRun = RawRun(duration: nat, stdout: string, exitCode: int, stderr: string)

  /** The captured-mode result of `run_problem`: standard output normalised. */
  datatype RunResult = RunResult(duration: nat, output: string, exitCode: int, stderr: string)

  /** Lines 98-99: every `\r` removed, then `strip_whitespace`. */
  function NormalizeOutput(stdout: string): string {
    StripWhitespace(Replace(stdout, "\r", ""))
  }

  function RunProblem(raw: RawRun): RunResult {
    RunResult(raw.duration, NormalizeOutput(raw.stdout), raw.exitCode, raw.stderr)
  }

  lemma StrippedChars(s: string, r: string)
    requires StrippedFrom(s, r)
    ensures forall x :: x in r ==> x in s
  {
    var i, j :| StripsAt(s, i, j) && r == s[i..j];
    assert forall k :: 0 <= k < |r| ==> r[k] == s[i + k];
  }

  /** The normalised output holds no `\r`, has no whitespace at either end,
      and is the stripped input with every `\r` taken out. */
  lemma NormalizeOutputSpec(stdout: string)
    ensures NormalizeOutput(stdout) == StripWhitespace(Without(stdout, '\r'))
    ensures '\r' !in NormalizeOutput(stdout)
    ensures IsTrimmed(NormalizeOutput(stdout))
  {
    ReplaceCharByNothing(stdout, '\r');
    assert "\r" == ['\r'];
    var w := Without(stdout, '\r');
    var r := StripWhitespace(w);
    StripWhitespaceSpec(w);
    StrippedChars(w, r);
    var i, j :| StripsAt(w, i, j) && r == w[i..j];
  }

  lemma {:induction false} WithoutConcat(a: string, b: string, c: char)
    ensures Without(a + b, c) == Without(a, c) + Without(b, c)
    decreases |a|
  {
    if a != [] {
      assert (a + b)[0] == a[0] && (a + b)[1..] == a[1..] + b;
      WithoutConcat(a[1..], b, c);
    } else {
      assert a + b == b;
    }
  }

  lemma WithoutSpace(w: string, c: char)
    requires AllSpace(w)
    ensures AllSpace(Without(w, c))
  {
    var r := Without(w, c);
    forall k | 0 <= k < |r| ensures IsSpace(r[k]) {
      assert r[k] in w;
    }
  }

  /** Whitespace and carriage returns printed before or after the answer do
      not change the normalised output. */
  lemma NormalizeIgnoresSurroundingSpace(w1: string, s: string, w2: string)
    requires AllSpace(w1) && AllSpace(w2)
    ensures NormalizeOutput(w1 + s + w2) == NormalizeOutput(s)
  {
    NormalizeOutputSpec(w1 + s + w2);
    NormalizeOutputSpec(s);
    WithoutConcat(w1 + s, w2, '\r');
    WithoutConcat(w1, s, '\r');
    WithoutSpace(w1, '\r');
    WithoutSpace(w2, '\r');
    StripIgnoresSurroundingSpace(Without(w1, '\r'), Without(s, '\r'), Without(w2, '\r'));
  }

  // ----- Verdicts -----

  datatype Verdict = RuntimeError(code: int) | Accepted | WrongAnswer(got: string, expected: string)

  /** Lines 187-196: a nonzero exit code first, then exact comparison with the stripped answer. */
  function Classify(out: RunResult, answer: string): Verdict {
    if out.exitCode != 0 then RuntimeError(out.exitCode)
    else if out.output == answer then Accepted
    else WrongAnswer(out.output, answer)
  }

  /** The verdict on one raw run against the answer file's text. */
  function VerdictOn(raw: RawRun, answerText: string): Verdict {
    Classify(RunProblem(raw), StripWhitespace(answerText))
  }

  /** Runtime Error exactly on a nonzero exit, whatever was printed; Accepted
      exactly on exit 0 with output equal to the answer once both are
      normalised; Wrong Answer otherwise, reporting both texts. */
  lemma VerdictCases(raw: RawRun, answerText: string)
    ensures VerdictOn(raw, answerText).RuntimeError? <==> raw.exitCode != 0
    ensures raw.exitCode != 0 ==> VerdictOn(raw, answerText) == VerdictOn(raw.(stdout := []), answerText)
    ensures VerdictOn(raw, answerText) == Accepted <==>
      raw.exitCode == 0 && StripWhitespace(Without(raw.stdout, '\r')) == StripWhitespace(answerText)
    ensures VerdictOn(raw, answerText).WrongAnswer? ==>
      VerdictOn(raw, answerText) == WrongAnswer(NormalizeOutput(raw.stdout), StripWhitespace(answerText))
  {
    NormalizeOutputSpec(raw.stdout);
  }

  /** Surrounding whitespace on either side never changes a verdict. */
  lemma VerdictIgnoresSurroundingSpace(raw: RawRun, answerText: string, w1: string, w2: string, w3: string, w4: string)
    requires AllSpace(w1) && AllSpace(w2) && AllSpace(w3) && AllSpace(w4)
    ensures VerdictOn(raw.(stdout := w1 + raw.stdout + w2), w3 + answerText + w4) == VerdictOn(raw, answerText)
  {
    NormalizeIgnoresSurroundingSpace(w1, raw.stdout, w2);
    StripIgnoresSurroundingSpace(w3, answerText, w4);
  }

  // ----- Reading the answer file -----

  /** Line 184: `open(...).read()` in text mode. Universal newlines turn
      `\r\n` and a lone `\r` into `\n`. */
  function ReadText(contents: string): (r: string)
    ensures '\r' !in r
    decreases |contents|
  {
    if contents == [] then []
    else if contents[0] == '\r' then
      if |contents| >= 2 && contents[1] == '\n' then "\n" + ReadText(contents[2..])
      else "\n" + ReadText(contents[1..])
    else [contents[0]] + ReadText(contents[1..])
  }

  /** Text-mode reading is `\r\n` replaced by `\n`, then every remaining `\r`
      replaced by `\n`: a lone `\r` becomes a line break too. */
  lemma {:induction false} ReadTextByReplace(s: string)
    ensures ReadText(s) == Replace(Replace(s, "\r\n", "\n"), "\r", "\n")
    decreases |s|
  {
    if s != [] {
      var a := [s[0]];
      if s[0] == '\r' && |s| >= 2 && s[1] == '\n' {
        var x := Replace(s[2..], "\r\n", "\n");
        ReplaceAtStart("\r\n", s[2..], "\n");
        assert s == "\r\n" + s[2..];
        ReplaceSkipsPlain("\n", x, "\r", "\n");
        ReadTextByReplace(s[2..]);
      } else {
        var x := Replace(s[1..], "\r\n", "\n");
        assert !StartsWith(s, "\r\n") by {
          if |s| >= 2 { assert s[..2][0] == s[0] && s[..2][1] == s[1]; }
        }
        ReplaceHead(s, "\r\n", "\n");
        if s[0] == '\r' {
          assert a == "\r";
          ReplaceAtStart("\r", x, "\n");
        } else {
          ReplaceSkipsPlain(a, x, "\r", "\n");
        }
        ReadTextByReplace(s[1..]);
      }
    }
  }

  /** Every `\r` of `s` is the first half of a `\r\n` pair. */
  predicate CrlfOnly(s: string) {
    forall i :: 0 <= i < |s| && s[i] == '\r' ==> i + 1 < |s| && s[i + 1] == '\n'
  }

  lemma CrlfOnlyDrop(s: string, k: nat)
    requires k <= |s| && CrlfOnly(s)
    ensures CrlfOnly(s[k..])
  {
    forall i | 0 <= i < |s[k..]| && s[k..][i] == '\r' ensures i + 1 < |s[k..]| && s[k..][i + 1] == '\n' {
      assert s[k..][i] == s[k + i];
    }
  }

  /** When every `\r` starts a `\r\n`, text-mode reading and taking out
      every `\r` (what line 98 does to standard output) give the same text. */
  lemma {:induction false} ReadTextCrlf(s: string)
    requires CrlfOnly(s)
    ensures ReadText(s) == Without(s, '\r')
    decreases |s|
  {
    if s != [] {
      if s[0] == '\r' {
        var t := s[2..];
        assert s[1..][1..] == t;
        CrlfOnlyDrop(s, 2);
        ReadTextCrlf(t);
      } else {
        CrlfOnlyDrop(s, 1);
        ReadTextCrlf(s[1..]);
      }
    }
  }

  /** A file without carriage returns is read as it is. */
  lemma ReadTextPlain(s: string)
    requires '\r' !in s
    ensures ReadText(s) == s
  {
    ReadTextCrlf(s);
    WithoutAbsent(s, '\r');
  }

  /** A lone `\r` inside the answer is read as a line break, while the same
      `\r` printed by the solution is dropped: echoing the file gives Wrong
      Answer. */
  lemma LoneCarriageReturnIsWrongAnswer()
    ensures VerdictOn(RawRun(0, "a\rb", 0, ""), ReadText("a\rb")) == WrongAnswer("ab", "a\nb")
  {
    LoneCarriageReturnRead();
    LoneCarriageReturnPrinted();
    StripsNothing("ab");
    StripsNothing("a\nb");
  }

  lemma LoneCarriageReturnRead()
    ensures ReadText("a\rb") == "a\nb"
  {
    assert "a\rb"[1..] == "\rb" && "\rb"[1..] == "b" && "b"[1..] == [];
  }

  lemma LoneCarriageReturnPrinted()
    ensures Replace("a\rb", "\r", "") == "ab"
  {
    assert "a\rb"[1..] == "\rb" && "\rb"[1..] == "b" && "b"[1..] == [];
    assert Without("a\rb", '\r') == "ab";
    ReplaceCharByNothing("a\rb", '\r');
    assert "\r" == ['\r'];
  }

  /** A string that begins and ends with a non-space character is its own strip. */
  lemma StripsNothing(s: string)
    requires s != [] && !IsSpace(s[0]) && !IsSpace(s[|s| - 1])
    ensures StripWhitespace(s) == s
  {
  }

  // ----- Sample discovery -----

  /** Line 168: the answer file discovery looks for, `file.split(".")[0] + ".ans"`. */
  function AnswerLookedFor(file: string): string {
    BeforeFirstDot(file) + ".ans"
  }

  /** Line 184: the answer file that is opened, `sample.replace(".in", ".ans")`. */
  function AnswerOpened(sample: string): string {
    Replace(sample, ".in", ".ans")
  }

  predicate IsSample(file: string, listing: seq<string>) {
    EndsWith(file, ".in") && AnswerLookedFor(file) in listing
  }

  /** The files of `files`, in order, that are samples of `listing`. */
  function SamplesAmong(files: seq<string>, listing: seq<string>): seq<string> {
    if files == [] then []
    else
      SamplesAmong(files[..|files| - 1], listing)
      + (if IsSample(files[|files| - 1], listing) then [files[|files| - 1]] else [])
  }

  function Samples(listing: seq<string>): seq<string> {
    SamplesAmong(listing, listing)
  }

  /** Lines 165-169: the `samples` list built by appending. */
  method DiscoverSamples(listing: seq<string>) returns (samples: seq<string>)
    ensures samples == Samples(listing)
  {
    samples := [];
    for i := 0 to |listing|
      invariant samples == SamplesAmong(listing[..i], listing)
    {
      var file := listing[i];
      assert listing[..i + 1][..i] == listing[..i];
      if EndsWith(file, ".in") && AnswerLookedFor(file) in listing {
        samples := samples + [file];
      }
    }
    assert listing[..|listing|] == listing;
  }

  /** `a` is `b` with some elements left out, order kept. */
  predicate IsSubsequence<T(==)>(a: seq<T>, b: seq<T>)
    decreases |b|
  {
    if a == [] then true
    else if b == [] then false
    else (a[|a| - 1] == b[|b| - 1] && IsSubsequence(a[..|a| - 1], b[..|b| - 1])) || IsSubsequence(a, b[..|b| - 1])
  }

  /** Exactly the listed files that end in `.in` and whose looked-for answer
      is listed, in listing order. */
  lemma {:induction false} SamplesAmongSpec(files: seq<string>, listing: seq<string>)
    ensures forall x :: x in SamplesAmong(files, listing) <==> x in files && IsSample(x, listing)
    ensures IsSubsequence(SamplesAmong(files, listing), files)
  {
    if files != [] {
      var init, last := files[..|files| - 1], files[|files| - 1];
      assert files == init + [last];
      SamplesAmongSpec(init, listing);
      var s := SamplesAmong(files, listing);
      if IsSample(last, listing) {
        assert s[..|s| - 1] == SamplesAmong(init, listing);
      } else {
        assert s == SamplesAmong(init, listing);
        SubsequenceExtend(s, init, last);
      }
    }
  }

  lemma {:induction false} SubsequenceExtend<T>(a: seq<T>, b: seq<T>, x: T)
    requires IsSubsequence(a, b)
    ensures IsSubsequence(a, b + [x])
  {
    assert (b + [x])[..|b|] == b;
  }

  lemma SamplesSpec(listing: seq<string>)
    ensures forall x :: x in Samples(listing) <==> x in listing && EndsWith(x, ".in") && AnswerLookedFor(x) in listing
    ensures IsSubsequence(Samples(listing), listing)
  {
    SamplesAmongSpec(listing, listing);
  }

  /** For a sample named `base.in` with a dot-free `base`, the answer that is
      opened is the one discovery looked for. */
  lemma PlainSampleAnswer(base: string)
    requires '.' !in base
    ensures AnswerLookedFor(base + ".in") == AnswerOpened(base + ".in") == base + ".ans"
  {
    var f := base + ".in";
    var r := BeforeFirstDot(f);
    assert f[|base|] == '.' && f[..|base|] == base;
    assert forall k :: 0 <= k < |base| ==> f[k] == base[k];
    assert r == base;
    ReplaceSkipsPlain(base, ".in", ".in", ".ans");
    ReplaceAtStart(".in", [], ".ans");
    assert ".in" + [] == ".in";
  }

  lemma OpensDoubleDotAnswer()
    ensures AnswerOpened("a.b.in") == "a.b.ans"
  {
    NotStartsWithOther("a", ".b.in", ".in");
    assert "a" + ".b.in" == "a.b.in";
    ReplaceHead("a.b.in", ".in", ".ans");
    SecondDiffers(".b.in", ".in");
    ReplaceHead(".b.in", ".in", ".ans");
    ReplaceHead("b.in", ".in", ".ans");
    ReplaceAtStart(".in", [], ".ans");
    assert ".in" + [] == ".in";
  }

  lemma SecondDiffers(s: string, pat: string)
    requires |s| >= |pat| >= 2 && s[1] != pat[1]
    ensures !StartsWith(s, pat)
  {
    assert s[..|pat|][1] == s[1];
  }

  lemma DoubleDotIsSample()
    ensures Samples(["a.b.in", "a.ans"]) == ["a.b.in"]
  {
    var listing := ["a.b.in", "a.ans"];
    assert BeforeFirstDot("a.b.in") == "a";
    assert BeforeFirstDot("a.ans") == "a";
    assert !EndsWith("a.ans", ".in");
    assert AnswerLookedFor("a.b.in") == "a.ans" == listing[1];
    assert IsSample("a.b.in", listing);
    assert listing[..1] == ["a.b.in"];
    assert SamplesAmong([], listing) == [];
    assert SamplesAmong(listing[..1], listing) == ["a.b.in"];
  }

  /** A sample with a second dot: discovery accepts `a.b.in` because `a.ans`
      is listed, but the file opened is `a.b.ans`, which is not. */
  lemma AnswerLookedForIsNotAnswerOpened()
    ensures var listing := ["a.b.in", "a.ans"];
      Samples(listing) == ["a.b.in"] && AnswerOpened("a.b.in") == "a.b.ans" && "a.b.ans" !in listing
  {
    DoubleDotIsSample();
    OpensDoubleDotAnswer();
    assert "a.b.ans" != "a.b.in" && "a.b.ans" != "a.ans";
  }

  // ----- The judge loop -----

  /** One sample's printed verdict and its time. */
  datatype Trial = Trial(verdict: Verdict, duration: nat)

  datatype Outcome =
    | NoTestData                                 // line 172, then exit(1)
    | BeforeRunFailed(code: int)                 // line 83, then exit() with status 0
    | AnswerMissing(sample: string, answerFile: string)  // open() at line 184 raises
    | Finished(trials: seq<Trial>, correct: nat, worst: nat, offerSubmit: bool, submit: bool)

  /** Line 203: `input(...).lower() == "y"`. */
  predicate IsYes(reply: string) {
    reply == "y" || reply == "Y"
  }

  predicate Answered(samples: seq<string>, files: map<string, string>) {
    forall i :: 0 <= i < |samples| ==> AnswerOpened(samples[i]) in files
  }

  function TrialOf(sample: string, command: string, files: map<string, string>, run: (string, string) -> RawRun): Trial
    requires AnswerOpened(sample) in files
  {
    var raw := run(command, sample);
    Trial(VerdictOn(raw, ReadText(files[AnswerOpened(sample)])), raw.duration)
  }

  /** The trials of all samples, in order. */
  function Trials(samples: seq<string>, command: string, files: map<string, string>, run: (string, string) -> RawRun): seq<Trial>
    requires Answered(samples, files)
  {
    seq(|samples|, i requires 0 <= i < |samples| => TrialOf(samples[i], command, files, run))
  }

  function CountAccepted(trials: seq<Trial>): nat {
    if trials == [] then 0
    else CountAccepted(trials[..|trials| - 1]) + (if trials[|trials| - 1].verdict == Accepted then 1 else 0)
  }

  function Max(a: nat, b: nat): nat {
    if a < b then b else a
  }

  /** `worst = max(worst, out[0])` from `worst = 0`. */
  function Worst(trials: seq<Trial>): nat {
    if trials == [] then 0 else Max(Worst(trials[..|trials| - 1]), trials[|trials| - 1].duration)
  }

  /** The first sample whose answer file cannot be opened, or `|samples|`. */
  function FirstUnanswered(samples: seq<string>, files: map<string, string>): (k: nat)
    ensures k <= |samples| && Answered(samples[..k], files)
    ensures k < |samples| ==> AnswerOpened(samples[k]) !in files
  {
    if samples == [] then 0
    else if AnswerOpened(samples[0]) !in files then 0
    else
      var k := 1 + FirstUnanswered(samples[1..], files);
      assert forall i :: 1 <= i < k ==> samples[..k][i] == samples[1..][..k - 1][i - 1];
      k
  }

  /** Lines 178-204 on the discovered samples, once `before_run` has passed. */
  function Tally(samples: seq<string>, command: string, files: map<string, string>,
                 run: (string, string) -> RawRun, reply: string): Outcome
  {
    var k := FirstUnanswered(samples, files);
    if k < |samples| then AnswerMissing(samples[k], AnswerOpened(samples[k]))
    else
      assert samples[..k] == samples;
      var trials := Trials(samples, command, files, run);
      var correct := CountAccepted(trials);
      Finished(trials, correct, Worst(trials), correct == |samples|, correct == |samples| && IsYes(reply))
  }

  /** What judge mode does, given the listing, the readable files, the
      language, the file context, the exit code the `before_run` command
      would give, the run function and the reply to the submit prompt. */
  function JudgeSpec(listing: seq<string>, files: map<string, string>, lang: Selection.LanguageDef,
                     ctx: FileContext, beforeRunExit: int, run: (string, string) -> RawRun, reply: string): Outcome
  {
    var samples := Samples(listing);
    if samples == [] then NoTestData
    else if Interpolate(lang.beforeRun, ctx) != "" && beforeRunExit != 0 then BeforeRunFailed(beforeRunExit)
    else Tally(samples, Interpolate(lang.runCommand, ctx), files, run, reply)
  }

  lemma FirstUnansweredAt(samples: seq<string>, files: map<string, string>, i: nat)
    requires i <= |samples| && Answered(samples[..i], files)
    requires i < |samples| ==> AnswerOpened(samples[i]) !in files
    ensures FirstUnanswered(samples, files) == i
  {
    var k := FirstUnanswered(samples, files);
    assert forall j :: 0 <= j < i ==> samples[..i][j] == samples[j];
    assert forall j :: 0 <= j < k ==> samples[..k][j] == samples[j];
  }

  lemma TrialsStep(samples: seq<string>, i: nat, command: string, files: map<string, string>,
                   run: (string, string) -> RawRun)
    requires i < |samples| && Answered(samples[..i], files) && AnswerOpened(samples[i]) in files
    ensures Answered(samples[..i + 1], files)
    ensures Trials(samples[..i + 1], command, files, run)
         == Trials(samples[..i], command, files, run) + [TrialOf(samples[i], command, files, run)]
  {
    assert forall j :: 0 <= j < i ==> samples[..i + 1][j] == samples[..i][j];
    var t := Trials(samples[..i + 1], command, files, run);
    var t' := Trials(samples[..i], command, files, run) + [TrialOf(samples[i], command, files, run)];
    assert |t| == |t'|;
    forall j | 0 <= j < |t| ensures t[j] == t'[j] {
      if j < i {
        assert samples[..i + 1][j] == samples[..i][j];
      }
    }
  }

  lemma TallyStep(trials: seq<Trial>, t: Trial)
    ensures CountAccepted(trials + [t]) == CountAccepted(trials) + (if t.verdict == Accepted then 1 else 0)
    ensures Worst(trials + [t]) == Max(Worst(trials), t.duration)
  {
    assert (trials + [t])[..|trials|] == trials;
  }

  /** The tally stops at sample `i` when it is the first without an answer file. */
  lemma TallyStopsAt(samples: seq<string>, i: nat, command: string, files: map<string, string>,
                     run: (string, string) -> RawRun, reply: string)
    requires i < |samples| && Answered(samples[..i], files) && AnswerOpened(samples[i]) !in files
    ensures Tally(samples, command, files, run, reply) == AnswerMissing(samples[i], AnswerOpened(samples[i]))
  {
    FirstUnansweredAt(samples, files, i);
  }

  /** With every answer file present, the tally finishes with the counters of all trials. */
  lemma TallyCompletes(samples: seq<string>, command: string, files: map<string, string>,
                       run: (string, string) -> RawRun, reply: string)
    requires Answered(samples[..|samples|], files)
    ensures Answered(samples, files)
    ensures Trials(samples[..|samples|], command, files, run) == Trials(samples, command, files, run)
    ensures var trials := Trials(samples, command, files, run);
      var correct := CountAccepted(trials);
      Tally(samples, command, files, run, reply)
      == Finished(trials, correct, Worst(trials), correct == |samples|, correct == |samples| && IsYes(reply))
  {
    assert samples[..|samples|] == samples;
    FirstUnansweredAt(samples, files, |samples|);
  }

  /** One pass of the loop body, lines 182-196: run the sample, open its
      answer file (`None` when it cannot be opened) and classify. */
  method JudgeSample(sample: string, lang: Selection.LanguageDef, ctx: FileContext, files: map<string, string>,
                     run: (string, string) -> RawRun)
    returns (t: Option<Trial>)
    ensures t.None? <==> AnswerOpened(sample) !in files
    ensures t.Some? ==> t.value == TrialOf(sample, Interpolate(lang.runCommand, ctx), files, run)
  {
    var runCommand := ParseVariables(lang.runCommand, ctx);
    var out := RunProblem(run(runCommand, sample));
    var answerFile := AnswerOpened(sample);
    if answerFile !in files {
      return None;
    }
    var ans := StripWhitespace(ReadText(files[answerFile]));
    return Some(Trial(Classify(out, ans), out.duration));
  }

  /** The loop of lines 181-198 and the prompt decision of lines 202-204. */
  method JudgeSamples(samples: seq<string>, lang: Selection.LanguageDef, ctx: FileContext, files: map<string, string>,
                      run: (string, string) -> RawRun, reply: string)
    returns (o: Outcome)
    ensures o == Tally(samples, Interpolate(lang.runCommand, ctx), files, run, reply)
  {
    ghost var command := Interpolate(lang.runCommand, ctx);
    var correct: nat := 0;
    var worst: nat := 0;
    var trials: seq<Trial> := [];
    for i := 0 to |samples|
      invariant Answered(samples[..i], files)
      invariant trials == Trials(samples[..i], command, files, run)
      invariant correct == CountAccepted(trials)
      invariant worst == Worst(trials)
    {
      var t := JudgeSample(samples[i], lang, ctx, files, run);
      if t.None? {
        TallyStopsAt(samples, i, command, files, run, reply);
        return AnswerMissing(samples[i], AnswerOpened(samples[i]));
      }
      var trial := t.value;
      if trial.verdict == Accepted {
        correct := correct + 1;
      }
      worst := Max(worst, trial.duration);
      TrialsStep(samples, i, command, files, run);
      TallyStep(trials, trial);
      trials := trials + [trial];
    }
    TallyCompletes(samples, command, files, run, reply);
    var offer := correct == |samples|;
    return Finished(trials, correct, worst, offer, offer && IsYes(reply));
  }

  /** Judge mode: discovery, `before_run`, then the loop. */
  method RunJudge(listing: seq<string>, files: map<string, string>, lang: Selection.LanguageDef,
                  ctx: FileContext, beforeRunExit: int, run: (string, string) -> RawRun, reply: string)
    returns (o: Outcome)
    ensures o == JudgeSpec(listing, files, lang, ctx, beforeRunExit, run, reply)
  {
    var samples := DiscoverSamples(listing);
    if samples == [] {
      return NoTestData;
    }
    var beforeRun := ParseVariables(lang.beforeRun, ctx);
    if beforeRun != "" && beforeRunExit != 0 {
      return BeforeRunFailed(beforeRunExit);
    }
    o := JudgeSamples(samples, lang, ctx, files, run, reply);
  }

  // ----- What the tallies mean -----

  /** The positions of the Accepted trials. */
  function AcceptedAt(trials: seq<Trial>): set<nat> {
    set i: nat | i < |trials| && trials[i].verdict == Accepted
  }

  lemma AcceptedAtStep(trials: seq<Trial>)
    requires trials != []
    ensures var n := |trials| - 1;
      AcceptedAt(trials)
      == AcceptedAt(trials[..n]) + (if trials[n].verdict == Accepted then {n} else {})
    ensures |trials| - 1 !in AcceptedAt(trials[..|trials| - 1])
  {
    var n := |trials| - 1;
    assert forall i :: 0 <= i < n ==> trials[..n][i] == trials[i];
  }

  /** `correct` counts the Accepted verdicts, so it is at most the number of
      samples, and reaches it exactly when every verdict is Accepted. */
  lemma {:induction false} CountAcceptedSpec(trials: seq<Trial>)
    ensures CountAccepted(trials) == |AcceptedAt(trials)|
    ensures CountAccepted(trials) <= |trials|
    ensures CountAccepted(trials) == |trials| <==> forall i :: 0 <= i < |trials| ==> trials[i].verdict == Accepted
  {
    if trials != [] {
      var n := |trials| - 1;
      var init := trials[..n];
      CountAcceptedSpec(init);
      AcceptedAtStep(trials);
      assert forall i :: 0 <= i < n ==> init[i] == trials[i];
    }
  }

  /** `worst` is the maximum of 0 and every time. */
  lemma {:induction false} WorstSpec(trials: seq<Trial>)
    ensures forall i :: 0 <= i < |trials| ==> trials[i].duration <= Worst(trials)
    ensures Worst(trials) == 0 || exists i :: 0 <= i < |trials| && Worst(trials) == trials[i].duration
  {
    if trials != [] {
      var n := |trials| - 1;
      var init := trials[..n];
      WorstSpec(init);
      assert forall i :: 0 <= i < n ==> init[i] == trials[i];
    }
  }

  /** Neither counter ever goes down from one iteration to a later one. */
  lemma {:induction false} TallyMonotone(trials: seq<Trial>, i: nat, j: nat)
    requires i <= j <= |trials|
    ensures Worst(trials[..i]) <= Worst(trials[..j])
    ensures CountAccepted(trials[..i]) <= CountAccepted(trials[..j])
    decreases j
  {
    if i < j {
      TallyMonotone(trials, i, j - 1);
      assert trials[..j][..j - 1] == trials[..j - 1];
    }
  }

  /** When every sample has its answer file, the tally holds one trial per
      sample, in order; `correct` is the number of Accepted ones and `worst`
      the largest time; the submit prompt comes exactly when every sample is
      Accepted, and submitting needs a yes as well. */
  lemma TallyFinished(samples: seq<string>, command: string, files: map<string, string>,
                      run: (string, string) -> RawRun, reply: string)
    ensures var o := Tally(samples, command, files, run, reply);
      o.Finished? ==>
        && Answered(samples, files)
        && |o.trials| == |samples|
        && (forall i :: 0 <= i < |samples| ==> o.trials[i] == TrialOf(samples[i], command, files, run))
        && o.correct == |AcceptedAt(o.trials)| <= |samples|
        && (forall i :: 0 <= i < |samples| ==> o.trials[i].duration <= o.worst)
        && (o.worst == 0 || exists i :: 0 <= i < |samples| && o.worst == o.trials[i].duration)
        && (o.offerSubmit <==> forall i :: 0 <= i < |samples| ==> o.trials[i].verdict == Accepted)
        && (o.submit <==> o.offerSubmit && IsYes(reply))
  {
    var k := FirstUnanswered(samples, files);
    if k == |samples| {
      assert samples[..k] == samples;
      var t := Trials(samples, command, files, run);
      CountAcceptedSpec(t);
      WorstSpec(t);
    }
  }

  /** Judge mode either stops early or finishes the tally of the discovered samples. */
  lemma JudgeFinished(listing: seq<string>, files: map<string, string>, lang: Selection.LanguageDef,
                      ctx: FileContext, beforeRunExit: int, run: (string, string) -> RawRun, reply: string)
    ensures var o := JudgeSpec(listing, files, lang, ctx, beforeRunExit, run, reply);
      o.Finished? ==> Samples(listing) != [] && o == Tally(Samples(listing), Interpolate(lang.runCommand, ctx), files, run, reply)
  {
  }

  /** With samples found and `before_run` passing, judge mode is the tally. */
  lemma JudgeTallies(listing: seq<string>, files: map<string, string>, lang: Selection.LanguageDef,
                     ctx: FileContext, beforeRunExit: int, run: (string, string) -> RawRun, reply: string)
    requires Samples(listing) != [] && (Interpolate(lang.beforeRun, ctx) == "" || beforeRunExit == 0)
    ensures JudgeSpec(listing, files, lang, ctx, beforeRunExit, run, reply)
         == Tally(Samples(listing), Interpolate(lang.runCommand, ctx), files, run, reply)
  {
  }

  /** Without a sample pair the script stops with "No indata found" (status 1)
      before `before_run` or any run: nothing else is consulted. */
  lemma NoTestDataBeforeAnyRun(listing: seq<string>, files: map<string, string>, lang: Selection.LanguageDef,
                               ctx: FileContext, beforeRunExit: int, run1: (string, string) -> RawRun,
                               run2: (string, string) -> RawRun, reply: string)
    ensures JudgeSpec(listing, files, lang, ctx, beforeRunExit, run1, reply) == NoTestData <==> Samples(listing) == []
    ensures Samples(listing) == [] ==> JudgeSpec(listing, map[], lang, ctx, 0, run2, "") == NoTestData
  {
  }

  /** A failing `before_run` stops the script before any sample runs. */
  lemma BeforeRunFailureBeforeAnyRun(listing: seq<string>, files: map<string, string>, lang: Selection.LanguageDef,
                                     ctx: FileContext, beforeRunExit: int, run: (string, string) -> RawRun, reply: string)
    requires Samples(listing) != [] && Interpolate(lang.beforeRun, ctx) != "" && beforeRunExit != 0
    ensures JudgeSpec(listing, files, lang, ctx, beforeRunExit, run, reply) == BeforeRunFailed(beforeRunExit)
  {
  }

  /** The run stops at the first sample whose answer file cannot be opened. */
  lemma JudgeAnswerMissing(listing: seq<string>, files: map<string, string>, lang: Selection.LanguageDef,
                           ctx: FileContext, beforeRunExit: int, run: (string, string) -> RawRun, reply: string)
    ensures var o := JudgeSpec(listing, files, lang, ctx, beforeRunExit, run, reply);
      var samples := Samples(listing);
      o.AnswerMissing? ==>
        exists k :: 0 <= k < |samples| && o.sample == samples[k] && o.answerFile == AnswerOpened(samples[k])
          && o.answerFile !in files && forall j :: 0 <= j < k ==> AnswerOpened(samples[j]) in files
  {
    var samples := Samples(listing);
    var k := FirstUnanswered(samples, files);
    assert forall j :: 0 <= j < k ==> samples[..k][j] == samples[j];
  }

  /** A solution that exits 0 and prints exactly the bytes of the answer
      file is Accepted, when every `\r` of the file starts a `\r\n`. */
  lemma EchoAccepted(raw: RawRun, contents: string)
    requires raw.exitCode == 0 && raw.stdout == contents && CrlfOnly(contents)
    ensures VerdictOn(raw, ReadText(contents)) == Accepted
  {
    ReadTextCrlf(contents);
    VerdictCases(raw, ReadText(contents));
  }

  lemma {:induction false} WithoutAbsent(s: string, c: char)
    requires c !in s
    ensures Without(s, c) == s
  {
    if s != [] {
      assert c !in s[1..];
      WithoutAbsent(s[1..], c);
    }
  }

  /** The listing `1.in`, `1.ans` holds the one sample `1.in`, read against `1.ans`. */
  lemma OnePairSamples()
    ensures Samples(["1.in", "1.ans"]) == ["1.in"] && AnswerOpened("1.in") == "1.ans"
  {
    var listing := ["1.in", "1.ans"];
    PlainSampleAnswer("1");
    assert "1" + ".in" == "1.in" && "1" + ".ans" == "1.ans";
    assert !EndsWith("1.ans", ".in");
    assert IsSample("1.in", listing);
    assert listing[..1] == ["1.in"];
    assert SamplesAmong([], listing) == [];
    assert SamplesAmong(listing[..1], listing) == ["1.in"];
  }

  /** One pair `1.in`/`1.ans` and a solution that prints the answer: 1 of 1 passed. */
  lemma OnePairAccepted(lang: Selection.LanguageDef, ctx: FileContext, beforeRunExit: int,
                        run: (string, string) -> RawRun, answerText: string, reply: string)
    requires Interpolate(lang.beforeRun, ctx) == "" || beforeRunExit == 0
    requires var raw := run(Interpolate(lang.runCommand, ctx), "1.in");
      raw.exitCode == 0 && raw.stdout == answerText && CrlfOnly(answerText)
    ensures var o := JudgeSpec(["1.in", "1.ans"], map["1.ans" := answerText], lang, ctx, beforeRunExit, run, reply);
      o.Finished? && o.correct == 1 && |o.trials| == 1 && o.offerSubmit
  {
    var files := map["1.ans" := answerText];
    var command := Interpolate(lang.runCommand, ctx);
    OnePairSamples();
    var samples := ["1.in"];
    JudgeTallies(["1.in", "1.ans"], files, lang, ctx, beforeRunExit, run, reply);
    EchoAccepted(run(command, "1.in"), answerText);
    FirstUnansweredAt(samples, files, 1);
    TallyFinished(samples, command, files, run, reply);
    assert TrialOf("1.in", command, files, run).verdict == Accepted;
  }

  /** `1.in` without `1.ans`: no test data. */
  lemma InputWithoutAnswerIsNoTestData(lang: Selection.LanguageDef, ctx: FileContext, beforeRunExit: int,
                                       run: (string, string) -> RawRun, reply: string)
    ensures JudgeSpec(["1.in"], map[], lang, ctx, beforeRunExit, run, reply) == NoTestData
  {
    var listing := ["1.in"];
    assert BeforeFirstDot("1.in") == "1";
    assert AnswerLookedFor("1.in") == "1.ans";
    assert "1.ans" !in listing;
    assert listing[..0] == [];
  }

}
