# kattis-tools: judge core in Dafny

kattis-tools.py is a command-line helper for Kattis problems. It finds a
problem's solution file, picks the language by an alias, expands the
language's command templates, and judges the solution against the
`<name>.in` / `<name>.ans` sample pairs of the problem directory. Before a
first submission it also captures the user's pasted username and token.

This project models that logic. Everything the script takes from the
outside world is an explicit input:

- the directory listing is a `seq<string>`;
- the readable files are a `map` from file name to the file's decoded contents, before newline translation;
- a launched command is a function from (command line, input file) to its
  duration as a natural number, its standard output, its exit code and its
  standard error;
- the exit code of `before_run`;
- the reply to the submit prompt;
- the lines `input()` would return.

The modules follow the parts of the script:

- `Text`: `strip_whitespace`, `str.replace`, `split(".")[0]` and
  `rsplit(".", 1)[0]`.
- `Interpolation`: `parse_variables` and its six `${...}` placeholders.
- `Selection`: the language lookup of line 139 and `find_problem_file`.
- `Judge`:
  - the captured-output normalisation of `run_problem`;
  - sample discovery;
  - the verdict;
  - the judge loop with its `correct` and `worst` counters;
  - the submit-prompt decision.
- `Credentials`: the six-line capture loop of submit mode.
- `Wrappers`: `Option`.

Each loop of the script is a method with invariants:

- `ParseVariables`
- `FindProblemFile`
- `DiscoverSamples`
- `JudgeSamples`
- `CaptureCredentials`

`FindProblemFile` states its result directly in its `ensures`. Each of the
other four is proved equal to a specification function, and lemmas state what
that function means.

Where the script and a plain description of the tool differ, the model
follows the script:

- When `before_run` fails, lines 81-84 call `exit()` with no argument, so
  the status is 0, not a failure status. The model's outcome is
  `BeforeRunFailed(code)`.
- Discovery (line 168) looks for `file.split(".")[0] + ".ans"`, but
  line 184 opens `sample.replace(".in", ".ans")`. These names differ for a
  sample with a second dot: `a.b.in` is accepted because `a.ans` is listed,
  and then `a.b.ans` is opened. The model carries both names and an
  `AnswerMissing` outcome for the failing `open`.
  `Judge.AnswerLookedForIsNotAnswerOpened` exhibits this case.
- An alias that no language lists makes the comprehension at line 139
  raise `IndexError`. A remembered default alias can get there because
  argparse does not check defaults against `choices`. `SelectLanguage`
  returns `None` in this case.
- `os.path.join` is modelled as POSIX `posixpath.join`, not as plain
  concatenation with `/`:
  - an absolute second part replaces the first;
  - no separator is added after a trailing `/`.

  `ProblemDirExpands` states the plain `cwd + "/" + id` form under the
  conditions where the two agree.
- `input()` at the end of its input raises `EOFError`. The capture loop's
  outcome is then `EndOfInput`.
- Standard output and the answer file treat carriage returns differently.
  Line 98 deletes every `\r` from standard output. Line 184 reads the answer
  file in text mode, where universal newlines turn `\r\n` and a lone `\r`
  into `\n`. The two agree on files whose every `\r` starts a `\r\n`
  (`Judge.ReadTextCrlf`). A lone `\r` inside the answer does not agree:
  echoing the file gives Wrong Answer (`Judge.LoneCarriageReturnIsWrongAnswer`).

## Model

| member | source | states |
|---|---|---|
| Text.TrimStartSpec | kattis-tools.py:45 | removing `^\s*` leaves a suffix of the input, everything removed is whitespace, and the result does not start with whitespace |
| Text.TrimEndSpec | kattis-tools.py:46 | removing `\s*$` leaves a prefix of the input, everything removed is whitespace, and the result does not end with whitespace |
| Text.StripWhitespaceSpec | kattis-tools.py:43-47 | `strip_whitespace` returns a contiguous piece `s[i..j]` with only whitespace outside it and no whitespace at either of its ends |
| Text.StrippedUnique | kattis-tools.py:43-47 | that characterisation has only one solution, so it determines `strip_whitespace` completely |
| Text.StripIdempotent | kattis-tools.py:43-47 | stripping a stripped string changes nothing |
| Text.StripEmptyIff | kattis-tools.py:43-47 | the result is `""` exactly when the input is all whitespace |
| Text.StripIgnoresSurroundingSpace | kattis-tools.py:43-47 | whitespace added before and after the input does not change the result |
| Text.ReplaceAbsent | kattis-tools.py:71 | `str.replace` of a non-empty pattern that does not occur returns the string unchanged |
| Text.ReplaceAtStart | kattis-tools.py:71 | the defining step of `str.replace` for a leading occurrence, stated as a lemma for the interpolation and reading proofs: the value takes the place of the occurrence and replacement goes on after it |
| Text.ReplaceSkipsPlain | kattis-tools.py:71 | text that lacks the pattern's first character is copied through by `str.replace` unchanged |
| Text.ReplaceCharByNothing | kattis-tools.py:98 | `replace("\r", "")` is the input with every `\r` taken out |
| Text.BeforeFirstDot | kattis-tools.py:168 | `split(".")[0]` is a dot-free prefix of the name, either the whole name or the part before its first dot |
| Text.BeforeLastDot | kattis-tools.py:63-65 | `rsplit(".", 1)[0]` is a prefix of the name; it is the whole name exactly when there is no dot, and otherwise it is followed by a dot with no further dot after it |
| Interpolation.ParseVariables | kattis-tools.py:59-73 | the loop of six sequential replacements, in table order, computes `Interpolate` |
| Interpolation.InterpolateWithoutPlaceholders | kattis-tools.py:59-73 | a template that holds none of the six tokens is returned unchanged, whatever the context |
| Interpolation.InterpolateRenders | kattis-tools.py:59-73 | when neither the template's literal text nor the context holds a `$`, the sequential replacements give the same string as substituting every placeholder segment at once |
| Interpolation.InterpolateLeavesNoToken | kattis-tools.py:59-73 | under the same conditions the resolved command holds no `$`, so no placeholder token is left |
| Interpolation.InterpolateToken | kattis-tools.py:61-68 | when no context field (working directory, problem id, file name) holds a `$`, a template that is one token becomes that token's `Value`, the text lines 62-67 give it using `PathJoin` (POSIX `os.path.join`) |
| Interpolation.FileNameExpands | kattis-tools.py:64 | when no context field holds a `$`, `${fileName}` becomes the solution file's name |
| Interpolation.FileNameNoExtensionExpands | kattis-tools.py:65 | when no context field holds a `$`, `${fileNameNoExtension}` becomes the name before its last dot, and the whole name when it has no dot |
| Interpolation.ProblemDirExpands | kattis-tools.py:66 | when no context field holds a `$`, `${problemDir}` becomes the working directory, `/` and the problem id; this needs a non-empty working directory that does not end in `/` (as `os.getcwd()` reports any directory but the root) and a problem id that does not start with `/` |
| Selection.SelectLanguage | kattis-tools.py:139 | `None` exactly when no definition lists the alias; otherwise the key of the first definition in dictionary order that does |
| Selection.SelectUniqueAlias | kattis-tools.py:139 | an alias that exactly one definition lists selects that definition |
| Selection.FindProblemFile | kattis-tools.py:49-57 | `None` (the exit with status 1) exactly when no listed file ends with one of the extensions; otherwise the first listed file that does |
| Judge.NormalizeOutputSpec | kattis-tools.py:98-99 | captured stdout normalises to `strip_whitespace` of the text with every `\r` removed; the result has no `\r` and no whitespace at either end |
| Judge.NormalizeIgnoresSurroundingSpace | kattis-tools.py:98-99 | whitespace and carriage returns printed around the output do not change it |
| Judge.VerdictCases | kattis-tools.py:184-196 | the verdict `Classify` gives: Runtime Error exactly on a nonzero exit code, whatever was printed; Accepted exactly on exit 0 with the normalised output equal to the stripped answer; otherwise Wrong Answer carrying both texts |
| Judge.VerdictIgnoresSurroundingSpace | kattis-tools.py:184-196 | whitespace around the output or around the answer file's text never changes the verdict |
| Judge.EchoAccepted | kattis-tools.py:184-196 | a run that exits 0 and prints exactly the answer file's contents is Accepted when every `\r` of the file starts a `\r\n` |
| Judge.ReadText | kattis-tools.py:184 | text-mode `read()` of the answer file leaves no `\r` |
| Judge.ReadTextByReplace | kattis-tools.py:184 | for every file, text-mode reading equals replacing `\r\n` by `\n` and then every remaining `\r` by `\n`, so a lone `\r` becomes a line break rather than disappearing |
| Judge.ReadTextCrlf | kattis-tools.py:184 | when every `\r` starts a `\r\n`, text-mode reading equals taking out every `\r`, which is what line 98 does to standard output |
| Judge.ReadTextPlain | kattis-tools.py:184 | a file without `\r` is read unchanged |
| Judge.LoneCarriageReturnIsWrongAnswer | kattis-tools.py:184-196 | the file `a\rb` echoed by the solution gives Wrong Answer: the output normalises to `ab`, the answer reads as `a\nb` |
| Judge.DiscoverSamples | kattis-tools.py:165-169 | the appending loop computes `Samples(listing)` |
| Judge.SamplesSpec | kattis-tools.py:165-169 | the samples are exactly the listed files that end in `.in` and whose `AnswerLookedFor` name (text up to the first dot, plus `.ans`) is listed; they are a subsequence of the listing, so listing order is kept |
| Judge.PlainSampleAnswer | kattis-tools.py:168-184 | for `base.in` with a dot-free `base`, the answer discovery looks for (`AnswerLookedFor`, line 168) and the answer that is opened (`AnswerOpened`, line 184) are both `base.ans` |
| Judge.AnswerLookedForIsNotAnswerOpened | kattis-tools.py:168-184 | with the listing `a.b.in`, `a.ans`, the sample is `a.b.in` but the file opened is `a.b.ans`, which is not listed |
| Judge.JudgeSample | kattis-tools.py:182-196 | one pass of the loop body gives no trial exactly when the answer file cannot be opened, and otherwise the sample's verdict and duration |
| Judge.JudgeSamples | kattis-tools.py:178-204 | the judge loop with its `correct` and `worst` counters and the prompt decision computes `Tally` |
| Judge.RunJudge | kattis-tools.py:164-204 | judge mode (discovery, `before_run`, the loop) computes `JudgeSpec` |
| Judge.CountAcceptedSpec | kattis-tools.py:190-192 | `correct` is the number of Accepted trials, at most the number of trials, and equal to it exactly when every trial is Accepted |
| Judge.WorstSpec | kattis-tools.py:179-198 | `worst` bounds every duration and is 0 or one of them, so it is the maximum of 0 and all durations |
| Judge.TallyMonotone | kattis-tools.py:181-198 | neither `correct` nor `worst` goes down from one iteration to a later one |
| Judge.TallyFinished | kattis-tools.py:178-204 | a finished tally has one trial per sample in order, `correct` at most the number of samples, `worst` the maximum duration, the prompt exactly when every sample is Accepted, and a submit exactly when the prompt is answered `y` or `Y` (`IsYes`, line 203) |
| Judge.JudgeFinished | kattis-tools.py:164-204 | judge mode finishes only with samples found, and is then the tally of the discovered samples under the interpolated run command |
| Judge.JudgeTallies | kattis-tools.py:171-204 | when samples exist and `before_run` is empty or exits 0, judge mode is the tally |
| Judge.NoTestDataBeforeAnyRun | kattis-tools.py:165-173 | the "no indata" exit happens exactly when discovery finds nothing, whatever the files, `before_run` outcome, run function and reply |
| Judge.BeforeRunFailureBeforeAnyRun | kattis-tools.py:75-84 | a non-empty `before_run` that exits nonzero stops judge mode before any sample runs |
| Judge.JudgeAnswerMissing | kattis-tools.py:184 | the loop stops at the first sample whose opened answer file is not present, and every earlier one has its file |
| Judge.OnePairAccepted | kattis-tools.py:164-204 | with `1.in` and `1.ans` and a solution that prints the answer file's contents (every `\r` in a `\r\n`), the result is 1 of 1 passed and the submit prompt |
| Judge.InputWithoutAnswerIsNoTestData | kattis-tools.py:165-173 | `1.in` without `1.ans` gives the "no indata" exit |
| Credentials.MatchLineSound | kattis-tools.py:267 | a match of `^prefix(.*)$` gives a group without line breaks that, after the prefix, makes up the line, with at most one final `\n` beyond it |
| Credentials.MatchLineComplete | kattis-tools.py:267 | every line of that shape matches, with exactly that group |
| Credentials.CaptureCredentials | kattis-tools.py:263-281 | the six-iteration loop with its two `continue`s, `break` and `for ... else` computes `CaptureAll`; each line is classified by `Kind`, with the username pattern (line 267) tried before the token pattern (line 272) |
| Credentials.LastIsLatest | kattis-tools.py:265-276 | the value held for a field is the one set by the last line that sets it, and `""` when no line does |
| Credentials.CaptureSpec | kattis-tools.py:263-281 | capture succeeds exactly when one of the first six lines is neither pattern and comes while both values are non-empty. It then consumes at most six lines, up to the first such one, and keeps the latest username and token. End of input happens exactly when fewer than six lines exist and none stops; otherwise the else branch is taken |
| Credentials.SixSettingLinesFail | kattis-tools.py:263-281 | six lines that all set a value make the capture fail, even though both values were seen |
| Credentials.RepeatedPasteFails | kattis-tools.py:263-281 | the two credential lines pasted three times over make the capture fail |
| Credentials.PasteThenEnterCaptures | kattis-tools.py:263-281 | the two credential lines followed by an empty line are captured after three lines |

## Left out

- Configuration loading and saving (lines 21-41) and the argparse setup (lines 105-138) are file I/O and library behaviour. The selected language definition and the file context are inputs to the model.
- Process launch, the shell and timing in `before_run_problem` and `run_problem` (lines 75-101) are outside the model:
  - a run is a deterministic function of the command line and the sample file;
  - its duration is a natural number, not a float;
  - `decode()` is taken as already done, so stdout is a string;
  - `p.wait()` (line 93) comes before `p.communicate()` (line 96), so a solution whose output fills the pipe buffer blocks forever. The model does not capture this.
- Run mode (lines 151-162) and the direct-stdio branch of `run_problem` (lines 89-90 and 101) are not modelled. That branch returns no captured output and has no logic of its own.
- Two top-level steps are not modelled: the check that the problem directory exists (lines 141-143), and saving the remembered choices (lines 147-149). The call to `find_problem_file` at line 145 is `Selection.FindProblemFile`.
- Reading the answer file decodes it with the locale encoding. The model starts from the decoded text. `ReadText` models only the newline translation.
- Start mode (lines 206-239) is network, filesystem and zip-library work. Its URL regular expression (line 211) is not modelled either.
- Submission (lines 243-262 and 283-345) is network, browser and HTML-scraping work. The 403 branch deletes the credential in memory (line 300), then calls `update_config` (line 301), which writes the main configuration and not the credentials file. That is noted here but not modelled.
- Every `print` and the text it shows are left out. Outcomes are datatype values.
- `input()` calls become parameters: the submit reply (line 203) and the pasted lines (line 266).
- The Python 2 compatibility shims (lines 13-16) are left out.
- The order of `os.listdir` is taken as given: the listing is an input sequence.
- The whitespace set of `\s` is the set of characters for which `str.isspace` holds. It is written out as code points.
