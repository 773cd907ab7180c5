/**
  `parse_variables` of kattis-tools.py: a language's command template is
  rewritten by six `str.replace` calls, one per `${...}` placeholder, in the
  order in which the replacement table lists them. The working directory,
  the problem id and the solution file's name, which the script takes from
  `os.getcwd()` and its globals, are an explicit `FileContext` here.
*/
module Interpolation {
  import opened Text

  datatype FileContext = FileContext(workingDir: string, problemId: string, problemFile: string)

  /** `os.path.join(a, b)` on POSIX: an absolute `b` replaces `a`, and a
      separator is added only when `a` is non-empty and does not end in one. */
  function PathJoin(a: string, b: string): string {
    if StartsWith(b, "/") then b
    else if a == [] || EndsWith(a, "/") then a + b
    else a + "/" + b
  }

  datatype Placeholder = FilePath | FilePathNoExtension | FileName | FileNameNoExtension | ProblemDir | WorkingDir

  /** The keys of the replacement table, in the table's (insertion) order. */
  const Order: seq<Placeholder> := [FilePath, FilePathNoExtension, FileName, FileNameNoExtension, ProblemDir, WorkingDir]

  function Index(p: Placeholder): (i: nat)
    ensures i < |Order| && Order[i] == p
  {
    match p
    case FilePath => 0
    case FilePathNoExtension => 1
    case FileName => 2
    case FileNameNoExtension => 3
    case ProblemDir => 4
    case WorkingDir => 5
  }

  function Name(p: Placeholder): string {
    match p
    case FilePath => "filePath"
    case FilePathNoExtension => "filePathNoExtension"
    case FileName => "fileName"
    case FileNameNoExtension => "fileNameNoExtension"
    case ProblemDir => "problemDir"
    case WorkingDir => "workingDir"
  }

  /** The token written in a template, such as `${fileName}`. */
  function Key(p: Placeholder): string {
    "${" + Name(p) + "}"
  }

  /** What the token stands for. */
  function Value(p: Placeholder, ctx: FileContext): string {
    match p
    case FilePath => PathJoin(PathJoin(ctx.workingDir, ctx.problemId), ctx.problemFile)
    case FilePathNoExtension => PathJoin(PathJoin(ctx.workingDir, ctx.problemId), BeforeLastDot(ctx.problemFile))
    case FileName => ctx.problemFile
    case FileNameNoExtension => BeforeLastDot(ctx.problemFile)
    case ProblemDir => PathJoin(ctx.workingDir, ctx.problemId)
    case WorkingDir => ctx.workingDir
  }

  /** The `replace` dictionary of `parse_variables`, as (token, value) pairs. */
  function Table(ctx: FileContext): (t: seq<(string, string)>)
    ensures |t| == |Order|
    ensures forall i :: 0 <= i < |t| ==> t[i] == (Key(Order[i]), Value(Order[i], ctx))
  {
    seq(|Order|, i requires 0 <= i < |Order| => (Key(Order[i]), Value(Order[i], ctx)))
  }

  /** The replacements of `table` applied one after the other, first entry first. */
  function ReplaceAll(s: string, table: seq<(string, string)>): string {
    if table == [] then s
    else Replace(ReplaceAll(s, table[..|table| - 1]), table[|table| - 1].0, table[|table| - 1].1)
  }

  function Interpolate(template: string, ctx: FileContext): string {
    ReplaceAll(template, Table(ctx))
  }

  /** `parse_variables`: one `str.replace` per table entry, rebinding the string each time. */
  method ParseVariables(template: string, ctx: FileContext) returns (r: string)
    ensures r == Interpolate(template, ctx)
  {
    var table := Table(ctx);
    r := template;
    for i := 0 to |table|
      invariant r == ReplaceAll(template, table[..i])
    {
      var (variable, value) := table[i];
      assert table[..i + 1][..i] == table[..i];
      r := Replace(r, variable, value);
    }
    assert table[..|table|] == table;
  }

  /** A template that holds none of the six tokens comes back unchanged,
      whatever the context. */
  lemma InterpolateWithoutPlaceholders(template: string, ctx: FileContext)
    requires forall p: Placeholder :: !Contains(template, Key(p))
    ensures Interpolate(template, ctx) == template
  {
    var table := Table(ctx);
    var k := 0;
    while k < |table|
      invariant 0 <= k <= |table|
      invariant ReplaceAll(template, table[..k]) == template
    {
      assert table[..k + 1][..k] == table[..k];
      assert table[k].0 == Key(Order[k]);
      ReplaceAbsent(template, table[k].0, table[k].1);
      k := k + 1;
    }
    assert table[..|table|] == table;
  }

  // ----- A template as a list of literal and placeholder segments -----

  /** The typed view of a template: literal text and placeholders. */
  datatype Segment = Lit(text: string) | Var(p: Placeholder)

  /** The template text a list of segments is written as. */
  function Flatten(segs: seq<Segment>): string {
    if segs == [] then []
    else (match segs[0] case Lit(t) => t case Var(p) => Key(p)) + Flatten(segs[1..])
  }

  /** Simultaneous substitution: every placeholder segment becomes its value. */
  function Render(segs: seq<Segment>, ctx: FileContext): string {
    if segs == [] then []
    else (match segs[0] case Lit(t) => t case Var(p) => Value(p, ctx)) + Render(segs[1..], ctx)
  }

  /** No literal segment holds a `$`, so no token can arise from literal text. */
  predicate PlainLiterals(segs: seq<Segment>) {
    forall i :: 0 <= i < |segs| && segs[i].Lit? ==> '$' !in segs[i].text
  }

  /** No part of the context holds a `$`. */
  predicate PlainContext(ctx: FileContext) {
    '$' !in ctx.workingDir && '$' !in ctx.problemId && '$' !in ctx.problemFile
  }

  /** The text after the first `k` table entries have been applied. */
  function Partial(segs: seq<Segment>, ctx: FileContext, k: nat): string {
    if segs == [] then []
    else
      (match segs[0]
       case Lit(t) => t
       case Var(p) => if Index(p) < k then Value(p, ctx) else Key(p))
      + Partial(segs[1..], ctx, k)
  }

  lemma {:induction false} PartialEnds(segs: seq<Segment>, ctx: FileContext)
    ensures Partial(segs, ctx, 0) == Flatten(segs)
    ensures Partial(segs, ctx, |Order|) == Render(segs, ctx)
  {
    if segs != [] {
      PartialEnds(segs[1..], ctx);
    }
  }

  lemma PathJoinPlain(a: string, b: string)
    requires '$' !in a && '$' !in b
    ensures '$' !in PathJoin(a, b)
  {
  }

  lemma PrefixPlain(s: string, r: string)
    requires StartsWith(s, r) && '$' !in s
    ensures '$' !in r
  {
    assert forall i :: 0 <= i < |r| ==> r[i] == s[i];
  }

  lemma ValuePlain(p: Placeholder, ctx: FileContext)
    requires PlainContext(ctx)
    ensures '$' !in Value(p, ctx)
  {
    PrefixPlain(ctx.problemFile, BeforeLastDot(ctx.problemFile));
    PathJoinPlain(ctx.workingDir, ctx.problemId);
  }

  /** Placeholder names are made of letters only. */
  lemma NameFacts(p: Placeholder)
    ensures |Name(p)| > 0 && '}' !in Name(p) && '$' !in Name(p)
  {
    match p
    case FilePath => Letters("filePath");
    case FilePathNoExtension => Letters("filePathNoExtension");
    case FileName => Letters("fileName");
    case FileNameNoExtension => Letters("fileNameNoExtension");
    case ProblemDir => Letters("problemDir");
    case WorkingDir => Letters("workingDir");
  }

  lemma Letters(n: string)
    requires forall i :: 0 <= i < |n| ==> 'A' <= n[i] <= 'Z' || 'a' <= n[i] <= 'z'
    ensures '}' !in n && '$' !in n
  {
  }

  /** A token is `$` and `{`, a name, and a `}` that nothing before it repeats. */
  lemma KeyFacts(p: Placeholder)
    ensures |Key(p)| >= 3 && Key(p)[0] == '$' && Key(p)[|Key(p)| - 1] == '}'
    ensures forall i :: 0 <= i < |Key(p)| - 1 ==> Key(p)[i] != '}'
    ensures '$' !in Key(p)[1..]
    ensures Key(p)[2..|Key(p)| - 1] == Name(p)
  {
    var n := Name(p);
    NameFacts(p);
    var k := "${" + n + "}";
    assert k == Key(p);
    assert forall i :: 2 <= i < |k| - 1 ==> k[i] == n[i - 2];
    assert k[1..] == "{" + n + "}";
  }

  lemma KeysDiffer(p: Placeholder, q: Placeholder)
    requires p != q
    ensures Key(p) != Key(q)
  {
    KeyFacts(p);
    KeyFacts(q);
  }

  /** A string shaped like a token: one `}` at the end and nowhere before it. */
  predicate TokenShaped(k: string) {
    |k| >= 3 && k[0] == '$' && k[|k| - 1] == '}' && '$' !in k[1..]
    && forall i :: 0 <= i < |k| - 1 ==> k[i] != '}'
  }

  lemma TokenNotPrefix(kp: string, kq: string, b: string)
    requires TokenShaped(kp) && TokenShaped(kq) && kp != kq
    ensures !StartsWith(kq + b, kp)
  {
    var m, n := |kp|, |kq|;
    var t := kq + b;
    assert m <= n ==> t[..m] == kq[..m] && kq[..m][m - 1] == kq[m - 1];
    assert m > n && m <= |t| ==> t[..m][..n] == kq && t[..m][n - 1] == kq[n - 1];
  }

  lemma ReplaceSkipsToken(kq: string, b: string, kp: string, val: string)
    requires TokenShaped(kp) && TokenShaped(kq) && kp != kq
    ensures Replace(kq + b, kp, val) == kq + Replace(b, kp, val)
  {
    TokenNotPrefix(kp, kq, b);
    ReplaceSkipsFirst(kq, b, kp, val);
  }

  lemma ReplaceSkipsFirst(a: string, b: string, pat: string, val: string)
    requires pat != [] && pat[0] == '$' && a != [] && '$' !in a[1..] && !StartsWith(a + b, pat)
    ensures Replace(a + b, pat, val) == a + Replace(b, pat, val)
  {
    ReplaceHeadOf(a, b, pat, val);
    ReplaceSkipsPlain(a[1..], b, pat, val);
    SeqCons(a, Replace(b, pat, val));
  }

  lemma ReplaceSkipsKey(q: Placeholder, b: string, p: Placeholder, val: string)
    requires p != q
    ensures Replace(Key(q) + b, Key(p), val) == Key(q) + Replace(b, Key(p), val)
  {
    KeyFacts(p);
    KeyFacts(q);
    KeysDiffer(p, q);
    ReplaceSkipsToken(Key(q), b, Key(p), val);
  }

  lemma PlainLiteralsTail(segs: seq<Segment>)
    requires segs != [] && PlainLiterals(segs)
    ensures PlainLiterals(segs[1..])
  {
    forall i | 0 <= i < |segs[1..]| && segs[1..][i].Lit? ensures '$' !in segs[1..][i].text {
      assert segs[1..][i] == segs[i + 1];
    }
  }

  /** Applying table entry `k` to the text after `k` entries gives the text after `k + 1`. */
  lemma {:induction false} PartialStep(segs: seq<Segment>, ctx: FileContext, k: nat)
    requires k < |Order| && PlainLiterals(segs) && PlainContext(ctx)
    ensures Replace(Partial(segs, ctx, k), Key(Order[k]), Value(Order[k], ctx)) == Partial(segs, ctx, k + 1)
  {
    if segs != [] {
      var pk, vk := Key(Order[k]), Value(Order[k], ctx);
      var rest := Partial(segs[1..], ctx, k);
      PlainLiteralsTail(segs);
      PartialStep(segs[1..], ctx, k);
      match segs[0]
      case Lit(t) =>
        assert '$' !in t by { assert segs[0].Lit?; }
        ReplaceSkipsPlain(t, rest, pk, vk);
      case Var(q) =>
        if Index(q) < k {
          ValuePlain(q, ctx);
          ReplaceSkipsPlain(Value(q, ctx), rest, pk, vk);
        } else if Index(q) == k {
          KeyFacts(q);
          ReplaceAtStart(Key(q), rest, vk);
        } else {
          ReplaceSkipsKey(q, rest, Order[k], vk);
        }
    }
  }

  /** When neither the literal text nor the context holds a `$`, the
      sequential replacements of `parse_variables` agree with substituting
      every placeholder at once. */
  lemma InterpolateRenders(segs: seq<Segment>, ctx: FileContext)
    requires PlainLiterals(segs) && PlainContext(ctx)
    ensures Interpolate(Flatten(segs), ctx) == Render(segs, ctx)
  {
    var table := Table(ctx);
    PartialEnds(segs, ctx);
    var k := 0;
    while k < |table|
      invariant 0 <= k <= |table|
      invariant ReplaceAll(Flatten(segs), table[..k]) == Partial(segs, ctx, k)
    {
      assert table[..k + 1][..k] == table[..k];
      PartialStep(segs, ctx, k);
      k := k + 1;
    }
    assert table[..|table|] == table;
  }

  lemma {:induction false} RenderPlain(segs: seq<Segment>, ctx: FileContext)
    requires PlainLiterals(segs) && PlainContext(ctx)
    ensures '$' !in Render(segs, ctx)
  {
    if segs != [] {
      PlainLiteralsTail(segs);
      RenderPlain(segs[1..], ctx);
      if segs[0].Var? { ValuePlain(segs[0].p, ctx); }
    }
  }

  /** Under the same conditions no placeholder token is left in the command. */
  lemma InterpolateLeavesNoToken(segs: seq<Segment>, ctx: FileContext)
    requires PlainLiterals(segs) && PlainContext(ctx)
    ensures '$' !in Interpolate(Flatten(segs), ctx)
  {
    InterpolateRenders(segs, ctx);
    RenderPlain(segs, ctx);
  }

  /** A template that is one token becomes that token's value. */
  lemma InterpolateToken(p: Placeholder, ctx: FileContext)
    requires PlainContext(ctx)
    ensures Interpolate(Key(p), ctx) == Value(p, ctx)
  {
    var segs := [Var(p)];
    assert segs[1..] == [];
    assert Flatten(segs) == Key(p) + [] == Key(p);
    assert Render(segs, ctx) == Value(p, ctx) + [] == Value(p, ctx);
    assert PlainLiterals(segs);
    InterpolateRenders(segs, ctx);
  }

  /** `${fileName}` becomes the file name. */
  lemma FileNameExpands(ctx: FileContext)
    requires PlainContext(ctx)
    ensures Interpolate("${fileName}", ctx) == ctx.problemFile
  {
    assert Key(FileName) == "${fileName}";
    InterpolateToken(FileName, ctx);
  }

  /** `${fileNameNoExtension}` becomes the file name without its last dot and
      what follows it, or the whole name when it has no dot. */
  lemma FileNameNoExtensionExpands(ctx: FileContext)
    requires PlainContext(ctx)
    ensures var r := Interpolate("${fileNameNoExtension}", ctx);
      if '.' in ctx.problemFile then
        |r| < |ctx.problemFile| && ctx.problemFile == r + "." + ctx.problemFile[|r| + 1..]
        && '.' !in ctx.problemFile[|r| + 1..]
      else r == ctx.problemFile
  {
    assert Key(FileNameNoExtension) == "${fileNameNoExtension}";
    InterpolateToken(FileNameNoExtension, ctx);
    var f := ctx.problemFile;
    var r := BeforeLastDot(f);
    if '.' in f {
      assert f == f[..|r|] + [f[|r|]] + f[|r| + 1..];
    }
  }

  /** `${problemDir}` becomes the working directory, a `/` and the problem id,
      for a working directory as `os.getcwd()` reports it (absolute, not the
      root) and a problem id that is a relative name. */
  lemma ProblemDirExpands(ctx: FileContext)
    requires PlainContext(ctx)
    requires ctx.workingDir != [] && !EndsWith(ctx.workingDir, "/") && !StartsWith(ctx.problemId, "/")
    ensures Interpolate("${problemDir}", ctx) == ctx.workingDir + "/" + ctx.problemId
  {
    assert Key(ProblemDir) == "${problemDir}";
    InterpolateToken(ProblemDir, ctx);
  }

}
