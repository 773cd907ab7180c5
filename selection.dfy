/**
  The two lookups kattis-tools.py makes before running anything: the active
  language, the first definition whose short names hold the alias given with
  `-l` (the comprehension at line 139), and the solution file,
  `find_problem_file`: the first file of the problem directory that ends in
  one of the language's extensions.
*/
module Selection {
  import opened Wrappers
  import opened Text

  /** One language document of the configuration folder. A document without
      a `short_names` entry reads as an empty list, as `values.get` gives. */
  datatype LanguageDef = LanguageDef(
    name: string,
    shortNames: seq<string>,
    extensions: seq<string>,
    beforeRun: string,
    runCommand: string)

  /** `config["languages"]`, keys with their definitions in dictionary order. */
  type Languages = seq<(string, LanguageDef)>

  predicate Knows(def: LanguageDef, alias: string) {
    alias in def.shortNames
  }

  /** The key of the first definition that knows `alias`; `None` where the
      source's `[...][0]` raises `IndexError` (a remembered default alias
      that no definition lists any more passes argparse unchecked). */
  function SelectLanguage(langs: Languages, alias: string): (r: Option<string>)
    ensures r.None? <==> forall i :: 0 <= i < |langs| ==> !Knows(langs[i].1, alias)
    ensures r.Some? ==> exists i :: (0 <= i < |langs| && langs[i].0 == r.value && Knows(langs[i].1, alias)
                                     && forall j :: 0 <= j < i ==> !Knows(langs[j].1, alias))
  {
    if langs == [] then None
    else if Knows(langs[0].1, alias) then Some(langs[0].0)
    else
      var r := SelectLanguage(langs[1..], alias);
      assert forall i :: 1 <= i < |langs| ==> langs[i] == langs[1..][i - 1];
      r
  }

  /** An alias that exactly one definition knows selects that definition. */
  lemma SelectUniqueAlias(langs: Languages, alias: string, k: nat)
    requires k < |langs| && Knows(langs[k].1, alias)
    requires forall j :: 0 <= j < |langs| && j != k ==> !Knows(langs[j].1, alias)
    ensures SelectLanguage(langs, alias) == Some(langs[k].0)
  {
  }

  predicate HasExtension(file: string, extensions: seq<string>) {
    exists e :: e in extensions && EndsWith(file, e)
  }

  /** `find_problem_file`: for each listed file in turn, each extension in
      turn; the first hit is returned. `None` is the "could not be found"
      message followed by `exit(1)`. */
  method FindProblemFile(files: seq<string>, extensions: seq<string>) returns (r: Option<string>)
    ensures r.None? <==> forall i :: 0 <= i < |files| ==> !HasExtension(files[i], extensions)
    ensures r.Some? ==> exists i :: (0 <= i < |files| && files[i] == r.value && HasExtension(files[i], extensions)
                                     && forall j :: 0 <= j < i ==> !HasExtension(files[j], extensions))
  {
    for i := 0 to |files|
      invariant forall j :: 0 <= j < i ==> !HasExtension(files[j], extensions)
    {
      var file := files[i];
      for k := 0 to |extensions|
        invariant forall m :: 0 <= m < k ==> !EndsWith(file, extensions[m])
      {
        if EndsWith(file, extensions[k]) {
          return Some(file);
        }
      }
    }
    return None;
  }

}
