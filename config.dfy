/** The scoped Lunaria configuration and its file-rule matcher (src/config.ts). */
module Config {
  import opened Js

  /** One entry of the configuration's `files` list. */
  datatype FileRule = FileRule(location: string, ignore: Option<seq<string>>, pattern: string)

  /** Glob matching (`micromatch.isMatch(name, glob)`) belongs to a foreign library;
      the model takes it as a parameter and assumes nothing about it. */
  type Matcher = (string, string) -> bool

  /** The directory every rule excludes, whatever its own `ignore` says. */
  const DependencyDir := "node_modules"

  /** `file.ignore || []`. */
  function IgnoreOrEmpty(rule: FileRule): seq<string>
  {
    match rule.ignore
    case None => []
    case Some(patterns) => patterns
  }

  /** The exclusion list a rule is checked against. */
  function Exclusions(rule: FileRule): (ex: seq<string>)
    ensures |ex| > 0 && ex[0] == DependencyDir
    ensures ex[1..] == IgnoreOrEmpty(rule)
  {
    [DependencyDir] + IgnoreOrEmpty(rule)
  }

  /** The meaning of "a rule tracks a file": its location matches and none of
      its exclusions does. */
  predicate Tracks(isMatch: Matcher, filename: string, rule: FileRule)
  {
    && isMatch(filename, rule.location)
    && !isMatch(filename, DependencyDir)
    && forall k :: 0 <= k < |IgnoreOrEmpty(rule)| ==> !isMatch(filename, IgnoreOrEmpty(rule)[k])
  }

  /** `findFileConfig` of src/config.ts, written as the `find`/`every` expression it is. */
  function FindFileConfig(isMatch: Matcher, filename: string, files: seq<FileRule>): (r: Option<FileRule>)
    ensures r.Some? ==> r.value in files && Tracks(isMatch, filename, r.value)
  {
    var r := Find(files, (file: FileRule) =>
      isMatch(filename, file.location) &&
      Every(Exclusions(file), (ignored: string) => !isMatch(filename, ignored)));
    if r.Some? then
      FindPredicateIsTracks(isMatch, filename, r.value);
      r
    else r
  }

  /** The predicate handed to `find` is exactly `Tracks`. */
  lemma FindPredicateIsTracks(isMatch: Matcher, filename: string, file: FileRule)
    ensures (isMatch(filename, file.location) &&
             Every(Exclusions(file), (ignored: string) => !isMatch(filename, ignored)))
            <==> Tracks(isMatch, filename, file)
  {
    var ex := Exclusions(file);
    if Every(ex, (ignored: string) => !isMatch(filename, ignored)) {
      forall k | 0 <= k < |IgnoreOrEmpty(file)| ensures !isMatch(filename, IgnoreOrEmpty(file)[k]) {
        assert ex[k + 1] == IgnoreOrEmpty(file)[k];
      }
    }
    if Tracks(isMatch, filename, file) {
      forall j | 0 <= j < |ex| ensures !isMatch(filename, ex[j]) {
        if j > 0 { assert ex[j] == IgnoreOrEmpty(file)[j - 1]; }
      }
    }
  }

  /** The result is the first rule in list order that tracks the file, or none
      when no rule does. */
  lemma FindFileConfigFirst(isMatch: Matcher, filename: string, files: seq<FileRule>)
    ensures FindFileConfig(isMatch, filename, files).None? <==>
      forall i :: 0 <= i < |files| ==> !Tracks(isMatch, filename, files[i])
    ensures FindFileConfig(isMatch, filename, files).Some? ==>
      exists i :: 0 <= i < |files| && files[i] == FindFileConfig(isMatch, filename, files).value &&
        Tracks(isMatch, filename, files[i]) &&
        forall j :: 0 <= j < i ==> !Tracks(isMatch, filename, files[j])
  {
    var p := (file: FileRule) =>
      isMatch(filename, file.location) &&
      Every(Exclusions(file), (ignored: string) => !isMatch(filename, ignored));
    forall i | 0 <= i < |files| ensures p(files[i]) == Tracks(isMatch, filename, files[i]) {
      FindPredicateIsTracks(isMatch, filename, files[i]);
    }
    match FindIndex(files, p)
    case None =>
    case Some(i) =>
      assert files[i] == FindFileConfig(isMatch, filename, files).value;
  }

  /** `node_modules` is excluded by every rule, even one whose `ignore` is
      undefined or empty. */
  lemma DependencyDirAlwaysExcluded(isMatch: Matcher, filename: string, files: seq<FileRule>)
    requires isMatch(filename, DependencyDir)
    ensures FindFileConfig(isMatch, filename, files) == None
  {
    FindFileConfigFirst(isMatch, filename, files);
  }

  /** Rules after the first one that tracks the file are never looked at. */
  lemma LaterRulesIrrelevant(isMatch: Matcher, filename: string, files: seq<FileRule>, more: seq<FileRule>)
    requires FindFileConfig(isMatch, filename, files).Some?
    ensures FindFileConfig(isMatch, filename, files + more) == FindFileConfig(isMatch, filename, files)
  {
    var p := (file: FileRule) =>
      isMatch(filename, file.location) &&
      Every(Exclusions(file), (ignored: string) => !isMatch(filename, ignored));
    FindIndexPrefix(files, more, p);
    var k := FindIndex(files, p).value;
    assert (files + more)[k] == files[k];
  }
}
