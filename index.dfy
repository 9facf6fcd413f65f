/** The action's entry point and its per-file logic (src/index.ts): which
    changed files are tracked, how each is classified and shown, which overview
    the title selects, and the gates that decide whether a comment is posted. */
module Action {
  import opened Js
  import opened Config
  import Comment

  // ---------------------------------------------------------------------------
  // Inputs
  // ---------------------------------------------------------------------------

  /** The part of the Lunaria configuration this code reads. `locales` and the
      rules' path templates are only read by the path resolver. */
  datatype LunariaConfig = LunariaConfig(
    defaultLang: string,
    files: seq<FileRule>,
    rootDir: string,
    ignoreKeywords: seq<string>,
    basesToHide: Option<seq<string>>)

  /** A file's change kind as the pull-request file listing reports it. */
  datatype ChangeKind = Added | Removed | Modified | Renamed | Copied | Changed | Unchanged

  /** The status string the hosting platform sends for each kind. */
  function KindName(k: ChangeKind): string
  {
    match k
    case Added => "added"
    case Removed => "removed"
    case Modified => "modified"
    case Renamed => "renamed"
    case Copied => "copied"
    case Changed => "changed"
    case Unchanged => "unchanged"
  }

  /** One entry of the pull request's changed-file listing. */
  datatype ChangedFile = ChangedFile(filename: string, status: ChangeKind, blobUrl: string)

  /** One entry of the status the Lunaria engine computed; `lastMajorChange` is
      `None` when the entry has no usable source date (an invalid date never
      compares greater). Timestamps are integers. */
  datatype StatusEntry = StatusEntry(sharedPath: string, lastMajorChange: Option<int>)

  /** The fetched pull request: its title and creation time. */
  datatype PullRequest = PullRequest(title: string, createdAt: int)

  /** What the path-template resolver extracts from a file name: the `lang`
      parameter, if any, and the locale-independent shared path. */
  datatype PathInfo = PathInfo(lang: Option<string>, sharedPath: string)

  /** `getPathResolver(pattern, defaultLocale, locales)` applied to a file name
      belongs to the Lunaria engine; the model takes it as a parameter. */
  type Resolver = (string, string) -> PathInfo

  /** `markdownTable` is a foreign renderer; the model takes it as a parameter. */
  type Renderer = seq<seq<string>> -> string

  // ---------------------------------------------------------------------------
  // Which files are tracked
  // ---------------------------------------------------------------------------

  /** `findFileConfig` of src/index.ts: the first rule in list order that tracks
      the file. */
  function FindFileConfig(isMatch: Matcher, filename: string, files: seq<FileRule>): (r: Option<FileRule>)
    ensures r.None? <==> forall i :: 0 <= i < |files| ==> !Tracks(isMatch, filename, files[i])
    ensures r.Some? ==> exists i :: (0 <= i < |files| && files[i] == r.value &&
      Tracks(isMatch, filename, files[i]) &&
      forall j :: 0 <= j < i ==> !Tracks(isMatch, filename, files[j]))
  {
    if files == [] then None
    else if Tracks(isMatch, filename, files[0]) then
      // names the witness `i := 0` for the existential in the ensures
      assert files[0] == files[0];
      Some(files[0])
    else
      var r := FindFileConfig(isMatch, filename, files[1..]);
      assert r.Some? ==> exists i :: (0 <= i < |files| && files[i] == r.value &&
        Tracks(isMatch, filename, files[i]) &&
        forall j :: 0 <= j < i ==> !Tracks(isMatch, filename, files[j])) by {
        if r.Some? {
          var i :| 0 <= i < |files[1..]| && files[1..][i] == r.value &&
            Tracks(isMatch, filename, files[1..][i]) &&
            forall j :: 0 <= j < i ==> !Tracks(isMatch, filename, files[1..][j]);
          assert files[i + 1] == files[1..][i];
          forall j | 0 <= j < i + 1 ensures !Tracks(isMatch, filename, files[j]) {
            if j > 0 { assert files[j] == files[1..][j - 1]; }
          }
        }
      }
      assert r.None? ==> forall i :: 0 <= i < |files| ==> !Tracks(isMatch, filename, files[i]) by {
        if r.None? {
          forall i | 0 < i < |files| ensures !Tracks(isMatch, filename, files[i]) {
            assert files[i] == files[1..][i - 1];
          }
        }
      }
      r
  }

  /** The two copies of `findFileConfig` (src/index.ts and src/config.ts) agree
      on every input. */
  lemma FindFileConfigAgrees(isMatch: Matcher, filename: string, files: seq<FileRule>)
    ensures FindFileConfig(isMatch, filename, files) == Config.FindFileConfig(isMatch, filename, files)
  {
    FindFileConfigFirst(isMatch, filename, files);
    var a := FindFileConfig(isMatch, filename, files);
    var b := Config.FindFileConfig(isMatch, filename, files);
    if a.Some? && b.Some? {
      var i :| 0 <= i < |files| && files[i] == a.value && Tracks(isMatch, filename, files[i]) &&
        forall j :: 0 <= j < i ==> !Tracks(isMatch, filename, files[j]);
      var i' :| 0 <= i' < |files| && files[i'] == b.value && Tracks(isMatch, filename, files[i']) &&
        forall j :: 0 <= j < i' ==> !Tracks(isMatch, filename, files[j]);
      assert !(i < i') && !(i' < i);
    }
  }

  /** `unrootFilename`: strips the repository root directory from a file name. */
  function UnrootFilename(root: string, filename: string): (r: string)
    ensures root == "." ==> r == filename
    ensures root != "." && StartsWith(filename, root + "/") ==> root + "/" + r == filename
    ensures root != "." && !StartsWith(filename, root + "/") ==> r == filename
  {
    if root == "." then filename
    else
      var rootDir := root + "/";
      if StartsWith(filename, rootDir) then
        ReplacePrefix(filename, rootDir);
        assert rootDir + filename[|rootDir|..] == filename;
        Replace(filename, rootDir, "")
      else filename
  }

  /** Whether the entry point keeps a changed file. */
  predicate IsTracked(config: LunariaConfig, isMatch: Matcher, file: ChangedFile)
  {
    FindFileConfig(isMatch, UnrootFilename(config.rootDir, file.filename), config.files).Some?
  }

  /** The filter of the entry point: the tracked files, in the listing's order. */
  function TrackedFiles(config: LunariaConfig, isMatch: Matcher, prFiles: seq<ChangedFile>): (r: seq<ChangedFile>)
    ensures IsSubsequence(r, prFiles)
    ensures forall i :: 0 <= i < |r| ==> IsTracked(config, isMatch, r[i])
    ensures forall i :: 0 <= i < |prFiles| && IsTracked(config, isMatch, prFiles[i]) ==> prFiles[i] in r
    ensures r == [] <==> forall i :: 0 <= i < |prFiles| ==> !IsTracked(config, isMatch, prFiles[i])
  {
    Filter(prFiles, (file: ChangedFile) => IsTracked(config, isMatch, file))
  }

  // ---------------------------------------------------------------------------
  // Displayed path
  // ---------------------------------------------------------------------------

  /** The index of the first base that occurs in the file name and is not empty:
      the first one whose removal changes the name. */
  function FirstHiddenBase(filename: string, bases: seq<string>): (r: Option<nat>)
    ensures r.Some? ==> r.value < |bases| && bases[r.value] != "" && Includes(filename, bases[r.value])
    ensures forall j :: 0 <= j < |bases| && (r.None? || j < r.value) ==>
      bases[j] == "" || !Includes(filename, bases[j])
  {
    FindIndex(bases, (base: string) => base != "" && Includes(filename, base))
  }

  /** What `collapseFilename` shows: the name with the first occurrence of the
      first base that occurs in it cut out; the name itself when there is no such
      base or no list. */
  function Collapsed(filename: string, basesToHide: Option<seq<string>>): (r: string)
    ensures basesToHide.None? ==> r == filename
    ensures |r| <= |filename|
  {
    match basesToHide
    case None => filename
    case Some(bases) =>
      match FirstHiddenBase(filename, bases)
      case None => filename
      case Some(k) =>
        var b := bases[k];
        var i := IndexOf(filename, b).value;
        assert OccursAt(filename, b, i);
        filename[..i] + filename[i + |b|..]
  }

  /** The shown name is the name itself, or the name with one non-empty base
      cut out where it occurs; with no base occurring, it is the name itself. */
  lemma CollapsedCutsOneBase(filename: string, basesToHide: Option<seq<string>>)
    ensures var r := Collapsed(filename, basesToHide);
      r == filename || exists k, i :: (basesToHide.Some? && 0 <= k < |basesToHide.value| &&
        basesToHide.value[k] != "" && OccursAt(filename, basesToHide.value[k], i) &&
        r == filename[..i] + filename[i + |basesToHide.value[k]|..])
    ensures basesToHide.Some? &&
      (forall k :: 0 <= k < |basesToHide.value| ==> basesToHide.value[k] == "" || !Includes(filename, basesToHide.value[k]))
      ==> Collapsed(filename, basesToHide) == filename
  {
    if basesToHide.Some? {
      var bases := basesToHide.value;
      match FirstHiddenBase(filename, bases)
      case None =>
        assert Collapsed(filename, basesToHide) == filename;
      case Some(k) =>
        CollapsedCutsBase(filename, bases, k);
        var i := IndexOf(filename, bases[k]).value;
        assert OccursAt(filename, bases[k], i);
        assert !(bases[k] == "" || !Includes(filename, bases[k]));
    }
  }

  /** When the `k`th base is the first that occurs, the shown name is the name
      with that base cut out at its first occurrence. */
  lemma CollapsedCutsBase(filename: string, bases: seq<string>, k: nat)
    requires FirstHiddenBase(filename, bases) == Some(k)
    ensures IndexOf(filename, bases[k]).Some?
    ensures var i := IndexOf(filename, bases[k]).value;
      Collapsed(filename, Some(bases)) == filename[..i] + filename[i + |bases[k]|..]
  {
    assert Includes(filename, bases[k]);
  }

  /** When the `k`th base is the first that occurs, the shown name is
      `name.replace(bases[k], '')`. */
  lemma CollapsedByReplace(filename: string, bases: seq<string>, k: nat)
    requires FirstHiddenBase(filename, bases) == Some(k)
    ensures Collapsed(filename, Some(bases)) == Replace(filename, bases[k], "")
  {
    CollapsedCutsBase(filename, bases, k);
    ReplaceByEmpty(filename, bases[k]);
    assert bases[k] != "" && Includes(filename, bases[k]);
  }

  /** `collapseFilename`: tries each base in turn and returns at the first whose
      removal changes the name. */
  method CollapseFilename(filename: string, basesToHide: Option<seq<string>>) returns (r: string)
    ensures r == Collapsed(filename, basesToHide)
  {
    if basesToHide.None? {
      return filename;
    }
    var bases := basesToHide.value;
    for i := 0 to |bases|
      invariant forall j :: 0 <= j < i ==> bases[j] == "" || !Includes(filename, bases[j])
    {
      var newFilename := Replace(filename, bases[i], "");
      ReplaceByEmpty(filename, bases[i]);
      if newFilename == filename {
        continue;
      }
      FindIndexAt(bases, (base: string) => base != "" && Includes(filename, base), i);
      CollapsedByReplace(filename, bases, i);
      return newFilename;
    }
    assert FirstHiddenBase(filename, bases).None?;
    return filename;
  }

  // ---------------------------------------------------------------------------
  // Classification
  // ---------------------------------------------------------------------------

  /** The four change kinds a note exists for. */
  const NormalizedKinds: set<string> := {"added", "removed", "changed", "unchanged"}

  /** `statusType`: renamed and copied files count as added, modified files as
      changed, and every other kind passes through. */
  function StatusType(k: ChangeKind): (r: string)
    ensures r in NormalizedKinds
    ensures (k == Renamed || k == Copied) ==> r == "added"
    ensures k == Modified ==> r == "changed"
    ensures k != Renamed && k != Copied && k != Modified ==> r == KindName(k)
  {
    match k
    case Renamed => "added"
    case Copied => "added"
    case Modified => "changed"
    case _ => KindName(k)
  }

  /** The key into `notes`: the locale class, a dash, the normalized kind. */
  function NoteKey(isSourceLocale: bool, k: ChangeKind): (key: string)
    ensures key in Comment.NoteKeys && key in Comment.Notes
  {
    var key := (if isSourceLocale then "source" else "localization") + "-" + StatusType(k);
    KeyIsNoted(isSourceLocale, StatusType(k));
    Comment.NotesHasEightKeys();
    key
  }

  lemma KeyIsNoted(isSourceLocale: bool, kind: string)
    requires kind in NormalizedKinds
    ensures (if isSourceLocale then "source" else "localization") + "-" + kind in Comment.NoteKeys
  {
    if isSourceLocale {
      if kind == "added" { assert "source" + "-" + kind == "source-added"; }
      else if kind == "removed" { assert "source" + "-" + kind == "source-removed"; }
      else if kind == "changed" { assert "source" + "-" + kind == "source-changed"; }
      else { assert "source" + "-" + kind == "source-unchanged"; }
    } else {
      if kind == "added" { assert "localization" + "-" + kind == "localization-added"; }
      else if kind == "removed" { assert "localization" + "-" + kind == "localization-removed"; }
      else if kind == "changed" { assert "localization" + "-" + kind == "localization-changed"; }
      else { assert "localization" + "-" + kind == "localization-unchanged"; }
    }
  }

  /** The key names both axes of the classification: equal keys mean the same
      locale class and the same normalized kind. */
  lemma NoteKeyInjective(s1: bool, k1: ChangeKind, s2: bool, k2: ChangeKind)
    ensures NoteKey(s1, k1) == NoteKey(s2, k2) <==> s1 == s2 && StatusType(k1) == StatusType(k2)
  {
    var p1 := (if s1 then "source" else "localization") + "-";
    var p2 := (if s2 then "source" else "localization") + "-";
    assert NoteKey(s1, k1) == p1 + StatusType(k1);
    assert NoteKey(s2, k2) == p2 + StatusType(k2);
    if NoteKey(s1, k1) == NoteKey(s2, k2) {
      assert NoteKey(s1, k1)[0] == p1[0] && NoteKey(s2, k2)[0] == p2[0];
      assert s1 == s2;
      assert StatusType(k1) == NoteKey(s1, k1)[|p1|..];
    }
  }

  /** The first status entry with the file's shared path. */
  function FindStatusEntry(status: seq<StatusEntry>, sharedPath: string): (r: Option<StatusEntry>)
    ensures r.Some? ==> r.value.sharedPath == sharedPath
    ensures r.None? <==> forall i :: 0 <= i < |status| ==> status[i].sharedPath != sharedPath
    ensures r.Some? ==> exists i :: (0 <= i < |status| && status[i] == r.value &&
      forall j :: 0 <= j < i ==> status[j].sharedPath != sharedPath)
  {
    var p := (entry: StatusEntry) => entry.sharedPath == sharedPath;
    var r := Find(status, p);
    if r.Some? then
      var i := FindIndex(status, p).value;
      assert status[i] == r.value;
      r
    else r
  }

  /** The outdated rule. The source defaults the latest source change to the
      pull request's creation date for source-locale files and for files without
      an entry, then compares strictly. */
  function IsOutdated(isSourceLocale: bool, entry: Option<StatusEntry>, createdAt: int): (r: bool)
    ensures r <==> !isSourceLocale && entry.Some? && entry.value.lastMajorChange.Some? &&
                   entry.value.lastMajorChange.value > createdAt
    ensures isSourceLocale ==> !r
    ensures entry.None? ==> !r
  {
    var latestSourceChange :=
      if entry.Some? && !isSourceLocale then entry.value.lastMajorChange else Some(createdAt);
    latestSourceChange.Some? && latestSourceChange.value > createdAt
  }

  /** `foundWarnings` of one file. */
  function FoundWarnings(outdated: bool): seq<Comment.Warning>
  {
    if outdated then [Comment.Outdated] else []
  }

  /** The warning icons of a note, joined by spaces. */
  function WarningIcons(found: seq<Comment.Warning>): (r: string)
    ensures found == [] ==> r == ""
    ensures found == [Comment.Outdated] ==> r == Comment.Icon(Comment.Outdated)
  {
    Join(seq(|found|, i requires 0 <= i < |found| => Comment.Icon(found[i])), " ")
  }

  /** `pathParams.lang || defaultLocale.lang`: the path's own locale when it
      names a non-empty one, the default locale's otherwise. */
  function LangOf(info: PathInfo, defaultLang: string): (lang: string)
    ensures info.lang.Some? && info.lang.value != "" ==> lang == info.lang.value
    ensures info.lang.None? || info.lang.value == "" ==> lang == defaultLang
    ensures lang != "" || defaultLang == ""
  {
    if info.lang.Some? && info.lang.value != "" then info.lang.value else defaultLang
  }

  // ---------------------------------------------------------------------------
  // Rows
  // ---------------------------------------------------------------------------

  /** The row of one tracked file: locale, linked displayed path, note. */
  function RowFor(config: LunariaConfig, status: seq<StatusEntry>, pr: PullRequest,
                  isMatch: Matcher, resolve: Resolver, file: ChangedFile): (row: seq<string>)
    requires IsTracked(config, isMatch, file)
    ensures |row| == 3
    ensures row[0] != "" || config.defaultLang == ""
  {
    var rootless := UnrootFilename(config.rootDir, file.filename);
    var rule := FindFileConfig(isMatch, rootless, config.files).value;
    var info := resolve(rule.pattern, rootless);
    var lang := LangOf(info, config.defaultLang);
    var isSource := lang == config.defaultLang;
    var outdated := IsOutdated(isSource, FindStatusEntry(status, info.sharedPath), pr.createdAt);
    var key := NoteKey(isSource, file.status);
    [lang, "[" + Collapsed(info.sharedPath, config.basesToHide) + "](" + file.blobUrl + ")",
     Comment.Notes[key] + " " + WarningIcons(FoundWarnings(outdated))]
  }

  /** What a row shows: the file's own locale, or the default locale's when the
      path names none; the displayed path linked to the file; the note for the
      locale class and change kind, followed by the outdated icon exactly when
      the file is outdated. */
  lemma RowForShape(config: LunariaConfig, status: seq<StatusEntry>, pr: PullRequest,
                    isMatch: Matcher, resolve: Resolver, file: ChangedFile)
    requires IsTracked(config, isMatch, file)
    ensures var row := RowFor(config, status, pr, isMatch, resolve, file);
      var rootless := UnrootFilename(config.rootDir, file.filename);
      var rule := FindFileConfig(isMatch, rootless, config.files).value;
      var info := resolve(rule.pattern, rootless);
      var isSource := row[0] == config.defaultLang;
      var outdated := IsOutdated(isSource, FindStatusEntry(status, info.sharedPath), pr.createdAt);
      var note := Comment.Notes[NoteKey(isSource, file.status)];
      && |row| == 3
      && (if info.lang.Some? && info.lang.value != "" then row[0] == info.lang.value else row[0] == config.defaultLang)
      && row[1] == "[" + Collapsed(info.sharedPath, config.basesToHide) + "](" + file.blobUrl + ")"
      && (!outdated ==> row[2] == note + " ")
      && (outdated ==> row[2] == note + " " + Comment.Icon(Comment.Outdated))
  {
  }

  /** The body of the loop of `getTrackedFilesTable`, statement by statement. */
  method FileRow(config: LunariaConfig, status: seq<StatusEntry>, pr: PullRequest,
                 isMatch: Matcher, resolve: Resolver, file: ChangedFile)
    returns (row: seq<string>)
    requires IsTracked(config, isMatch, file)
    ensures row == RowFor(config, status, pr, isMatch, resolve, file)
  {
    var rootlessFilename := UnrootFilename(config.rootDir, file.filename);
    var fileConfig := FindFileConfig(isMatch, rootlessFilename, config.files).value;
    var foundWarnings: seq<Comment.Warning> := [];

    var pathInfo := resolve(fileConfig.pattern, rootlessFilename);
    var sharedPath := pathInfo.sharedPath;
    var collapsedSharedPath := CollapseFilename(sharedPath, config.basesToHide);

    var lang := LangOf(pathInfo, config.defaultLang);
    var isSourceLocale := lang == config.defaultLang;

    var statusEntry := FindStatusEntry(status, sharedPath);
    var latestSourceChange :=
      if statusEntry.Some? && !isSourceLocale then statusEntry.value.lastMajorChange
      else Some(pr.createdAt);
    if latestSourceChange.Some? && latestSourceChange.value > pr.createdAt {
      foundWarnings := foundWarnings + [Comment.Outdated];
    }
    assert foundWarnings == FoundWarnings(IsOutdated(isSourceLocale, statusEntry, pr.createdAt));

    var warningIcons := WarningIcons(foundWarnings);
    var key := NoteKey(isSourceLocale, file.status);
    var note := Comment.Notes[key] + " " + warningIcons;

    row := [lang, "[" + collapsedSharedPath + "](" + file.blobUrl + ")", note];
  }

  /** The row of each tracked file. */
  function RowMaker(config: LunariaConfig, status: seq<StatusEntry>, pr: PullRequest,
                    isMatch: Matcher, resolve: Resolver): ChangedFile --> seq<string>
  {
    file requires IsTracked(config, isMatch, file) => RowFor(config, status, pr, isMatch, resolve, file)
  }

  /** The rows of the tracked files, in order. */
  function Rows(config: LunariaConfig, status: seq<StatusEntry>, pr: PullRequest,
                isMatch: Matcher, resolve: Resolver, trackedFiles: seq<ChangedFile>): (rows: seq<seq<string>>)
    requires forall i :: 0 <= i < |trackedFiles| ==> IsTracked(config, isMatch, trackedFiles[i])
  {
    Map(trackedFiles, RowMaker(config, status, pr, isMatch, resolve))
  }

  /** The loop of `getTrackedFilesTable`: one row per tracked file, in order. */
  method BuildRows(config: LunariaConfig, status: seq<StatusEntry>, pr: PullRequest,
                   isMatch: Matcher, resolve: Resolver, trackedFiles: seq<ChangedFile>)
    returns (rows: seq<seq<string>>)
    requires forall i :: 0 <= i < |trackedFiles| ==> IsTracked(config, isMatch, trackedFiles[i])
    ensures rows == Rows(config, status, pr, isMatch, resolve, trackedFiles)
  {
    rows := [];
    for n := 0 to |trackedFiles|
      invariant rows == Rows(config, status, pr, isMatch, resolve, trackedFiles[..n])
    {
      var row := FileRow(config, status, pr, isMatch, resolve, trackedFiles[n]);
      MapExtend(trackedFiles, n, RowMaker(config, status, pr, isMatch, resolve));
      rows := rows + [row];
    }
    assert trackedFiles[..|trackedFiles|] == trackedFiles;
  }

  const FilesHeader := ["Locale", "File", "Note"]
  const WarningsHeader := ["Icon", "Description"]

  /** `Object.values(warnings).map(({ icon, description }) => [icon, description])`:
      one row per warning, in order, holding its icon and then its description. */
  function WarningRows(values: seq<Comment.WarningInfo>): (rows: seq<seq<string>>)
    ensures |rows| == |values|
    ensures forall i :: 0 <= i < |values| ==> rows[i] == [values[i].icon, values[i].description]
  {
    seq(|values|, i requires 0 <= i < |values| => [values[i].icon, values[i].description])
  }

  /** The tracked-files section for the given rows: the composed definition
      `GetTrackedFilesTable` is proved to compute, not a specification of its
      own; what it shows is stated by `BuildRows`, `RowForShape` and
      `Comment.TrackedFilesDetails`. */
  function TrackedFilesSection(render: Renderer, rows: seq<seq<string>>): string
  {
    Comment.TrackedFilesDetails(render([FilesHeader] + rows), render([WarningsHeader] + WarningRows(Comment.WarningValues())))
  }

  /** `getTrackedFilesTable`. */
  method GetTrackedFilesTable(config: LunariaConfig, status: seq<StatusEntry>, pr: PullRequest,
                              isMatch: Matcher, resolve: Resolver, render: Renderer,
                              trackedFiles: seq<ChangedFile>)
    returns (section: string)
    requires forall i :: 0 <= i < |trackedFiles| ==> IsTracked(config, isMatch, trackedFiles[i])
    ensures section == TrackedFilesSection(render, Rows(config, status, pr, isMatch, resolve, trackedFiles))
  {
    var rows := BuildRows(config, status, pr, isMatch, resolve, trackedFiles);
    var filesTable := render([FilesHeader] + rows);
    var warningsTable := render([WarningsHeader] + WarningRows(Comment.WarningValues()));
    section := Comment.TrackedFilesDetails(filesTable, warningsTable);
  }

  // ---------------------------------------------------------------------------
  // Overview
  // ---------------------------------------------------------------------------

  /** The alternatives of the case-insensitive regex built from the keywords:
      joining no keywords gives `()`, a single empty alternative. */
  function Alternatives(keywords: seq<string>): (alts: seq<string>)
    ensures |alts| > 0
    ensures keywords != [] ==> alts == keywords
  {
    if keywords == [] then [""] else keywords
  }

  /** The keyword matches the title at `pos`, ignoring ASCII case. */
  predicate MatchesAt(title: string, keyword: string, pos: int)
  {
    0 <= pos && pos + |keyword| <= |title| && EqualsIgnoreCase(title[pos..pos + |keyword|], keyword)
  }

  /** A regex hit: where it starts and which alternative matched. */
  datatype Hit = Hit(pos: nat, alt: nat)

  /** The regex search from `pos` on: the leftmost position where some
      alternative matches, and at it the first alternative in order. */
  function SearchFrom(title: string, alts: seq<string>, pos: nat): (r: Option<Hit>)
    ensures r.Some? ==> (pos <= r.value.pos <= |title| && r.value.alt < |alts| &&
      MatchesAt(title, alts[r.value.alt], r.value.pos))
    ensures r.Some? ==> forall a :: 0 <= a < r.value.alt ==> !MatchesAt(title, alts[a], r.value.pos)
    ensures r.Some? ==> forall p, a :: pos <= p < r.value.pos && 0 <= a < |alts| ==> !MatchesAt(title, alts[a], p)
    ensures r.None? ==> forall p, a :: pos <= p && 0 <= a < |alts| ==> !MatchesAt(title, alts[a], p)
    decreases |title| + 1 - pos
  {
    if pos > |title| then None
    else
      match FindIndex(alts, (keyword: string) => MatchesAt(title, keyword, pos))
      case Some(a) => Some(Hit(pos, a))
      case None => SearchFrom(title, alts, pos + 1)
  }

  /** `title.match(IGNORE_KEYWORDS)?.at(0)`: the title's own text at the hit. */
  function TitleMatch(title: string, keywords: seq<string>): (m: Option<string>)
    ensures m.Some? ==> SearchFrom(title, Alternatives(keywords), 0).Some?
    ensures m.Some? ==>
      var h := SearchFrom(title, Alternatives(keywords), 0).value;
      var kw := Alternatives(keywords)[h.alt];
      m.value == title[h.pos..h.pos + |kw|] && EqualsIgnoreCase(m.value, kw)
    ensures m.None? <==> SearchFrom(title, Alternatives(keywords), 0).None?
  {
    var alts := Alternatives(keywords);
    match SearchFrom(title, alts, 0)
    case None => None
    case Some(h) => Some(title[h.pos..h.pos + |alts[h.alt]|])
  }

  /** The title opts the pull request out of tracking: the regex finds a
      non-empty match. */
  predicate OptsOut(title: string, keywords: seq<string>)
  {
    TitleMatch(title, keywords).Some? && TitleMatch(title, keywords).value != ""
  }

  /** `getStatusOverview`: the untracked overview, naming the title's own text of
      the match, when the title opts out; the tracked overview otherwise. */
  function GetStatusOverview(title: string, keywords: seq<string>): (r: string)
    ensures r != Comment.OverviewTracked <==> OptsOut(title, keywords)
    ensures OptsOut(title, keywords) ==> r == Comment.OverviewUntracked(TitleMatch(title, keywords).value)
  {
    var m := TitleMatch(title, keywords);
    if m.Some? && m.value != "" then Comment.OverviewUntracked(m.value) else Comment.OverviewTracked
  }

  /** Without keywords the regex is `()`, whose match is empty: every title is
      tracked. */
  lemma NoKeywordsNeverOptOut(title: string)
    ensures !OptsOut(title, [])
  {
    assert MatchesAt(title, "", 0);
    FindIndexAt([""], (keyword: string) => MatchesAt(title, keyword, 0), 0);
  }

  /** With non-empty keywords, the title opts out exactly when some keyword
      occurs in it, ignoring ASCII case. */
  lemma OptsOutIffKeywordOccurs(title: string, keywords: seq<string>)
    requires forall i :: 0 <= i < |keywords| ==> keywords[i] != ""
    ensures OptsOut(title, keywords) <==>
      exists i, p :: 0 <= i < |keywords| && MatchesAt(title, keywords[i], p)
  {
    var alts := Alternatives(keywords);
    var h := SearchFrom(title, alts, 0);
    if exists i, p :: 0 <= i < |keywords| && MatchesAt(title, keywords[i], p) {
      var i, p :| 0 <= i < |keywords| && MatchesAt(title, keywords[i], p);
      assert alts == keywords;
      assert h.Some?;
      assert |alts[h.value.alt]| > 0;
    }
  }

  /** A hit is determined by the search's contract: the leftmost position, and
      there the first alternative. */
  lemma SearchHit(title: string, alts: seq<string>, p: nat, a: nat)
    requires a < |alts| && MatchesAt(title, alts[a], p)
    requires forall a' :: 0 <= a' < a ==> !MatchesAt(title, alts[a'], p)
    requires forall p', a' :: 0 <= p' < p && 0 <= a' < |alts| ==> !MatchesAt(title, alts[a'], p')
    ensures SearchFrom(title, alts, 0) == Some(Hit(p, a))
  {
    var h := SearchFrom(title, alts, 0);
    assert h.Some?;
    assert h.value.pos == p;
  }

  /** An empty keyword matches at the very start, so it hides any later hit of
      another keyword: the title does not opt out although `a` occurs in it. */
  lemma EmptyKeywordHidesLaterHits()
    ensures MatchesAt("xa", "a", 1)
    ensures !OptsOut("xa", ["a", ""])
  {
    var alts := ["a", ""];
    assert "xa"[1..2] == "a";
    assert !MatchesAt("xa", "a", 0) by {
      assert "xa"[0..1][0] == 'x' && "a"[0] == 'a';
      assert AsciiLower('x') != AsciiLower('a');
    }
    assert MatchesAt("xa", "", 0);
    SearchHit("xa", alts, 0, 1);
  }

  /** A bracketed keyword opts the title out, and the match is the title's own
      spelling of the keyword. */
  lemma SkipKeywordInTitle()
    ensures TitleMatch("Update docs [SKIP-i18n]", ["skip-i18n"]) == Some("SKIP-i18n")
    ensures OptsOut("Update docs [SKIP-i18n]", ["skip-i18n"])
  {
    var title := "Update docs [SKIP-i18n]";
    var kw := "skip-i18n";
    assert title[13..22] == "SKIP-i18n";
    assert MatchesAt(title, kw, 13);
    forall p | 0 <= p < 13 ensures !MatchesAt(title, kw, p) {
      assert (title[p] != 'S' && title[p] != 's') || title[p + 1] != 'k';
    }
    SearchHit(title, [kw], 13, 0);
  }

  // ---------------------------------------------------------------------------
  // The entry point
  // ---------------------------------------------------------------------------

  /** The parts of the event payload the gates read. */
  datatype Payload = Payload(pullRequest: Option<nat>, repository: Option<string>, action: string)

  /** How a run ends: skipped at one of the gates, or with a comment body to publish. */
  datatype Outcome = NoPullRequest | NoRepository | WrongAction | NoTrackedFiles | Summary(body: string)

  /** The gates that come before any work. */
  predicate Runnable(payload: Payload)
  {
    payload.pullRequest.Some? && payload.repository.Some? &&
    (payload.action == "opened" || payload.action == "synchronize")
  }

  /** The three checks on the event, in the order `main` makes them: the
      outcome of the first that fails, or nothing when the event is runnable. */
  function EventGate(payload: Payload): (r: Option<Outcome>)
    ensures r.None? <==> Runnable(payload)
    ensures payload.pullRequest.None? ==> r == Some(NoPullRequest)
    ensures payload.pullRequest.Some? && payload.repository.None? ==> r == Some(NoRepository)
    ensures (payload.pullRequest.Some? && payload.repository.Some? &&
      payload.action != "opened" && payload.action != "synchronize") ==> r == Some(WrongAction)
  {
    if payload.pullRequest.None? then Some(NoPullRequest)
    else if payload.repository.None? then Some(NoRepository)
    else if payload.action != "opened" && payload.action != "synchronize" then Some(WrongAction)
    else None
  }

  /** The body the entry point publishes for a runnable event with tracked files:
      the composed definition `Prepare` is proved to compute, not a
      specification of its own; what it holds is stated by `Comment.Body`,
      `GetStatusOverview` and the rows' lemmas. */
  function SummaryBody(config: LunariaConfig, status: seq<StatusEntry>, pr: PullRequest,
                       isMatch: Matcher, resolve: Resolver, render: Renderer,
                       prFiles: seq<ChangedFile>): string
  {
    var tracked := TrackedFiles(config, isMatch, prFiles);
    Comment.Body(GetStatusOverview(pr.title, config.ignoreKeywords),
                 TrackedFilesSection(render, Rows(config, status, pr, isMatch, resolve, tracked)))
  }

  /** The tail of `main` once a file is tracked: the overview, the files section
      and the body that joins them, which carries the marker. */
  method Summarize(config: LunariaConfig, status: seq<StatusEntry>, pr: PullRequest,
                   prFiles: seq<ChangedFile>, isMatch: Matcher, resolve: Resolver, render: Renderer)
    returns (body: string)
    ensures body == SummaryBody(config, status, pr, isMatch, resolve, render, prFiles)
    ensures Includes(body, Comment.Pragma)
  {
    var trackedFiles := TrackedFiles(config, isMatch, prFiles);
    var overview := GetStatusOverview(pr.title, config.ignoreKeywords);
    var section := GetTrackedFilesTable(config, status, pr, isMatch, resolve, render, trackedFiles);
    body := Comment.Body(overview, section);
  }

  /** `main` up to the comment: the early-return gates, the tracked-file filter,
      the overview and the files section. The engine's output (`config`,
      `status`) and the fetched pull request and file listing are inputs. */
  method Prepare(payload: Payload, config: LunariaConfig, status: seq<StatusEntry>, pr: PullRequest,
                 prFiles: seq<ChangedFile>, isMatch: Matcher, resolve: Resolver, render: Renderer)
    returns (outcome: Outcome)
    ensures payload.pullRequest.None? ==> outcome == NoPullRequest
    ensures payload.pullRequest.Some? && payload.repository.None? ==> outcome == NoRepository
    ensures (payload.pullRequest.Some? && payload.repository.Some? &&
      payload.action != "opened" && payload.action != "synchronize") ==> outcome == WrongAction
    ensures Runnable(payload) && TrackedFiles(config, isMatch, prFiles) == [] ==> outcome == NoTrackedFiles
    ensures outcome.Summary? <==> Runnable(payload) && TrackedFiles(config, isMatch, prFiles) != []
    ensures outcome.Summary? ==>
      outcome.body == SummaryBody(config, status, pr, isMatch, resolve, render, prFiles) &&
      Includes(outcome.body, Comment.Pragma)
  {
    var gate := EventGate(payload);
    if gate.Some? {
      return gate.value;
    }
    var trackedFiles := TrackedFiles(config, isMatch, prFiles);
    if |trackedFiles| == 0 {
      return NoTrackedFiles;
    }
    var body := Summarize(config, status, pr, prFiles, isMatch, resolve, render);
    return Summary(body);
  }

  /** `main`: prepare, then publish through the pull request's comment store.
      A skipped run leaves the store as it was. */
  method Run(payload: Payload, config: LunariaConfig, status: seq<StatusEntry>, pr: PullRequest,
             prFiles: seq<ChangedFile>, isMatch: Matcher, resolve: Resolver, render: Renderer,
             store: Comment.CommentStore)
    returns (outcome: Outcome)
    requires store.Valid()
    modifies store
    ensures store.Valid()
    ensures outcome.Summary? <==> Runnable(payload) && TrackedFiles(config, isMatch, prFiles) != []
    ensures !outcome.Summary? ==> store.comments == old(store.comments) && store.nextId == old(store.nextId)
    ensures outcome.Summary? ==>
      outcome.body == SummaryBody(config, status, pr, isMatch, resolve, render, prFiles) &&
      Includes(outcome.body, Comment.Pragma) &&
      store.comments == Comment.Publish(old(store.comments), old(store.nextId), outcome.body) &&
      store.nextId == old(store.nextId) + (if Comment.FirstMarked(old(store.comments)).None? then 1 else 0)
  {
    outcome := Prepare(payload, config, status, pr, prFiles, isMatch, resolve, render);
    if outcome.Summary? {
      store.CommentSummary(outcome.body);
    }
  }

  /** Running the action twice on the same event and inputs: the second run
      creates no comment, and it leaves the comments settled for the body, so
      any further run changes nothing. */
  method RunTwice(payload: Payload, config: LunariaConfig, status: seq<StatusEntry>, pr: PullRequest,
                  prFiles: seq<ChangedFile>, isMatch: Matcher, resolve: Resolver, render: Renderer,
                  store: Comment.CommentStore)
    requires store.Valid()
    modifies store
    ensures store.Valid()
    ensures var runs := Runnable(payload) && TrackedFiles(config, isMatch, prFiles) != [];
      |store.comments| == |old(store.comments)| +
        (if runs && Comment.FirstMarked(old(store.comments)).None? then 1 else 0)
    ensures Runnable(payload) && TrackedFiles(config, isMatch, prFiles) != [] ==>
      Comment.Settled(store.comments, SummaryBody(config, status, pr, isMatch, resolve, render, prFiles))
    ensures !(Runnable(payload) && TrackedFiles(config, isMatch, prFiles) != []) ==>
      store.comments == old(store.comments) && store.nextId == old(store.nextId)
  {
    var first := Run(payload, config, status, pr, prFiles, isMatch, resolve, render, store);
    var second := Run(payload, config, status, pr, prFiles, isMatch, resolve, render, store);
    if first.Summary? {
      assert second.Summary? && second.body == first.body;
      Comment.PublishTwice(old(store.comments), old(store.nextId), first.body);
    }
  }
}
