# lunaria-action, modelled in Dafny

lunaria-action is a pull-request bot for the Lunaria localization tracker. On an `opened` or `synchronize` event it does the following:

- It keeps only the changed files that a Lunaria file rule tracks.
- It classifies each tracked file by locale class (source or localization) and change kind.
- It flags a localization as outdated when its source changed after the pull request was created.
- It renders a summary comment that carries a hidden marker.
- It updates the earlier summary comment found by that marker, or creates one.

The project models this core in four modules.

- `js.dfy` (`Js`): the JavaScript built-ins the code relies on, on Dafny sequences:
  - `indexOf`, `includes`, `startsWith`;
  - `replace` with a string pattern (first occurrence only);
  - `find`, `findIndex`, `every`, `filter`, `map`, `join`;
  - ASCII case folding for the case-insensitive regex.
- `config.dfy` (`Config`): the file rules and `findFileConfig` of `src/config.ts`.
  - It is written as the `find`/`every` expression it is.
  - It is proved to return the first rule that tracks the file. `node_modules` is always excluded.
- `comment.dfy` (`Comment`): `src/comment.ts`. It covers:
  - the marker, the notes table and the warnings table;
  - the templates, proved to place their parts in order;
  - the paged search for the earlier comment, as a loop that stops at the first marked page;
  - the publishing rule (`Publish`), proved to settle from the second publish on;
  - the same rule with the search returning the marked comment's own id (`PublishIntended`), proved idempotent, never to add a marked comment when one exists, and to leave exactly one on a list that had at most one;
  - a `CommentStore` class standing for the pull request's comments, whose `CommentSummary` method updates or creates in place, and `CommentSummaryIntended`, its corrected counterpart.
- `index.dfy` (`Action`): `src/index.ts`. It covers:
  - `findFileConfig`, proved equal to the `src/config.ts` copy;
  - `unrootFilename`;
  - `collapseFilename`, as its loop;
  - the title search of `getStatusOverview`: leftmost match, first alternative, ASCII case-insensitive;
  - `statusType` and the note key;
  - the outdated rule;
  - the row loop of `getTrackedFilesTable`;
  - `main`: the gates, the tracked-file filter, the body and the publish step.

### Foreign code and inputs

Foreign code, I/O and the network become parameters or inputs:

- Glob matching (`micromatch.isMatch`) is a `Matcher` function parameter.
- The path-template resolver (`getPathResolver`) is a `Resolver`, giving the `lang` parameter and the shared path.
- `markdownTable` is a `Renderer`.
- The engine's configuration and status, the fetched pull request and its file listing are inputs of `Action.Prepare`.
- The pull request's comments are the `Comment.CommentStore` object.
- Dates are integer timestamps. An entry whose source date is missing or invalid has `lastMajorChange == None`. Such an entry never compares as later.

### Behaviour worth noting

- **Change kinds.** The hosting platform's file listing also reports the status `changed`. `statusType` (`src/index.ts:97-109`) has no case for it and passes it through like `added`, `removed` and `unchanged`.
- **Which comment is updated.** The search stops at the first page holding a marked comment. It then returns the id of that page's *first* comment, which need not be the marked one (`src/comment.ts:104-115`). `Comment.FoundIdMayBeForeign` exhibits a page whose first comment is foreign and is the one overwritten. This also breaks idempotence on a pull request whose first comment is foreign. The first run appends the marked comment; the second run finds its page and overwrites the foreign first comment, leaving two marked comments (`Comment.SecondRunOverwritesForeign`). From the third publish on, publishing changes nothing; the second creates no comment (`Comment.PublishIdempotent`). The entry point `Action.Run` models the code as written; the corrected search is under "Findings".
- **Empty keywords.** An empty keyword list makes the regex `()`, which matches the empty string, so no title opts out. An empty keyword inside the list matches at position 0 and hides every later hit (`Action.EmptyKeywordHidesLaterHits`).

## Model

| member | source | states |
|---|---|---|
| Js.ReplaceByEmpty | src/index.ts:46-48 | `replace(base, '')` changes the name exactly when the base is non-empty and occurs; it then removes the first occurrence and keeps the rest in order |
| Js.Filter | src/index.ts:213-215 | `filter` keeps exactly the elements satisfying the predicate, as a subsequence of the input, each as many times as it occurs in the input |
| Js.Replace | src/index.ts:46 | with no occurrence the string is unchanged; otherwise the length changes by the difference of the pattern and the replacement |
| Js.ReplaceCutsFirst | src/index.ts:46 | at the first occurrence the replacement takes the pattern's place; the text before and after it is kept |
| Js.FindIndex | src/index.ts:30 | `find`/`findIndex` give the least index whose element satisfies the predicate; none exactly when no element does |
| Js.FindIndexPrefix | src/index.ts:30 | elements after the first hit do not change what `find` returns |
| Config.Exclusions | src/config.ts:20 | every exclusion list starts with `node_modules`, followed by the rule's `ignore` list or nothing |
| Config.FindFileConfig | src/config.ts:13-24 | a rule returned is one of the rules and tracks the name: its location matches and no exclusion does |
| Config.FindPredicateIsTracks | src/config.ts:18-22 | the predicate handed to `find` holds exactly when the location matches and no exclusion does |
| Config.FindFileConfigFirst | src/config.ts:13-24 | `findFileConfig` returns the first rule in order that tracks the name, and nothing exactly when no rule tracks it |
| Config.DependencyDirAlwaysExcluded | src/config.ts:20 | a name matching `node_modules` is tracked by no rule, whatever the rules' `ignore` lists say |
| Config.LaterRulesIrrelevant | src/config.ts:17-23 | appending rules after a rule that already tracks the name does not change the result |
| Action.FindFileConfig | src/index.ts:29-35 | none exactly when no rule tracks the name; otherwise the first tracking rule in list order |
| Action.FindFileConfigAgrees | src/index.ts:29-35 | the `src/index.ts` copy of `findFileConfig` equals the `src/config.ts` copy on every input |
| Action.UnrootFilename | src/index.ts:60-66 | root `.` keeps the name; a name under `root/` loses exactly that prefix (`root + "/" + r == name`); any other name is kept |
| Action.TrackedFiles | src/index.ts:213-215 | the kept files are tracked, keep the listing's order, include every tracked file, and are empty exactly when no file is tracked |
| Action.FirstHiddenBase | src/index.ts:45-48 | the first base that occurs in the name and is not empty; every earlier base is empty or absent |
| Action.Collapsed | src/index.ts:40-53 | no `basesToHide` keeps the name; the shown name is never longer than the name |
| Action.CollapsedCutsOneBase | src/index.ts:40-53 | the shown name is the name, or the name with one non-empty base cut out where it occurs; with no base occurring it is the name |
| Action.CollapsedCutsBase | src/index.ts:46-49 | when base `k` is the first that occurs, the shown name is the name with that base cut out at its first occurrence |
| Action.CollapsedByReplace | src/index.ts:46-49 | when base `k` is the first that occurs, the shown name is `name.replace(bases[k], '')` |
| Action.CollapseFilename | src/index.ts:40-53 | the loop returns the replacement of the first base whose removal changes the name, or the name itself |
| Action.StatusType | src/index.ts:97-109 | renamed and copied become `added`, modified becomes `changed`, the rest pass through; the result is one of the four normalized kinds |
| Action.NoteKey | src/index.ts:124-125 | the key is one of the eight keys of `notes`, so the note lookup never misses |
| Action.KeyIsNoted | src/index.ts:124 | each locale class joined with each normalized kind is a key of `notes` |
| Action.NoteKeyInjective | src/index.ts:124 | two keys are equal exactly when the locale class and the normalized kind are equal |
| Action.FindStatusEntry | src/index.ts:111 | the entry found has the file's shared path and is the first entry in the list that has it; none exactly when no entry has it |
| Action.LangOf | src/index.ts:93-94 | the path's `lang` when present and not empty, else the default locale's; it is empty only when the default's is |
| Action.IsOutdated | src/index.ts:113-121 | outdated exactly when the file is not in the source locale, has an entry and a source date strictly later than the pull request's creation; never for the source locale or a missing entry |
| Action.WarningIcons | src/index.ts:123 | no warning gives an empty string; the outdated warning alone gives its icon |
| Action.RowFor | src/index.ts:84-127 | a row has three cells, and its locale cell is empty only when the default locale's `lang` is |
| Action.RowForShape | src/index.ts:84-127 | a row is the locale (the default when the path names none or an empty one), the linked collapsed shared path, and the note followed by the outdated icon exactly when the file is outdated |
| Action.FileRow | src/index.ts:84-127 | the loop body computes the row of one tracked file |
| Action.BuildRows | src/index.ts:81-128 | the loop produces one row per tracked file, in order |
| Action.WarningRows | src/index.ts:131-134 | one row per warning, in order, holding its icon and its description |
| Action.GetTrackedFilesTable | src/index.ts:74-137 | the section is the files table (header plus the rows) and the warnings table, placed by `trackedFilesDetails` |
| Action.Alternatives | src/index.ts:69 | the regex's alternatives are the keywords, or the single empty alternative when there are none |
| Action.SearchFrom | src/index.ts:69-70 | the hit is at the leftmost position where some alternative matches, case-insensitively; there it is the first such alternative; none when nothing matches |
| Action.TitleMatch | src/index.ts:70 | the match is the title's own text at the hit, equal to the keyword ignoring case; none exactly when the search fails |
| Action.SearchHit | src/index.ts:70 | a leftmost position with a first matching alternative is the hit the search returns |
| Action.GetStatusOverview | src/index.ts:68-72 | the overview is untracked exactly when the title has a non-empty match, and it then embeds that match; otherwise it is the tracked overview |
| Action.NoKeywordsNeverOptOut | src/index.ts:69-71 | without keywords no title opts out |
| Action.OptsOutIffKeywordOccurs | src/index.ts:68-72 | with non-empty keywords, a title opts out exactly when some keyword occurs in it, ignoring ASCII case |
| Action.EmptyKeywordHidesLaterHits | src/index.ts:69-71 | an empty keyword makes a title with a later keyword occurrence count as tracked |
| Action.SkipKeywordInTitle | src/index.ts:68-72 | `Update docs [SKIP-i18n]` with keyword `skip-i18n` opts out, reporting `SKIP-i18n` verbatim |
| Action.EventGate | src/index.ts:176-189 | the first failing check in order (no pull request, no repository, an action other than `opened` or `synchronize`) gives its skip; none exactly when the event is runnable |
| Action.Summarize | src/index.ts:222-225 | the body is the overview plus the files section, and it carries the marker |
| Action.Prepare | src/index.ts:172-223 | each early-return gate in order; a body exactly when the event is runnable and some file is tracked; the body is the overview plus the rows section, and it carries the marker |
| Action.Run | src/index.ts:172-226 | a skipped run leaves the comments and the id counter unchanged; otherwise the body carries the marker, the store becomes `Publish` of the body, and the counter advances exactly when a comment is created |
| Action.RunTwice | src/index.ts:172-226 | running twice on the same inputs adds one comment exactly when the run is not skipped and no comment was marked, so the second run adds none; the comments end settled for the body; a skipped event leaves the store unchanged |
| Comment.NotesHasEightKeys | src/comment.ts:42-51 | `notes` has exactly the eight distinct classification keys |
| Comment.WarningValues | src/comment.ts:53-59 | one icon and description per warning kind |
| Comment.OverviewUntracked | src/comment.ts:21-30 | the untracked overview embeds the match verbatim and is never the tracked overview |
| Comment.TrackedFilesDetails | src/comment.ts:32-40 | the files table, the warnings summary and the warnings table occur in that order |
| Comment.Body | src/comment.ts:61-70 | the body carries the marker, then the overview heading, the overview, the files heading and the files section, in order |
| Comment.Marked | src/comment.ts:106 | a comment is marked exactly when it has a body and the marker occurs in it |
| Comment.Pages | src/comment.ts:98-103 | the listing falls into pages of 1 to 100 comments, as many as needed |
| Comment.FetchUntilMarked | src/comment.ts:97-112 | pages are read until the first holding a marked comment and none after it; that page's comments are kept and earlier pages contribute nothing; nothing is kept when no page is marked, after reading all |
| Comment.FindExistingCommentId | src/comment.ts:93-116 | pages are read until the first one holding a marked comment, none after it; the id is that page's first comment's; nothing when no page is marked, after reading all |
| Comment.PageStart | src/comment.ts:114-115 | the first index of the page holding a given index |
| Comment.ExistingCommentId | src/comment.ts:97-115 | an id is found exactly when some comment carries the marker |
| Comment.PageElement | src/comment.ts:98-103 | element `i` of page `k` is element `100k + i` of the listing |
| Comment.PageClear | src/comment.ts:104-111 | a page none of whose listing elements satisfies the test has no element satisfying it |
| Comment.PagedFindNone | src/comment.ts:104-111 | with no element satisfying the test, no page has one |
| Comment.PagesBeforeClear | src/comment.ts:104-111 | the pages before the page of the first hit have no hit |
| Comment.FirstPageWithHit | src/comment.ts:104-111 | the page of the first hit is the first page with a hit |
| Comment.PagedFindSome | src/comment.ts:104-115 | with a hit, the first page with a hit is the page of the first hit, and it starts at that hit's page start |
| Comment.PagedFind | src/comment.ts:104-115 | the first page with a hit is the page of the first hit, and it starts at that hit's page start |
| Comment.PagedSearch | src/comment.ts:104-115 | page by page, the search finds the page of the first marked comment; pages do not change the answer |
| Comment.UpdateById | src/comment.ts:80-84 | same length and ids; the comment with the id gets the body and every other comment is kept |
| Comment.Publish | src/comment.ts:77-90 | at most one comment is added, ids are kept in place, and every comment is an old one or has the new body |
| Comment.UpdateByIdAt | src/comment.ts:80-84 | with distinct ids, updating by id replaces exactly one comment's body, and the ids stay valid |
| Comment.PublishUpdates | src/comment.ts:79-85 | when a marked comment exists, only the first comment on its page is rewritten; nothing is created |
| Comment.PublishCreates | src/comment.ts:87-90 | with no marked comment, exactly one new comment is appended and the others are kept |
| Comment.PublishKeepsIdsValid | src/comment.ts:72-91 | publishing keeps ids positive, distinct and below the next id |
| Comment.PublishedIsFound | src/comment.ts:72-91 | after publishing a body that carries the marker, the search finds a comment again |
| Comment.SettledIsFixpoint | src/comment.ts:72-91 | once the first marked comment starts its page and has the body, publishing changes nothing |
| Comment.RewriteSettles | src/comment.ts:79-85 | rewriting the first comment of the marked page with a marked body settles the list |
| Comment.PublishCreatesMarked | src/comment.ts:87-90 | with no marked comment, publishing a marked body makes the appended comment the first marked one |
| Comment.PublishIgnoresFreshId | src/comment.ts:79-85 | once a comment is marked, publishing updates and its result does not depend on the next id |
| Comment.PublishTwice | src/comment.ts:72-116 | two runs in a row, the second with the counter the first leaves, add one comment exactly when none was marked and leave the list settled for the body |
| Comment.PublishIdempotent | src/comment.ts:72-116 | the second publish of a marked body creates no comment, and from then on publishing changes nothing; with an earlier marked comment, the second publish is already a no-op |
| Comment.FoundIdMayBeForeign | src/comment.ts:104-115 | a foreign first comment on the marked page is the one found and overwritten |
| Comment.SecondRunOverwritesForeign | src/comment.ts:104-115 | one foreign comment, published onto twice: the first run appends the marked comment, the second overwrites the foreign one, and two marked comments remain |
| Comment.FindMarkedCommentId | src/comment.ts:93-116 | the corrected search: the pages read are as in `findExistingCommentId`, and the id is that of the first marked comment on the page found |
| Comment.IntendedCommentId | src/comment.ts:93-116 | an id exactly when some comment is marked, and then the id of the first marked comment |
| Comment.PublishIntended | src/comment.ts:72-91 | publishing with the corrected search adds at most one comment, keeps ids in place, and every comment is an old one or has the new body |
| Comment.PublishIntendedAt | src/comment.ts:72-91 | with the corrected search, the first marked comment alone is rewritten, or one comment is appended when none is marked |
| Comment.PublishIntendedAddsNoMarked | src/comment.ts:72-116 | with the corrected search and a comment already marked, publishing creates no comment and marks no comment that was not marked before |
| Comment.PublishIntendedKeepsOneMarked | src/comment.ts:72-116 | with the corrected search, publishing a marked body onto a list with at most one marked comment leaves exactly one first marked comment and never two |
| Comment.PublishIntendedKeepsIdsValid | src/comment.ts:72-91 | with the corrected search, publishing keeps ids positive, distinct and below the next id |
| Comment.PublishIntendedMarks | src/comment.ts:72-116 | with the corrected search, the first marked comment after publishing is the old first marked one (or the appended one), and it has the body |
| Comment.PublishIntendedIdempotent | src/comment.ts:72-116 | with the corrected search, publishing the same marked body a second time changes nothing |
| Comment.PageOfIndex | src/comment.ts:98-103 | an index of the listing lies on one of its pages |
| Comment.PageOffset | src/comment.ts:104-115 | the first hit is, on its page, the first hit, at its offset from the page start |
| Comment.PagedSearchMarked | src/comment.ts:104-115 | on the page of the first marked comment, that comment is the first marked one |
| Comment.PagesEnd | src/comment.ts:98-103 | the last page ends where the listing ends, so the consecutive pages together are the whole listing |
| Comment.CommentStore.ListComments | src/comment.ts:98-103 | the listing in pages of 100, all full but the last, each the next slice of the comments, the last ending at the end of the listing |
| Comment.CommentStore.UpdateComment | src/comment.ts:80-84 | the comment with the id gets the new body; nothing else changes |
| Comment.CommentStore.CreateComment | src/comment.ts:87-90 | one comment with the next id is appended |
| Comment.CommentStore.CommentSummary | src/comment.ts:72-91 | the store becomes `Publish` of its comments; it grows by one, and the id counter advances, exactly when no comment carries the marker |
| Comment.CommentStore.CommentSummaryIntended | src/comment.ts:72-116 | with the corrected search, the store becomes `PublishIntended` of its comments; it grows by one, and the id counter advances, exactly when no comment carries the marker |

## Left out

- Glob matching (`micromatch`) is the `Matcher` parameter and nothing is assumed about it. The path resolver `getPathResolver` comes from the Lunaria engine and is the `Resolver` parameter. `markdownTable` is the `Renderer` parameter.
- `getLunariaContext` is not modelled: locating the engine package, running it with `execa`, parsing its JSON and validating the configuration. Its output, the configuration and the status list, is an input. Its fatal paths (`core.setFailed`, `process.exit`) are left out too.
- The hosting platform's REST calls are not modelled: `pulls.get`, `pulls.listFiles`, the token input and the Octokit client. Their results are inputs, and the comment calls act on `CommentStore`. Network failures and the top-level `catch` that reports them are not modelled.
- `core.notice` messages on the skip paths are not modelled. The `Outcome` constructors name the skip instead.
- `scopedConfigSchema` in `src/config.ts` is a zod schema projection and is not modelled. `src/types.ts` holds only type aliases.
- Date parsing is not modelled: timestamps are integers, and a missing or unparsable date is `None`.
- Regex metacharacters inside keywords are not modelled: keywords are matched literally. Case folding covers ASCII letters only, with no Unicode case mapping.
- Action.RowFor: requires the file to be tracked. The source dereferences the result of `findFileConfig` without a check, and the entry point only ever passes tracked files.
- The lazy pagination of `octokit.paginate` is modelled as a loop over a sequence of pages. `fetched` counts the pages read.
- Comment.FindExistingCommentId: `fetched` counts the listing's pages, so with no comments it is 0; `octokit.paginate` still makes one request there, which returns an empty page.

## Findings

| source | as written | input that shows it | evidently intended | confidence | as-written member | corrected member |
|---|---|---|---|---|---|---|
| src/comment.ts:114-115 | `.flat().at(0)?.id` returns the id of the first comment on the first page holding a marked comment, so a foreign comment there is overwritten | one foreign comment `Comment(1, "Looks fine to me")`, published onto twice: two marked comments remain | the id of the marked comment itself, so that at most one comment carries the marker | not executed | Comment.SecondRunOverwritesForeign | Comment.PublishIntended |

The corrected search is proved to do what was intended: `Comment.PublishIntendedAddsNoMarked` shows that, once a comment is marked, publishing never adds a marked comment. `Comment.PublishIntendedKeepsOneMarked` shows that publishing onto a list with at most one marked comment leaves exactly one. `Comment.PublishIntendedIdempotent` shows that a second publish of the same body changes nothing. `Comment.CommentStore.CommentSummaryIntended` performs the corrected publish on the store.
