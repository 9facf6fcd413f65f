/** The summary comment: its fixed texts, how it is laid out, how an earlier one
    is found among a pull request's comments, and how it is published
    (src/comment.ts). */
module Comment {
  import opened Js

  // ---------------------------------------------------------------------------
  // Fixed texts
  // ---------------------------------------------------------------------------

  /** The hidden marker that identifies the action's own comment. */
  const Pragma := "<!-- lunaria-action-comment -->"

  const OverviewHeading := "## Lunaria Status Overview"
  const FilesHeading := "### Tracked Files"
  const WarningsSummary := "<summary>Warnings reference</summary>"

  /** The `notes` table: one fixed note per classification key. */
  const Notes: map<string, string> := map[
    "source-added" := "Source added, will be tracked.",
    "source-removed" := "Source removed, will stop being tracked.",
    "source-changed" := "Source changed, localizations will be marked as outdated.",
    "source-unchanged" := "Source unchanged, will be ignored.",
    "localization-added" := "Localization added, will be marked as complete.",
    "localization-removed" := "Localization removed, will be marked as missing.",
    "localization-changed" := "Localization changed, will be marked as complete.",
    "localization-unchanged" := "Localization unchanged, will be ignored."
  ]

  /** The eight classification keys: {source, localization} x {added, removed, changed, unchanged}. */
  const NoteKeys: set<string> := {
    "source-added", "source-removed", "source-changed", "source-unchanged",
    "localization-added", "localization-removed", "localization-changed", "localization-unchanged"
  }

  /** `notes` has exactly the eight classification keys, and they are distinct. */
  lemma NotesHasEightKeys()
    ensures Notes.Keys == NoteKeys
    ensures |NoteKeys| == 8
  {
    var src := {"source-added", "source-removed", "source-changed", "source-unchanged"};
    var loc := {"localization-added", "localization-removed", "localization-changed", "localization-unchanged"};
    assert "source-added"[1] == 'o' && "source-removed"[7] == 'r' && "source-changed"[7] == 'c';
    assert |src| == 4;
    assert "localization-added"[13] == 'a' && "localization-removed"[13] == 'r';
    assert "localization-changed"[13] == 'c';
    assert |loc| == 4;
    assert forall k :: k in src ==> k[0] == 's';
    assert forall k :: k in loc ==> k[0] == 'l';
    assert src * loc == {};
    assert NoteKeys == src + loc;
  }

  /** The warnings a file row can carry (`warnings`); only one exists. */
  datatype Warning = Outdated

  /** The kinds of warning, in declaration order. */
  const AllWarnings: seq<Warning> := [Outdated]

  /** An entry of `warnings`: the icon and the description of one kind. */
  datatype WarningInfo = WarningInfo(icon: string, description: string)

  function Icon(w: Warning): string
  {
    match w
    case Outdated => "\U{1F504}\U{FE0F}"
  }

  function Description(w: Warning): string
  {
    match w
    case Outdated => "The source for this localization has been updated since the creation of this pull request, make sure all changes in the source have been applied."
  }

  /** `Object.values(warnings)`: the entry of each kind, in declaration order. */
  function WarningValues(): (values: seq<WarningInfo>)
    ensures |values| == |AllWarnings|
  {
    seq(|AllWarnings|, i requires 0 <= i < |AllWarnings| =>
      WarningInfo(Icon(AllWarnings[i]), Description(AllWarnings[i])))
  }

  // ---------------------------------------------------------------------------
  // Templates
  // ---------------------------------------------------------------------------

  /** The parts occur in `s` at the given positions, each one after the previous:
      the last part at the last position, after all the others. */
  ghost predicate PlacedAt(s: string, parts: seq<string>, pos: seq<int>)
    decreases |parts|
  {
    && |pos| == |parts|
    && (|parts| > 0 ==>
         var n := |parts| - 1;
         && PlacedAt(s, parts[..n], pos[..n])
         && OccursAt(s, parts[n], pos[n])
         && (n > 0 ==> pos[n - 1] + |parts[n - 1]| <= pos[n]))
  }

  /** The parts occur in `s`, one after another and without overlapping. */
  ghost predicate InOrder(s: string, parts: seq<string>)
  {
    exists pos :: PlacedAt(s, parts, pos)
  }

  predicate IsPrefix(s: string, r: string)
  {
    |s| <= |r| && r[..|s|] == s
  }

  lemma Appended(s: string, t: string)
    ensures IsPrefix(s, s + t) && OccursAt(s + t, t, |s|)
  {
    assert (s + t)[..|s|] == s;
    assert (s + t)[|s|..|s| + |t|] == t;
  }

  lemma PrefixTrans(a: string, b: string, c: string)
    requires IsPrefix(a, b) && IsPrefix(b, c)
    ensures IsPrefix(a, c)
  {
    assert c[..|a|] == c[..|b|][..|a|];
  }

  lemma InPrefix(s: string, x: string, i: int, r: string)
    requires OccursAt(s, x, i) && IsPrefix(s, r)
    ensures OccursAt(r, x, i)
  {
    assert r[i..i + |x|] == r[..|s|][i..i + |x|];
  }

  /** The two overview templates differ in their second character, the moon. */
  const TrackedMoon := "\n\U{1F315} "
  const UntrackedMoon := "\n\U{1F311} "

  const OverviewTracked :=
    TrackedMoon + "**This pull request will trigger status changes.**\n\n<details>\n<summary>Learn more</summary>\n\n"
    + "By default, every PR changing files present in the [Lunaria configuration's `files` property](https://lunaria.dev/reference/configuration/#files-required) will be considered and trigger status changes accordingly.\n\n"
    + "You can change this by adding one of the keywords present in the [`ignoreKeywords` property in your Lunaria configuration file](https://lunaria.dev/reference/configuration/#ignorekeywords) in the PR's title (ignoring all files) or by [including a tracker directive](https://lunaria.dev/guides/tracking/#tracker-directives) in the merged commit's description. \n</details>"

  const UntrackedHead :=
    UntrackedMoon + "**This pull request will _not_ trigger status changes.**\n\n<details>\n<summary>Learn more</summary>\n\n"
    + "Lunaria automatically ignores changes on specific PRs by adding a ignored keyword in its title. Found: `"

  const UntrackedTail :=
    "`.\n\nYou can change this by either removing the keyword above from the PR's title, or modifying the [`ignoreKeywords` property in your Lunaria configuration file](https://lunaria.dev/reference/configuration/#ignorekeywords).\n</details>"

  /** `overviewUntracked(match)`: the untracked template with the matched keyword
      embedded verbatim; it is never the tracked template. */
  function OverviewUntracked(match_: string): (r: string)
    ensures OccursAt(r, match_, |UntrackedHead|)
    ensures r != OverviewTracked
  {
    var r := UntrackedHead + match_ + UntrackedTail;
    assert r[|UntrackedHead|..|UntrackedHead| + |match_|] == match_;
    assert |TrackedMoon| == 3 && |UntrackedMoon| == 3;
    assert r[1] == UntrackedMoon[1] != TrackedMoon[1] == OverviewTracked[1];
    r
  }

  /** A first part after a gap is placed right after the gap. */
  lemma PlaceFirst(g: string, x: string)
    ensures PlacedAt(g + x, [x], [|g|])
  {
    Appended(g, x);
    assert [x][..0] == [] && [|g|][..0] == [];
  }

  /** Placements survive appending anything. */
  lemma {:induction false} PlacedPrefix(s: string, parts: seq<string>, pos: seq<int>, r: string)
    requires PlacedAt(s, parts, pos) && IsPrefix(s, r)
    ensures PlacedAt(r, parts, pos)
    decreases |parts|
  {
    if |parts| > 0 {
      var n := |parts| - 1;
      PlacedPrefix(s, parts[..n], pos[..n], r);
      InPrefix(s, parts[n], pos[n], r);
    }
  }

  /** Appending a gap and one more part to a laid-out string keeps every earlier
      placement and places the new part after all of them. */
  lemma PlaceNext(s: string, parts: seq<string>, pos: seq<int>, g: string, x: string)
    requires PlacedAt(s, parts, pos)
    ensures PlacedAt(s + g + x, parts + [x], pos + [|s| + |g|])
  {
    var r := s + g + x;
    var n := |parts|;
    assert PlacedAt(r, parts, pos) by {
      Appended(s, g);
      Appended(s + g, x);
      PrefixTrans(s, s + g, r);
      PlacedPrefix(s, parts, pos, r);
    }
    assert OccursAt(r, x, |s| + |g|) by {
      Appended(s + g, x);
    }
    assert n > 0 ==> pos[n - 1] + |parts[n - 1]| <= |s| + |g| by {
      if n > 0 {
        assert OccursAt(s, parts[n - 1], pos[n - 1]);
      }
    }
    PlaceLast(r, parts, pos, x, |s| + |g|);
  }

  /** A part placed after all placed parts extends the layout. */
  lemma PlaceLast(r: string, parts: seq<string>, pos: seq<int>, x: string, q: int)
    requires PlacedAt(r, parts, pos) && OccursAt(r, x, q)
    requires |parts| > 0 ==> pos[|parts| - 1] + |parts[|parts| - 1]| <= q
    ensures PlacedAt(r, parts + [x], pos + [q])
  {
    var parts' := parts + [x];
    var pos' := pos + [q];
    var n := |parts|;
    assert parts'[..n] == parts && pos'[..n] == pos;
  }

  /** Two parts after their gaps are laid out one after another. */
  lemma Chain2(g0: string, x0: string, g1: string, x1: string)
    ensures PlacedAt(g0 + x0 + g1 + x1, [x0, x1], [|g0|, |g0| + |x0| + |g1|])
  {
    var s := g0 + x0;
    assert PlacedAt(s + g1 + x1, [x0] + [x1], [|g0|] + [|s| + |g1|]) by {
      PlaceFirst(g0, x0);
      PlaceNext(s, [x0], [|g0|], g1, x1);
    }
    assert [x0] + [x1] == [x0, x1];
    assert [|g0|] + [|s| + |g1|] == [|g0|, |g0| + |x0| + |g1|];
  }

  lemma Chain3(g0: string, x0: string, g1: string, x1: string, g2: string, x2: string)
    ensures var p1 := |g0| + |x0| + |g1|;
      PlacedAt(g0 + x0 + g1 + x1 + g2 + x2, [x0, x1, x2], [|g0|, p1, p1 + |x1| + |g2|])
  {
    var p1 := |g0| + |x0| + |g1|;
    var s := g0 + x0 + g1 + x1;
    var parts := [x0, x1];
    var pos := [|g0|, p1];
    assert PlacedAt(s + g2 + x2, parts + [x2], pos + [|s| + |g2|]) by {
      Chain2(g0, x0, g1, x1);
      PlaceNext(s, parts, pos, g2, x2);
    }
    assert parts + [x2] == [x0, x1, x2];
    assert pos + [|s| + |g2|] == [|g0|, p1, p1 + |x1| + |g2|];
  }

  lemma Chain4(g0: string, x0: string, g1: string, x1: string, g2: string, x2: string, g3: string, x3: string)
    ensures var p1 := |g0| + |x0| + |g1|;
      var p2 := p1 + |x1| + |g2|;
      PlacedAt(g0 + x0 + g1 + x1 + g2 + x2 + g3 + x3, [x0, x1, x2, x3], [|g0|, p1, p2, p2 + |x2| + |g3|])
  {
    var p1 := |g0| + |x0| + |g1|;
    var p2 := p1 + |x1| + |g2|;
    var s := g0 + x0 + g1 + x1 + g2 + x2;
    var parts := [x0, x1, x2];
    var pos := [|g0|, p1, p2];
    assert PlacedAt(s + g3 + x3, parts + [x3], pos + [|s| + |g3|]) by {
      Chain3(g0, x0, g1, x1, g2, x2);
      PlaceNext(s, parts, pos, g3, x3);
    }
    assert parts + [x3] == [x0, x1, x2, x3];
    assert pos + [|s| + |g3|] == [|g0|, p1, p2, p2 + |x2| + |g3|];
  }

  /** Three parts separated by gaps are laid out one after another. */
  lemma Layout3(g0: string, x0: string, g1: string, x1: string, g2: string, x2: string, g3: string)
    ensures var r := g0 + x0 + g1 + x1 + g2 + x2 + g3;
      var p1 := |g0| + |x0| + |g1|;
      var p2 := p1 + |x1| + |g2|;
      PlacedAt(r, [x0, x1, x2], [|g0|, p1, p2])
  {
    var s3 := g0 + x0 + g1 + x1 + g2 + x2;
    var p1 := |g0| + |x0| + |g1|;
    var parts := [x0, x1, x2];
    var pos := [|g0|, p1, p1 + |x1| + |g2|];
    assert PlacedAt(s3, parts, pos) by {
      Chain3(g0, x0, g1, x1, g2, x2);
    }
    assert IsPrefix(s3, s3 + g3) by {
      Appended(s3, g3);
    }
    PlacedPrefix(s3, parts, pos, s3 + g3);
  }

  /** Five parts separated by gaps are laid out one after another. */
  lemma Layout5(g0: string, x0: string, g1: string, x1: string, g2: string, x2: string,
                g3: string, x3: string, g4: string, x4: string)
    ensures var r := g0 + x0 + g1 + x1 + g2 + x2 + g3 + x3 + g4 + x4;
      var p1 := |g0| + |x0| + |g1|;
      var p2 := p1 + |x1| + |g2|;
      var p3 := p2 + |x2| + |g3|;
      var p4 := p3 + |x3| + |g4|;
      PlacedAt(r, [x0, x1, x2, x3, x4], [|g0|, p1, p2, p3, p4])
  {
    var p1 := |g0| + |x0| + |g1|;
    var p2 := p1 + |x1| + |g2|;
    var p3 := p2 + |x2| + |g3|;
    var s := g0 + x0 + g1 + x1 + g2 + x2 + g3 + x3;
    var parts := [x0, x1, x2, x3];
    var pos := [|g0|, p1, p2, p3];
    assert PlacedAt(s + g4 + x4, parts + [x4], pos + [|s| + |g4|]) by {
      Chain4(g0, x0, g1, x1, g2, x2, g3, x3);
      PlaceNext(s, parts, pos, g4, x4);
    }
    assert parts + [x4] == [x0, x1, x2, x3, x4];
    assert pos + [|s| + |g4|] == [|g0|, p1, p2, p3, p3 + |x3| + |g4|];
  }

  /** `trackedFilesDetails(filesTable, warningsTable)`: the files table, then the
      collapsible warnings reference holding the warnings table. */
  function TrackedFilesDetails(filesTable: string, warningsTable: string): (r: string)
    ensures OccursAt(r, filesTable, 1)
    ensures InOrder(r, [filesTable, WarningsSummary, warningsTable])
  {
    Layout3("\n", filesTable, "\n\n<details>\n", WarningsSummary, "\n\n", warningsTable, "\n\n</details>");
    "\n" + filesTable + "\n\n<details>\n" + WarningsSummary + "\n\n" + warningsTable + "\n\n</details>"
  }

  /** `body(overview, trackedFiles)`: the marker, the overview heading, the
      overview, the tracked-files heading and the files section, in that order. */
  function Body(overview: string, trackedFiles: string): (r: string)
    ensures OccursAt(r, Pragma, 1) && Includes(r, Pragma)
    ensures InOrder(r, [Pragma, OverviewHeading, overview, FilesHeading, trackedFiles])
  {
    Layout5("\n", Pragma, "\n\n", OverviewHeading, "\n\n", overview, "\n\n", FilesHeading, "\n\n", trackedFiles);
    var r := "\n" + Pragma + "\n\n" + OverviewHeading + "\n\n" + overview + "\n\n" + FilesHeading + "\n\n" + trackedFiles;
    IncludesAt(r, Pragma, 1);
    r
  }

  // ---------------------------------------------------------------------------
  // Finding the earlier comment
  // ---------------------------------------------------------------------------

  /** A comment as the issue-comment listing returns it; `body` may be null. */
  datatype Comment = Comment(id: nat, body: Option<string>)

  /** `comment.body?.includes(pragma)`. */
  predicate Marked(c: Comment)
    ensures Marked(c) <==> c.body.Some? && exists i :: OccursAt(c.body.value, Pragma, i)
  {
    c.body.Some? && Includes(c.body.value, Pragma)
  }

  /** Some element of the page satisfies `p`. */
  predicate AnyOn<T>(page: seq<T>, p: T -> bool)
  {
    exists k :: 0 <= k < |page| && p(page[k])
  }

  /** Some comment on the page carries the marker. */
  predicate HasMarked(page: seq<Comment>)
  {
    AnyOn(page, Marked)
  }

  /** The listing's page size (`per_page: 100`). */
  const PerPage := 100

  /** How many pages a listing of `n` elements takes. */
  function PageCount(n: nat): nat
  {
    (n + PerPage - 1) / PerPage
  }

  /** A listing, oldest first, cut into pages of `PerPage`: page `k` holds
      elements `k * PerPage` up to, not including, `(k + 1) * PerPage`. */
  function Pages<T>(s: seq<T>): (pages: seq<seq<T>>)
    ensures |pages| == PageCount(|s|)
    ensures forall k :: 0 <= k < |pages| ==> 0 < |pages[k]| <= PerPage
  {
    seq(PageCount(|s|), k requires 0 <= k < PageCount(|s|) =>
      s[k * PerPage .. if (k + 1) * PerPage <= |s| then (k + 1) * PerPage else |s|])
  }

  /** The pagination of `findExistingCommentId`: reads the pages one at a time
      and stops at the first page holding a marked comment. Like
      `octokit.paginate` with `done()`, that page's comments are all kept and
      earlier pages contribute nothing. `fetched` is the number of pages read:
      none after the one found. */
  method FetchUntilMarked(pages: seq<seq<Comment>>) returns (collected: seq<Comment>, fetched: nat)
    ensures fetched <= |pages|
    ensures FindIndex(pages, HasMarked).None? ==> collected == [] && fetched == |pages|
    ensures FindIndex(pages, HasMarked).Some? ==>
      var p := FindIndex(pages, HasMarked).value;
      fetched == p + 1 && collected == pages[p]
  {
    collected := [];
    var done := false;
    fetched := 0;
    while !done && fetched < |pages|
      invariant fetched <= |pages|
      invariant !done ==> collected == [] && forall j :: 0 <= j < fetched ==> !HasMarked(pages[j])
      invariant done ==> 0 < fetched && collected == pages[fetched - 1] && HasMarked(pages[fetched - 1])
      invariant done ==> forall j :: 0 <= j < fetched - 1 ==> !HasMarked(pages[j])
      decreases |pages| - fetched, if done then 0 else 1
    {
      var page := pages[fetched];
      fetched := fetched + 1;
      if FindIndex(page, Marked).Some? {
        done := true;
        collected := collected + page;
      }
    }
  }

  /** `findExistingCommentId`: `.flat().at(0)?.id` of the pages read, so the id
      returned is that of the marked page's FIRST comment, which need not be the
      marked one. */
  method FindExistingCommentId(pages: seq<seq<Comment>>) returns (id: Option<nat>, fetched: nat)
    ensures fetched <= |pages|
    ensures FindIndex(pages, HasMarked).None? ==> id == None && fetched == |pages|
    ensures FindIndex(pages, HasMarked).Some? ==>
      var p := FindIndex(pages, HasMarked).value;
      fetched == p + 1 && id == Some(pages[p][0].id)
  {
    var collected;
    collected, fetched := FetchUntilMarked(pages);
    id := if |collected| > 0 then Some(collected[0].id) else None;
  }

  /** The search with the marked comment's own id taken from the page read; this
      is what the search evidently means to return. */
  method FindMarkedCommentId(pages: seq<seq<Comment>>) returns (id: Option<nat>, fetched: nat)
    ensures fetched <= |pages|
    ensures FindIndex(pages, HasMarked).None? ==> id == None && fetched == |pages|
    ensures FindIndex(pages, HasMarked).Some? ==>
      var p := FindIndex(pages, HasMarked).value;
      fetched == p + 1 && FindIndex(pages[p], Marked).Some? &&
      id == Some(pages[p][FindIndex(pages[p], Marked).value].id)
  {
    var collected;
    collected, fetched := FetchUntilMarked(pages);
    var found := Find(collected, Marked);
    id := if found.Some? then Some(found.value.id) else None;
  }

  // ---------------------------------------------------------------------------
  // The search read off the flat comment list
  // ---------------------------------------------------------------------------

  /** The first comment, oldest first, that carries the marker. */
  function FirstMarked(cs: seq<Comment>): Option<nat>
  {
    FindIndex(cs, Marked)
  }

  /** The index of the first element on the page holding index `m`. */
  function PageStart(m: nat): (k: nat)
    ensures k <= m < k + PerPage && k % PerPage == 0
  {
    (m / PerPage) * PerPage
  }

  /** What `findExistingCommentId` returns over the listing of `cs`. */
  function ExistingCommentId(cs: seq<Comment>): (r: Option<nat>)
    ensures r.None? <==> FirstMarked(cs).None?
  {
    match FirstMarked(cs)
    case None => None
    case Some(m) => Some(cs[PageStart(m)].id)
  }

  /** The last page ends where the listing ends; with the pages being
      consecutive slices, together they are the whole listing. */
  lemma PagesEnd<T>(s: seq<T>)
    ensures |Pages(s)| > 0 ==> (|Pages(s)| - 1) * PerPage + |Pages(s)[|Pages(s)| - 1]| == |s|
  {
    if |s| > 0 {
      var k := PageCount(|s|) - 1;
      assert k * PerPage < |s| <= (k + 1) * PerPage;
    }
  }

  /** Element `i` of page `k` is element `k * PerPage + i` of the listing. */
  lemma PageElement<T>(s: seq<T>, k: nat, i: nat)
    requires k < |Pages(s)| && i < |Pages(s)[k]|
    ensures k * PerPage + i < |s| && Pages(s)[k][i] == s[k * PerPage + i]
  {
  }

  /** A page none of whose listing elements satisfies `p` has no element
      satisfying it. */
  lemma PageClear<T>(s: seq<T>, p: T -> bool, k: nat)
    requires k < |Pages(s)|
    requires forall j :: k * PerPage <= j < (k + 1) * PerPage && j < |s| ==> !p(s[j])
    ensures !AnyOn(Pages(s)[k], p)
  {
    var page := Pages(s)[k];
    forall i | 0 <= i < |page| ensures !p(page[i]) {
      PageElement(s, k, i);
    }
  }

  /** With no element satisfying `p`, no page has one. */
  lemma PagedFindNone<T>(s: seq<T>, p: T -> bool, q: seq<T> -> bool)
    requires forall page {:trigger q(page)} :: q(page) == AnyOn(page, p)
    requires FindIndex(s, p).None?
    ensures FindIndex(Pages(s), q).None?
  {
    var pages := Pages(s);
    forall k | 0 <= k < |pages| ensures !q(pages[k]) {
      PageClear(s, p, k);
    }
  }

  /** The pages before the page of the first element satisfying `p` have none. */
  lemma PagesBeforeClear<T>(s: seq<T>, p: T -> bool, q: seq<T> -> bool, k: nat)
    requires forall page {:trigger q(page)} :: q(page) == AnyOn(page, p)
    requires k <= |Pages(s)|
    requires forall j :: 0 <= j < k * PerPage && j < |s| ==> !p(s[j])
    ensures forall j :: 0 <= j < k ==> !q(Pages(s)[j])
  {
    var pages := Pages(s);
    forall j | 0 <= j < k ensures !q(pages[j]) {
      PageClear(s, p, j);
    }
  }

  /** The first page with an element satisfying `p` is the page of the first
      such element, and that page starts at `PageStart` of it. */
  lemma PagedFindSome<T>(s: seq<T>, p: T -> bool, q: seq<T> -> bool)
    requires forall page {:trigger q(page)} :: q(page) == AnyOn(page, p)
    requires FindIndex(s, p).Some?
    ensures var m := FindIndex(s, p).value;
      FindIndex(Pages(s), q) == Some(m / PerPage) &&
      Pages(s)[m / PerPage][0] == s[PageStart(m)]
  {
    var m := FindIndex(s, p).value;
    FirstPageWithHit(s, p, q, m);
    PageElement(s, m / PerPage, 0);
  }

  /** The page of the first element satisfying `p` is the first page with one. */
  lemma FirstPageWithHit<T>(s: seq<T>, p: T -> bool, q: seq<T> -> bool, m: nat)
    requires forall page {:trigger q(page)} :: q(page) == AnyOn(page, p)
    requires m < |s| && p(s[m])
    requires forall j :: 0 <= j < m ==> !p(s[j])
    ensures m / PerPage < |Pages(s)| && FindIndex(Pages(s), q) == Some(m / PerPage)
  {
    var pages := Pages(s);
    var k := m / PerPage;
    PageOffset(s, p, m);
    assert q(pages[k]);
    PagesBeforeClear(s, p, q, k);
    FindIndexAt(pages, q, k);
  }

  /** Paging does not change what is found: the first page with an element
      satisfying `p` is the page of the first such element, and that page
      starts at `PageStart` of it. */
  lemma PagedFind<T>(s: seq<T>, p: T -> bool, q: seq<T> -> bool)
    requires forall page {:trigger q(page)} :: q(page) == AnyOn(page, p)
    ensures FindIndex(Pages(s), q).None? <==> FindIndex(s, p).None?
    ensures FindIndex(s, p).Some? ==>
      var m := FindIndex(s, p).value;
      FindIndex(Pages(s), q) == Some(m / PerPage) &&
      Pages(s)[m / PerPage][0] == s[PageStart(m)]
  {
    if FindIndex(s, p).None? {
      PagedFindNone(s, p, q);
    } else {
      PagedFindSome(s, p, q);
    }
  }

  /** For the comment listing: the first marked page is the page of the first
      marked comment. */
  lemma PagedSearch(cs: seq<Comment>)
    ensures FindIndex(Pages(cs), HasMarked).None? <==> FirstMarked(cs).None?
    ensures FirstMarked(cs).Some? ==>
      var m := FirstMarked(cs).value;
      FindIndex(Pages(cs), HasMarked) == Some(m / PerPage) &&
      Pages(cs)[m / PerPage][0] == cs[PageStart(m)]
  {
    PagedFind(cs, Marked, HasMarked);
  }

  // ---------------------------------------------------------------------------
  // Publishing
  // ---------------------------------------------------------------------------

  /** Ids are positive, below `nextId`, and no two comments share one. */
  predicate IdsValid(cs: seq<Comment>, nextId: nat)
  {
    && (forall i :: 0 <= i < |cs| ==> 0 < cs[i].id < nextId)
    && (forall i, j :: 0 <= i < j < |cs| ==> cs[i].id != cs[j].id)
  }

  /** `issues.updateComment`: the comment with that id gets the new body. */
  function UpdateById(cs: seq<Comment>, id: nat, body: string): (r: seq<Comment>)
    ensures |r| == |cs|
    ensures forall i :: 0 <= i < |cs| ==> r[i].id == cs[i].id
    ensures forall i :: 0 <= i < |cs| && cs[i].id != id ==> r[i] == cs[i]
    ensures forall i :: 0 <= i < |cs| && cs[i].id == id ==> r[i].body == Some(body)
  {
    seq(|cs|, i requires 0 <= i < |cs| => if cs[i].id == id then Comment(id, Some(body)) else cs[i])
  }

  /** `commentSummary`: the comment list after publishing `body`. The found id is
      used only when it is truthy (non-zero), as in JavaScript. */
  function Publish(cs: seq<Comment>, freshId: nat, body: string): (r: seq<Comment>)
    ensures |cs| <= |r| <= |cs| + 1
    ensures forall i :: 0 <= i < |cs| ==> r[i].id == cs[i].id
    ensures forall i :: 0 <= i < |r| ==> r[i] in cs || r[i].body == Some(body)
  {
    var found := ExistingCommentId(cs);
    if found.Some? && found.value != 0 then UpdateById(cs, found.value, body)
    else cs + [Comment(freshId, Some(body))]
  }

  /** With distinct ids, updating by id replaces exactly one comment. */
  lemma UpdateByIdAt(cs: seq<Comment>, nextId: nat, k: nat, body: string)
    requires IdsValid(cs, nextId) && k < |cs|
    ensures UpdateById(cs, cs[k].id, body) == cs[k := Comment(cs[k].id, Some(body))]
    ensures IdsValid(cs[k := Comment(cs[k].id, Some(body))], nextId)
  {
  }

  /** When an earlier comment is found, publishing rewrites the body of the first
      comment on its page and nothing else; no comment is created. */
  lemma PublishUpdates(cs: seq<Comment>, freshId: nat, body: string)
    requires IdsValid(cs, freshId) && FirstMarked(cs).Some?
    ensures var k := PageStart(FirstMarked(cs).value);
      Publish(cs, freshId, body) == cs[k := Comment(cs[k].id, Some(body))]
  {
    var k := PageStart(FirstMarked(cs).value);
    UpdateByIdAt(cs, freshId, k, body);
  }

  /** When no comment carries the marker, publishing appends exactly one new
      comment and leaves every existing one as it was. */
  lemma PublishCreates(cs: seq<Comment>, freshId: nat, body: string)
    requires FirstMarked(cs).None?
    ensures Publish(cs, freshId, body) == cs + [Comment(freshId, Some(body))]
  {
  }

  /** Publishing keeps ids valid, the fresh id being used at most once. */
  lemma PublishKeepsIdsValid(cs: seq<Comment>, freshId: nat, body: string)
    requires IdsValid(cs, freshId) && freshId > 0
    ensures IdsValid(Publish(cs, freshId, body), freshId + 1)
  {
    if FirstMarked(cs).Some? {
      PublishUpdates(cs, freshId, body);
    }
  }

  /** The published comment can always be found again: publishing a body that
      carries the marker leaves a marked comment behind. */
  lemma PublishedIsFound(cs: seq<Comment>, freshId: nat, body: string)
    requires IdsValid(cs, freshId) && Includes(body, Pragma)
    ensures ExistingCommentId(Publish(cs, freshId, body)).Some?
  {
    var after := Publish(cs, freshId, body);
    if FirstMarked(cs).Some? {
      var k := PageStart(FirstMarked(cs).value);
      PublishUpdates(cs, freshId, body);
      assert Marked(after[k]);
    } else {
      assert Marked(after[|cs|]);
    }
  }

  /** Once a comment is marked, publishing updates it and no fresh id is used. */
  lemma PublishIgnoresFreshId(cs: seq<Comment>, freshId: nat, otherId: nat, body: string)
    requires IdsValid(cs, freshId) && FirstMarked(cs).Some?
    ensures Publish(cs, freshId, body) == Publish(cs, otherId, body)
  {
    assert cs[PageStart(FirstMarked(cs).value)].id != 0;
  }

  /** The comment list is settled for `body`: the first marked comment starts
      its page and already has `body`. */
  predicate Settled(cs: seq<Comment>, body: string)
  {
    && FirstMarked(cs).Some?
    && PageStart(FirstMarked(cs).value) == FirstMarked(cs).value
    && cs[FirstMarked(cs).value].body == Some(body)
  }

  /** Publishing onto a settled list changes nothing. */
  lemma SettledIsFixpoint(cs: seq<Comment>, freshId: nat, body: string)
    requires IdsValid(cs, freshId) && Settled(cs, body)
    ensures Publish(cs, freshId, body) == cs
  {
    var k := FirstMarked(cs).value;
    PublishUpdates(cs, freshId, body);
    assert cs[k := Comment(cs[k].id, Some(body))] == cs;
  }

  /** Rewriting the first comment of the first marked page with a marked body
      settles the list. */
  lemma RewriteSettles(cs: seq<Comment>, m: nat, body: string)
    requires m < |cs| && Marked(cs[m])
    requires forall j :: 0 <= j < m ==> !Marked(cs[j])
    requires Includes(body, Pragma)
    ensures var k := PageStart(m); Settled(cs[k := Comment(cs[k].id, Some(body))], body)
  {
    var k := PageStart(m);
    var after := cs[k := Comment(cs[k].id, Some(body))];
    assert Marked(after[k]);
    forall j | 0 <= j < k ensures !Marked(after[j]) {
      assert after[j] == cs[j];
    }
    FindIndexAt(after, Marked, k);
    assert k / PerPage * PerPage == k;
  }

  /** With no marked comment, the comment created is the first marked one. */
  lemma PublishCreatesMarked(cs: seq<Comment>, freshId: nat, body: string)
    requires FirstMarked(cs).None? && Includes(body, Pragma)
    ensures FirstMarked(Publish(cs, freshId, body)) == Some(|cs|)
  {
    var once := Publish(cs, freshId, body);
    PublishCreates(cs, freshId, body);
    assert Marked(once[|cs|]);
    forall j | 0 <= j < |cs| ensures !Marked(once[j]) {
      assert once[j] == cs[j];
    }
    FindIndexAt(once, Marked, |cs|);
  }

  /** Idempotence: with a body carrying the marker, a second run never creates a
      comment, and from then on publishing again changes nothing. */
  lemma {:induction false} PublishIdempotent(cs: seq<Comment>, freshId: nat, body: string)
    requires IdsValid(cs, freshId) && freshId > 0 && Includes(body, Pragma)
    ensures var once := Publish(cs, freshId, body);
      var twice := Publish(once, freshId + 1, body);
      |twice| == |once| && Settled(twice, body) &&
      Publish(twice, freshId + 2, body) == twice
    ensures FirstMarked(cs).Some? ==>
      Publish(Publish(cs, freshId, body), freshId + 1, body) == Publish(cs, freshId, body)
  {
    var once := Publish(cs, freshId, body);
    PublishKeepsIdsValid(cs, freshId, body);
    if FirstMarked(cs).Some? {
      var m := FirstMarked(cs).value;
      PublishUpdates(cs, freshId, body);
      RewriteSettles(cs, m, body);
      SettledIsFixpoint(once, freshId + 1, body);
    } else {
      PublishCreatesMarked(cs, freshId, body);
      PublishUpdates(once, freshId + 1, body);
      RewriteSettles(once, |cs|, body);
    }
    var twice := Publish(once, freshId + 1, body);
    PublishKeepsIdsValid(once, freshId + 1, body);
    SettledIsFixpoint(twice, freshId + 2, body);
  }

  /** Two consecutive publishes of a marked body, the second with the id
      counter as the first leaves it: one comment is added exactly when none
      was marked, and the list ends settled for the body. */
  lemma PublishTwice(cs: seq<Comment>, freshId: nat, body: string)
    requires IdsValid(cs, freshId) && freshId > 0 && Includes(body, Pragma)
    ensures var once := Publish(cs, freshId, body);
      var twice := Publish(once, freshId + (if FirstMarked(cs).None? then 1 else 0), body);
      |twice| == |cs| + (if FirstMarked(cs).None? then 1 else 0) && Settled(twice, body)
  {
    var once := Publish(cs, freshId, body);
    PublishIdempotent(cs, freshId, body);
    if FirstMarked(cs).Some? {
      PublishKeepsIdsValid(cs, freshId, body);
      PublishUpdates(cs, freshId, body);
      RewriteSettles(cs, FirstMarked(cs).value, body);
      PublishIgnoresFreshId(once, freshId, freshId + 1, body);
    } else {
      PublishCreates(cs, freshId, body);
    }
  }

  /** The id found is that of the first comment on the page, not necessarily the
      marked comment: here it is a foreign comment, which publishing overwrites. */
  lemma FoundIdMayBeForeign()
    ensures var cs := [Comment(1, Some("Looks fine to me")), Comment(2, Some(Pragma))];
      ExistingCommentId(cs) == Some(1) &&
      Publish(cs, 3, Pragma) == [Comment(1, Some(Pragma)), Comment(2, Some(Pragma))]
  {
    var cs := [Comment(1, Some("Looks fine to me")), Comment(2, Some(Pragma))];
    assert !Marked(cs[0]);
    assert OccursAt(Pragma, Pragma, 0);
    assert Marked(cs[1]);
    FindIndexAt(cs, Marked, 1);
    UpdateByIdAt(cs, 3, 0, Pragma);
  }

  /** No two comments carry the marker. */
  predicate AtMostOneMarked(cs: seq<Comment>)
  {
    forall i, j :: 0 <= i < j < |cs| ==> !(Marked(cs[i]) && Marked(cs[j]))
  }

  /** A second run on a pull request whose first comment is foreign overwrites
      that comment: the first run appends the marked comment, and the second
      finds the page it is on and rewrites the page's first comment, which
      leaves two marked comments. */
  lemma SecondRunOverwritesForeign()
    ensures var cs := [Comment(1, Some("Looks fine to me"))];
      var once := Publish(cs, 2, Pragma);
      var twice := Publish(once, 3, Pragma);
      && once == [Comment(1, Some("Looks fine to me")), Comment(2, Some(Pragma))]
      && twice == [Comment(1, Some(Pragma)), Comment(2, Some(Pragma))]
      && AtMostOneMarked(once) && !AtMostOneMarked(twice)
  {
    var cs := [Comment(1, Some("Looks fine to me"))];
    assert !Marked(cs[0]);
    assert FirstMarked(cs).None?;
    var once := Publish(cs, 2, Pragma);
    assert OccursAt(Pragma, Pragma, 0);
    assert Marked(once[1]);
    FindIndexAt(once, Marked, 1);
    UpdateByIdAt(once, 3, 0, Pragma);
    var twice := Publish(once, 3, Pragma);
    assert Marked(twice[0]) && Marked(twice[1]);
  }

  /** The id of the first marked comment itself. */
  function IntendedCommentId(cs: seq<Comment>): (r: Option<nat>)
    ensures r.None? <==> FirstMarked(cs).None?
    ensures r.Some? ==> exists m :: (0 <= m < |cs| && cs[m].id == r.value && Marked(cs[m]) &&
      forall j :: 0 <= j < m ==> !Marked(cs[j]))
  {
    match FirstMarked(cs)
    case None => None
    case Some(m) => Some(cs[m].id)
  }

  /** Publishing with the search corrected: the marked comment gets the body. */
  function PublishIntended(cs: seq<Comment>, freshId: nat, body: string): (r: seq<Comment>)
    ensures |cs| <= |r| <= |cs| + 1
    ensures forall i :: 0 <= i < |cs| ==> r[i].id == cs[i].id
    ensures forall i :: 0 <= i < |r| ==> r[i] in cs || r[i].body == Some(body)
  {
    var found := IntendedCommentId(cs);
    if found.Some? && found.value != 0 then UpdateById(cs, found.value, body)
    else cs + [Comment(freshId, Some(body))]
  }

  /** With the search corrected, publishing rewrites the first marked comment
      and nothing else, or appends one comment when none is marked. */
  lemma PublishIntendedAt(cs: seq<Comment>, freshId: nat, body: string)
    requires IdsValid(cs, freshId)
    ensures FirstMarked(cs).Some? ==> var m := FirstMarked(cs).value;
      PublishIntended(cs, freshId, body) == cs[m := Comment(cs[m].id, Some(body))]
    ensures FirstMarked(cs).None? ==> PublishIntended(cs, freshId, body) == cs + [Comment(freshId, Some(body))]
  {
    if FirstMarked(cs).Some? {
      UpdateByIdAt(cs, freshId, FirstMarked(cs).value, body);
    }
  }

  /** With the search corrected, publishing a marked body never leaves two
      marked comments behind. */
  lemma PublishIntendedKeepsOneMarked(cs: seq<Comment>, freshId: nat, body: string)
    requires IdsValid(cs, freshId) && AtMostOneMarked(cs) && Includes(body, Pragma)
    ensures AtMostOneMarked(PublishIntended(cs, freshId, body))
    ensures FirstMarked(PublishIntended(cs, freshId, body)).Some?
  {
    var after := PublishIntended(cs, freshId, body);
    PublishIntendedAt(cs, freshId, body);
    if FirstMarked(cs).Some? {
      var m := FirstMarked(cs).value;
      forall i, j | 0 <= i < j < |after| ensures !(Marked(after[i]) && Marked(after[j])) {
        if i != m && j != m {
          assert after[i] == cs[i] && after[j] == cs[j];
        } else if i == m {
          assert after[j] == cs[j];
        } else {
          assert after[i] == cs[i];
        }
      }
      FindIndexAt(after, Marked, m);
    } else {
      forall i, j | 0 <= i < j < |after| ensures !(Marked(after[i]) && Marked(after[j])) {
        assert after[i] == cs[i];
      }
      assert Marked(after[|cs|]);
    }
  }

  /** With the search corrected, publishing onto a list that already has a
      marked comment creates no comment and marks no comment that was not
      marked before, so it never adds a marked comment. */
  lemma PublishIntendedAddsNoMarked(cs: seq<Comment>, freshId: nat, body: string)
    requires IdsValid(cs, freshId) && FirstMarked(cs).Some?
    ensures var after := PublishIntended(cs, freshId, body);
      |after| == |cs| && forall i :: 0 <= i < |after| && Marked(after[i]) ==> Marked(cs[i])
  {
    var after := PublishIntended(cs, freshId, body);
    PublishIntendedAt(cs, freshId, body);
    var m := FirstMarked(cs).value;
    assert Marked(cs[m]);
    forall i | 0 <= i < |after| && i != m ensures after[i] == cs[i] {
    }
  }

  /** With the search corrected, publishing keeps ids valid. */
  lemma PublishIntendedKeepsIdsValid(cs: seq<Comment>, freshId: nat, body: string)
    requires IdsValid(cs, freshId) && freshId > 0
    ensures IdsValid(PublishIntended(cs, freshId, body), freshId + 1)
  {
    PublishIntendedAt(cs, freshId, body);
  }

  /** With the search corrected, after publishing a marked body the first marked
      comment is the one just written, and it has the body. */
  lemma PublishIntendedMarks(cs: seq<Comment>, freshId: nat, body: string)
    requires IdsValid(cs, freshId) && Includes(body, Pragma)
    ensures var once := PublishIntended(cs, freshId, body);
      var m := if FirstMarked(cs).Some? then FirstMarked(cs).value else |cs|;
      FirstMarked(once) == Some(m) && once[m] == Comment(once[m].id, Some(body))
  {
    var once := PublishIntended(cs, freshId, body);
    PublishIntendedAt(cs, freshId, body);
    var m := if FirstMarked(cs).Some? then FirstMarked(cs).value else |cs|;
    assert once[m].body == Some(body);
    forall j | 0 <= j < m ensures !Marked(once[j]) {
      assert once[j] == cs[j];
    }
    FindIndexAt(once, Marked, m);
  }

  /** With the search corrected, publishing the same body twice is publishing it
      once. */
  lemma PublishIntendedIdempotent(cs: seq<Comment>, freshId: nat, body: string)
    requires IdsValid(cs, freshId) && freshId > 0 && Includes(body, Pragma)
    ensures PublishIntended(PublishIntended(cs, freshId, body), freshId + 1, body) == PublishIntended(cs, freshId, body)
  {
    var once := PublishIntended(cs, freshId, body);
    PublishIntendedMarks(cs, freshId, body);
    PublishIntendedKeepsIdsValid(cs, freshId, body);
    PublishIntendedAt(once, freshId + 1, body);
    var m := FirstMarked(once).value;
    assert once[m := Comment(once[m].id, Some(body))] == once;
  }

  /** An index of a listing lies on one of its pages. */
  lemma PageOfIndex(m: nat, n: nat)
    requires m < n
    ensures m / PerPage < PageCount(n)
  {
  }

  /** The first element satisfying `p` is, on its page, the first element
      satisfying it, at its offset from the page start. */
  lemma PageOffset<T>(s: seq<T>, p: T -> bool, m: nat)
    requires m < |s| && p(s[m])
    requires forall j :: 0 <= j < m ==> !p(s[j])
    ensures m / PerPage < |Pages(s)|
    ensures var page := Pages(s)[m / PerPage];
      m - PageStart(m) < |page| && page[m - PageStart(m)] == s[m] &&
      FindIndex(page, p) == Some(m - PageStart(m))
  {
    PageOfIndex(m, |s|);
    var k := m / PerPage;
    var off := m - k * PerPage;
    var page := Pages(s)[k];
    assert |page| == (if (k + 1) * PerPage <= |s| then (k + 1) * PerPage else |s|) - k * PerPage;
    PageElement(s, k, off);
    forall i | 0 <= i < off ensures !p(page[i]) {
      PageElement(s, k, i);
    }
    FindIndexAt(page, p, off);
  }

  /** On the page of the first marked comment, that comment is the first marked
      one, at its offset from the page start. */
  lemma PagedSearchMarked(cs: seq<Comment>)
    requires FirstMarked(cs).Some?
    ensures var m := FirstMarked(cs).value;
      var page := Pages(cs)[m / PerPage];
      m / PerPage < |Pages(cs)| &&
      FindIndex(page, Marked) == Some(m - PageStart(m)) && page[m - PageStart(m)] == cs[m]
  {
    PageOffset(cs, Marked, FirstMarked(cs).value);
  }

  // ---------------------------------------------------------------------------
  // The pull request's comment store
  // ---------------------------------------------------------------------------

  /** The comments of one pull request as the hosting platform keeps them,
      oldest first; new comments get the next id. */
  class CommentStore {
    var comments: seq<Comment>
    var nextId: nat

    ghost predicate Valid()
      reads this
    {
      nextId > 0 && IdsValid(comments, nextId)
    }

    constructor (existing: seq<Comment>, nextId: nat)
      requires nextId > 0 && IdsValid(existing, nextId)
      ensures Valid() && comments == existing && this.nextId == nextId
    {
      comments := existing;
      this.nextId := nextId;
    }

    /** `issues.listComments` with `per_page: 100`. */
    function ListComments(): (pages: seq<seq<Comment>>)
      reads this
      ensures |pages| == PageCount(|comments|)
      ensures forall k :: 0 <= k < |pages| ==>
        k * PerPage + |pages[k]| <= |comments| &&
        pages[k] == comments[k * PerPage .. k * PerPage + |pages[k]|]
      ensures forall k :: 0 <= k < |pages| - 1 ==> |pages[k]| == PerPage
      ensures |pages| > 0 ==> (|pages| - 1) * PerPage + |pages[|pages| - 1]| == |comments|
    {
      PagesEnd(comments);
      Pages(comments)
    }

    /** `issues.updateComment`. */
    method UpdateComment(id: nat, body: string)
      modifies this
      ensures comments == UpdateById(old(comments), id, body) && nextId == old(nextId)
    {
      comments := UpdateById(comments, id, body);
    }

    /** `issues.createComment`. */
    method CreateComment(body: string) returns (id: nat)
      modifies this
      ensures id == old(nextId) && nextId == old(nextId) + 1
      ensures comments == old(comments) + [Comment(id, Some(body))]
    {
      id := nextId;
      comments := comments + [Comment(id, Some(body))];
      nextId := nextId + 1;
    }

    /** `commentSummary`: update the comment found, or create one. */
    method CommentSummary(body: string)
      requires Valid()
      modifies this
      ensures Valid()
      ensures comments == Publish(old(comments), old(nextId), body)
      ensures |comments| == |old(comments)| + (if FirstMarked(old(comments)).None? then 1 else 0)
      ensures nextId == old(nextId) + (if FirstMarked(old(comments)).None? then 1 else 0)
    {
      var existing, _ := FindExistingCommentId(ListComments());
      PagedSearch(comments);
      PublishKeepsIdsValid(comments, nextId, body);
      if FirstMarked(comments).Some? {
        PublishUpdates(comments, nextId, body);
      }
      if existing.Some? && existing.value != 0 {
        UpdateComment(existing.value, body);
      } else {
        var _ := CreateComment(body);
      }
    }

    /** `commentSummary` with the search corrected: the marked comment itself is
        updated, or one is created. */
    method CommentSummaryIntended(body: string)
      requires Valid()
      modifies this
      ensures Valid()
      ensures comments == PublishIntended(old(comments), old(nextId), body)
      ensures |comments| == |old(comments)| + (if FirstMarked(old(comments)).None? then 1 else 0)
      ensures nextId == old(nextId) + (if FirstMarked(old(comments)).None? then 1 else 0)
    {
      ghost var cs, freshId := comments, nextId;
      var existing, _ := FindMarkedCommentId(ListComments());
      PagedSearch(cs);
      PublishIntendedAt(cs, freshId, body);
      if FirstMarked(cs).Some? {
        PagedSearchMarked(cs);
      }
      if existing.Some? && existing.value != 0 {
        var m := FirstMarked(cs).value;
        assert existing.value == cs[m].id;
        UpdateByIdAt(cs, freshId, m, body);
        UpdateComment(existing.value, body);
      } else {
        assert FirstMarked(cs).None?;
        var _ := CreateComment(body);
      }
    }
  }
}
