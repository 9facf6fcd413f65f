/** The JavaScript built-ins the action relies on, modelled on Dafny sequences.
    Strings are sequences of characters; `undefined`/`null` is `None`. */
module Js {

  datatype Option<+T> = None | Some(value: T)

  // ---------------------------------------------------------------------------
  // String built-ins
  // ---------------------------------------------------------------------------

  /** `pat` occurs in `s` beginning at index `i`. */
  predicate OccursAt(s: string, pat: string, i: int)
  {
    0 <= i && i + |pat| <= |s| && s[i..i + |pat|] == pat
  }

  /** `s.indexOf(pat, from)`: the least index at or after `from` where `pat` occurs. */
  function IndexOfFrom(s: string, pat: string, from: nat): (r: Option<nat>)
    ensures r.Some? ==> from <= r.value && OccursAt(s, pat, r.value)
    ensures r.Some? ==> forall j :: from <= j < r.value ==> !OccursAt(s, pat, j)
    ensures r.None? ==> forall j :: from <= j ==> !OccursAt(s, pat, j)
    decreases |s| - from
  {
    if from + |pat| > |s| then None
    else if s[from..from + |pat|] == pat then Some(from)
    else IndexOfFrom(s, pat, from + 1)
  }

  /** `s.indexOf(pat)`, with -1 as `None`. */
  function IndexOf(s: string, pat: string): (r: Option<nat>)
    ensures r.Some? ==> OccursAt(s, pat, r.value)
    ensures r.Some? ==> forall j :: 0 <= j < r.value ==> !OccursAt(s, pat, j)
    ensures r.None? <==> forall j :: !OccursAt(s, pat, j)
  {
    IndexOfFrom(s, pat, 0)
  }

  /** `s.includes(pat)`. */
  predicate Includes(s: string, pat: string)
  {
    IndexOf(s, pat).Some?
  }

  /** `s.startsWith(prefix)`. */
  predicate StartsWith(s: string, prefix: string)
  {
    |prefix| <= |s| && s[..|prefix|] == prefix
  }

  /** `s.replace(pat, rep)` with a string pattern: only the first occurrence is replaced. */
  function Replace(s: string, pat: string, rep: string): (r: string)
    ensures IndexOf(s, pat).None? ==> r == s
    ensures IndexOf(s, pat).Some? ==> |r| == |s| - |pat| + |rep|
  {
    match IndexOf(s, pat)
    case None => s
    case Some(i) => s[..i] + rep + s[i + |pat|..]
  }

  /** Where `pat` first occurs, `replace` puts `rep` in its place and keeps the
      text before and after it. */
  lemma ReplaceCutsFirst(s: string, pat: string, rep: string)
    requires IndexOf(s, pat).Some?
    ensures var i, r := IndexOf(s, pat).value, Replace(s, pat, rep);
      OccursAt(r, rep, i) && r[..i] == s[..i] && r[i + |rep|..] == s[i + |pat|..]
  {
    var i := IndexOf(s, pat).value;
    var r := Replace(s, pat, rep);
    assert r == s[..i] + rep + s[i + |pat|..];
    assert r[..i] == s[..i];
    assert r[i..i + |rep|] == rep;
    assert r[i + |rep|..] == s[i + |pat|..];
  }

  lemma IncludesAt(s: string, pat: string, i: int)
    requires OccursAt(s, pat, i)
    ensures Includes(s, pat)
  {
  }

  /** Removing `pat` with `replace(pat, '')` changes the string exactly when `pat`
      is non-empty and occurs; it then takes out `|pat|` characters at the first
      occurrence and keeps everything else in order. */
  lemma {:induction false} ReplaceByEmpty(s: string, pat: string)
    ensures Replace(s, pat, "") != s <==> pat != "" && Includes(s, pat)
    ensures Replace(s, pat, "") != s ==>
      |Replace(s, pat, "")| == |s| - |pat| &&
      Replace(s, pat, "") == s[..IndexOf(s, pat).value] + s[IndexOf(s, pat).value + |pat|..]
    ensures |Replace(s, pat, "")| <= |s|
  {
    match IndexOf(s, pat)
    case None =>
    case Some(i) =>
      assert Replace(s, pat, "") == s[..i] + s[i + |pat|..];
      if pat == "" {
        assert s[..i] + s[i..] == s;
      }
  }

  /** A prefix is its own first occurrence, so `replace` strips it. */
  lemma ReplacePrefix(s: string, prefix: string)
    requires StartsWith(s, prefix)
    ensures Replace(s, prefix, "") == s[|prefix|..]
  {
    assert OccursAt(s, prefix, 0);
    assert IndexOf(s, prefix) == Some(0);
    assert s[..0] + "" + s[|prefix|..] == s[|prefix|..];
  }

  // ---------------------------------------------------------------------------
  // Case-insensitive comparison, ASCII letters only
  // ---------------------------------------------------------------------------

  /** Folds an ASCII capital letter to lower case; every other character is kept. */
  function AsciiLower(c: char): (d: char)
    ensures ('A' <= c <= 'Z') ==> d as int == c as int + 32
    ensures !('A' <= c <= 'Z') ==> d == c
  {
    if 'A' <= c <= 'Z' then (c as int + 32) as char else c
  }

  predicate EqualsIgnoreCase(a: string, b: string)
  {
    |a| == |b| && forall j :: 0 <= j < |a| ==> AsciiLower(a[j]) == AsciiLower(b[j])
  }

  // ---------------------------------------------------------------------------
  // Array built-ins
  // ---------------------------------------------------------------------------

  /** `s.findIndex(p)`, with -1 as `None`: the least index whose element satisfies `p`. */
  function FindIndex<T>(s: seq<T>, p: T -> bool): (r: Option<nat>)
    ensures r.Some? ==> r.value < |s| && p(s[r.value])
    ensures r.Some? ==> forall j :: 0 <= j < r.value ==> !p(s[j])
    ensures r.None? <==> forall j :: 0 <= j < |s| ==> !p(s[j])
  {
    if s == [] then None
    else if p(s[0]) then Some(0)
    else match FindIndex(s[1..], p)
      case None => None
      case Some(k) => Some(k + 1)
  }

  /** The contract of `FindIndex` determines it: an index whose element
      satisfies `p`, with none before it, is the one found. */
  lemma FindIndexAt<T>(s: seq<T>, p: T -> bool, k: nat)
    requires k < |s| && p(s[k])
    requires forall j :: 0 <= j < k ==> !p(s[j])
    ensures FindIndex(s, p) == Some(k)
  {
  }

  /** Elements after the first one satisfying `p` do not change what is found. */
  lemma FindIndexPrefix<T>(s: seq<T>, t: seq<T>, p: T -> bool)
    requires FindIndex(s, p).Some?
    ensures FindIndex(s + t, p) == FindIndex(s, p)
  {
    var k := FindIndex(s, p).value;
    assert (s + t)[k] == s[k];
    forall j | 0 <= j < k ensures !p((s + t)[j]) {
      assert (s + t)[j] == s[j];
    }
    FindIndexAt(s + t, p, k);
  }

  /** `s.find(p)`: the first element satisfying `p`. */
  function Find<T>(s: seq<T>, p: T -> bool): (r: Option<T>)
    ensures r.None? <==> forall j :: 0 <= j < |s| ==> !p(s[j])
    ensures r.Some? ==> FindIndex(s, p).Some? && r.value == s[FindIndex(s, p).value]
  {
    match FindIndex(s, p)
    case None => None
    case Some(k) => Some(s[k])
  }

  /** `s.every(p)`. */
  function Every<T>(s: seq<T>, p: T -> bool): (r: bool)
    ensures r <==> forall j :: 0 <= j < |s| ==> p(s[j])
  {
    if s == [] then true else p(s[0]) && Every(s[1..], p)
  }

  /** `a` is `b` with some elements left out and the rest kept in order. */
  predicate IsSubsequence<T(==)>(a: seq<T>, b: seq<T>)
    decreases |b|
  {
    if a == [] then true
    else if b == [] then false
    else (a[0] == b[0] && IsSubsequence(a[1..], b[1..])) || IsSubsequence(a, b[1..])
  }

  /** `s.filter(p)`: keeps exactly the elements satisfying `p`, in order. */
  function Filter<T(==,!new)>(s: seq<T>, p: T -> bool): (r: seq<T>)
    ensures forall j :: 0 <= j < |r| ==> r[j] in s && p(r[j])
    ensures forall j :: 0 <= j < |s| && p(s[j]) ==> s[j] in r
    ensures IsSubsequence(r, s)
    ensures |r| <= |s|
    ensures forall y :: multiset(r)[y] == if p(y) then multiset(s)[y] else 0
  {
    if s == [] then []
    else
      assert s == [s[0]] + s[1..];
      if p(s[0]) then [s[0]] + Filter(s[1..], p)
      else Filter(s[1..], p)
  }

  /** `s.map(f)`. */
  function Map<A, B>(s: seq<A>, f: A --> B): (r: seq<B>)
    requires forall i :: 0 <= i < |s| ==> f.requires(s[i])
  {
    seq(|s|, i requires 0 <= i < |s| => f(s[i]))
  }

  /** Mapping one more element appends its image. */
  lemma MapExtend<A, B>(s: seq<A>, n: nat, f: A --> B)
    requires n < |s| && forall i :: 0 <= i < |s| ==> f.requires(s[i])
    ensures Map(s[..n + 1], f) == Map(s[..n], f) + [f(s[n])]
  {
    var a := Map(s[..n + 1], f);
    var b := Map(s[..n], f) + [f(s[n])];
    forall i | 0 <= i < n + 1 ensures a[i] == b[i] {
      assert s[..n + 1][i] == s[i];
      if i < n {
        assert s[..n][i] == s[i];
      }
    }
  }

  /** `parts.join(sep)`. */
  function Join(parts: seq<string>, sep: string): (r: string)
    ensures parts == [] ==> r == ""
    ensures |parts| == 1 ==> r == parts[0]
  {
    if parts == [] then ""
    else if |parts| == 1 then parts[0]
    else parts[0] + sep + Join(parts[1..], sep)
  }
}
