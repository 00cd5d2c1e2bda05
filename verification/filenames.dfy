/** The file-name and date helpers shared by the downloaders: the
    `sanitizeFilename`/`cleanFileName` scheme (three copies in the source
    differing only in their fallback prefix), the date part of a publish
    time, and joining clean path segments. */
module FileNames {
  import opened Wrappers
  import opened Text

  /** The longest name the sanitiser returns, in bytes. */
  const MaxNameLength: nat := 200

  /** The bytes the sanitiser replaces: `< > : " | ? * / \`, the control
      bytes 0x00-0x1f and DEL. */
  predicate IsForbidden(c: char) {
    || c == '<' || c == '>' || c == ':' || c == '"' || c == '|'
    || c == '?' || c == '*' || c == '/' || c == '\\'
    || c as int <= 0x1f || c as int == 0x7f
  }

  predicate IsSafe(c: char) {
    !IsForbidden(c)
  }

  /** A name without forbidden bytes. */
  predicate IsSafeName(s: string) {
    forall k :: 0 <= k < |s| ==> IsSafe(s[k])
  }

  /** The bytes trimmed from both ends of a name. */
  const DotAndSpace: set<char> := {' ', '.'}

  predicate IsDotOrSpace(c: char) {
    c in DotAndSpace
  }

  /** Every forbidden byte becomes `_`; every other byte stays. */
  function ReplaceForbidden(s: string): (r: string)
    ensures |r| == |s|
    ensures forall k :: 0 <= k < |s| ==> r[k] == (if IsForbidden(s[k]) then '_' else s[k])
  {
    if |s| == 0 then ""
    else [if IsForbidden(s[0]) then '_' else s[0]] + ReplaceForbidden(s[1..])
  }

  /** A name without forbidden bytes is left as it is. */
  lemma ReplaceForbiddenOfSafe(s: string)
    requires IsSafeName(s)
    ensures ReplaceForbidden(s) == s
  {
  }

  /** The name after replacement and trimming, before the fallback and
      the length limit. */
  function Cleaned(name: string): string {
    Trim(ReplaceForbidden(name), DotAndSpace)
  }

  /** A fallback prefix the sanitiser can use: non-empty, safe, and not
      starting with a dot or space. */
  predicate IsFallbackPrefix(prefix: string) {
    |prefix| > 0 && IsSafeName(prefix) && !IsDotOrSpace(prefix[0])
  }

  /** `r` is the piece of `name` from offset `i` on with every forbidden
      byte replaced. */
  predicate IsReplacedSliceAt(r: string, name: string, i: int) {
    && 0 <= i <= |name| - |r|
    && forall k :: 0 <= k < |r| ==> r[k] == (if IsForbidden(name[i + k]) then '_' else name[i + k])
  }

  /** The sanitiser: replace forbidden bytes by `_`, trim spaces and dots
      from both ends, fall back to `prefix` followed by the Unix time
      `stamp` when nothing is left, and keep at most 200 bytes. */
  function Sanitize(name: string, prefix: string, stamp: int): (r: string)
    requires IsFallbackPrefix(prefix)
    ensures 0 < |r| <= MaxNameLength
    ensures IsSafeName(r)
    ensures !IsDotOrSpace(r[0])
    ensures Cleaned(name) == "" ==> r == Truncate(prefix + FormatInt(stamp), MaxNameLength)
    ensures Cleaned(name) != "" ==> |r| <= |Cleaned(name)| && r == Cleaned(name)[..|r|]
    ensures |Cleaned(name)| > MaxNameLength ==> |r| == MaxNameLength
    ensures Cleaned(name) != "" ==> exists i :: IsReplacedSliceAt(r, name, i)
    ensures Cleaned(name) != "" && |Cleaned(name)| <= MaxNameLength ==>
              r == Cleaned(name) && !IsDotOrSpace(r[|r| - 1])
  {
    var clean := Cleaned(name);
    if clean == "" then
      FallbackSafe(prefix, stamp);
      Truncate(prefix + FormatInt(stamp), MaxNameLength)
    else
      CleanedSafe(name);
      TruncatedClean(clean);
      CleanedIsReplacedSlice(name, |Truncate(clean, MaxNameLength)|);
      Truncate(clean, MaxNameLength)
  }

  /** The cleaned name is safe and neither starts nor ends with a dot or
      space. */
  lemma CleanedSafe(name: string)
    ensures IsSafeName(Cleaned(name))
    ensures |Cleaned(name)| > 0 ==>
      !IsDotOrSpace(Cleaned(name)[0]) && !IsDotOrSpace(Cleaned(name)[|Cleaned(name)| - 1])
  {
    var replaced := ReplaceForbidden(name);
    var c := Cleaned(name);
    var i :| IsSliceAt(c, replaced, i);
    ReplacedIsSafe(name);
    SafeSlice(c, replaced, i);
  }

  /** Replacement leaves no forbidden byte. */
  lemma ReplacedIsSafe(name: string)
    ensures IsSafeName(ReplaceForbidden(name))
  {
  }

  /** Every piece of a safe name is safe. */
  lemma SafeSlice(c: string, s: string, i: int)
    requires IsSafeName(s) && IsSliceAt(c, s, i)
    ensures IsSafeName(c)
  {
    forall k | 0 <= k < |c| ensures IsSafe(c[k]) {
      assert c[k] == s[i + k];
    }
  }

  /** What cutting a clean name to the limit keeps: a non-empty safe name
      whose first byte is unchanged, and whose last byte is unchanged when
      nothing was cut. */
  lemma TruncatedClean(c: string)
    requires c != "" && IsSafeName(c)
    requires !IsDotOrSpace(c[0]) && !IsDotOrSpace(c[|c| - 1])
    ensures var r := Truncate(c, MaxNameLength);
      && 0 < |r| <= MaxNameLength
      && IsSafeName(r)
      && !IsDotOrSpace(r[0])
      && (|c| <= MaxNameLength ==> r == c)
  {
    var r := Truncate(c, MaxNameLength);
    SafePrefix(c, |r|);
  }

  /** Every prefix of a safe name is safe. */
  lemma SafePrefix(c: string, n: nat)
    requires n <= |c| && IsSafeName(c)
    ensures IsSafeName(c[..n])
  {
    forall k | 0 <= k < n ensures IsSafe(c[..n][k]) {
      assert c[..n][k] == c[k];
    }
  }

  /** The fallback name is safe. */
  lemma FallbackSafe(prefix: string, stamp: int)
    requires IsFallbackPrefix(prefix)
    ensures var named := prefix + FormatInt(stamp);
      IsSafeName(named) && named[0] == prefix[0]
  {
    var named := prefix + FormatInt(stamp);
    forall k | 0 <= k < |named| ensures IsSafe(named[k]) {
      if k >= |prefix| {
        assert named[k] == FormatInt(stamp)[k - |prefix|];
      }
    }
  }

  /** Every prefix of the cleaned name is a replaced piece of the name. */
  lemma CleanedIsReplacedSlice(name: string, n: nat)
    requires n <= |Cleaned(name)|
    ensures exists i :: IsReplacedSliceAt(Cleaned(name)[..n], name, i)
  {
    var replaced := ReplaceForbidden(name);
    var clean := Cleaned(name);
    var i :| IsSliceAt(clean, replaced, i);
    var r := clean[..n];
    forall k | 0 <= k < |r| ensures r[k] == (if IsForbidden(name[i + k]) then '_' else name[i + k]) {
      assert r[k] == replaced[i + k];
    }
    assert IsReplacedSliceAt(r, name, i);
  }

  /** A name that is already safe, has no dot or space at either end and
      fits the limit comes back unchanged. */
  lemma SanitizeKeepsCleanName(name: string, prefix: string, stamp: int)
    requires IsFallbackPrefix(prefix)
    requires 0 < |name| <= MaxNameLength && IsSafeName(name)
    requires !IsDotOrSpace(name[0]) && !IsDotOrSpace(name[|name| - 1])
    ensures Sanitize(name, prefix, stamp) == name
  {
    ReplaceForbiddenOfSafe(name);
    TrimUnchanged(name, DotAndSpace);
  }

  /** Sanitising twice changes nothing more, whatever the second time
      stamp, unless the length limit cut the first result right after a
      dot or space. */
  lemma SanitizeIdempotent(name: string, prefix: string, stamp: int, stamp2: int)
    requires IsFallbackPrefix(prefix)
    requires var r := Sanitize(name, prefix, stamp); !IsDotOrSpace(r[|r| - 1])
    ensures var r := Sanitize(name, prefix, stamp); Sanitize(r, prefix, stamp2) == r
  {
    SanitizeKeepsCleanName(Sanitize(name, prefix, stamp), prefix, stamp2);
  }

  /** A sanitised name is one plain path segment: no separator, and neither
      `.` nor `..`. */
  lemma SanitizedIsSegment(name: string, prefix: string, stamp: int)
    requires IsFallbackPrefix(prefix)
    ensures IsSegment(Sanitize(name, prefix, stamp))
  {
    var r := Sanitize(name, prefix, stamp);
    assert forall k :: 0 <= k < |r| ==> r[k] != '/' by {
      forall k | 0 <= k < |r| ensures r[k] != '/' {
        assert IsSafe(r[k]);
      }
    }
  }

  /** A name that `filepath.Join` keeps as it is: non-empty, without a
      separator, and not `.` or `..`. */
  predicate IsSegment(s: string) {
    |s| > 0 && '/' !in s && s[0] != '.'
  }

  /** A safe name with no dot or space at either end that is longer than
      the limit comes back cut to its first 200 bytes. */
  lemma SanitizeCutsCleanName(name: string, prefix: string, stamp: int)
    requires IsFallbackPrefix(prefix)
    requires |name| > MaxNameLength && IsSafeName(name)
    requires !IsDotOrSpace(name[0]) && !IsDotOrSpace(name[|name| - 1])
    ensures Sanitize(name, prefix, stamp) == name[..MaxNameLength]
  {
    ReplaceForbiddenOfSafe(name);
    TrimUnchanged(name, DotAndSpace);
  }

  /** A title of 199 `a`s, a space and one more `a`: nothing is replaced
      or trimmed, and cutting it to 200 bytes leaves a trailing space. */
  lemma SanitizeCanEndInSpace(prefix: string, stamp: int)
    requires IsFallbackPrefix(prefix)
    ensures var name := seq(201, k => if k == 199 then ' ' else 'a');
      var r := Sanitize(name, prefix, stamp);
      |r| == 200 && r[199] == ' '
  {
    var name := seq(201, k => if k == 199 then ' ' else 'a');
    assert IsSafeName(name) by {
      forall k | 0 <= k < |name| ensures IsSafe(name[k]) {
      }
    }
    SanitizeCutsCleanName(name, prefix, stamp);
  }

  // ---------------------------------------------------------------------------
  // Publish dates
  // ---------------------------------------------------------------------------

  /** The date part of a publish time: its first 10 bytes, or all of it
      when shorter (the `publishDate` of `generateArticleHTML`). */
  function DatePart(publishAt: string): (d: string)
    ensures |publishAt| >= 10 ==> d == publishAt[..10]
    ensures |publishAt| < 10 ==> d == publishAt
  {
    if |publishAt| >= 10 then publishAt[..10] else publishAt
  }

  /** The date part is the publish time cut to 10 bytes. */
  lemma DatePartIsTruncate(publishAt: string)
    ensures DatePart(publishAt) == Truncate(publishAt, 10)
  {
  }

  /** `formatPublishDate`: the first 10 bytes with `-` turned into `/`
      when there are at least 10 bytes; a shorter time is returned as it is,
      dashes included. */
  function FormatPublishDate(publishAt: string): (r: string)
    ensures |publishAt| >= 10 ==> |r| == 10 && '-' !in r
    ensures |publishAt| >= 10 ==> forall k :: 0 <= k < 10 ==>
              r[k] == (if publishAt[k] == '-' then '/' else publishAt[k])
    ensures |publishAt| < 10 ==> r == publishAt
  {
    if |publishAt| >= 10 then ReplaceByte(publishAt[..10], '-', '/') else publishAt
  }

  /** The formatted date and the directory's date part differ only in
      `-` becoming `/`, and only when the time has at least 10 bytes. */
  lemma FormatPublishDateOfDatePart(publishAt: string)
    ensures |publishAt| >= 10 ==> FormatPublishDate(publishAt) == ReplaceByte(DatePart(publishAt), '-', '/')
    ensures |publishAt| < 10 ==> FormatPublishDate(publishAt) == DatePart(publishAt)
  {
  }

  /** An ISO time `2024-12-18T10:00:00` formats to `2024/12/18`. */
  lemma FormatPublishDateExample()
    ensures FormatPublishDate("2024-12-18T10:00:00") == "2024/12/18"
  {
    var s := "2024-12-18T10:00:00";
    assert s[..10] == "2024-12-18";
    DashesToSlashes();
  }

  /** The date `2024-12-18` with its dashes replaced reads `2024/12/18`. */
  lemma DashesToSlashes()
    ensures ReplaceByte("2024-12-18", '-', '/') == "2024/12/18"
  {
    var d := "2024-12-18";
    var want := "2024/12/18";
    var r := ReplaceByte(d, '-', '/');
    forall k | 0 <= k < 10 ensures r[k] == want[k] {
    }
  }

  /** The article directory name `[<date>] <name>`, with `title` already
      sanitised by the caller's copy of the sanitiser. */
  function ArticleDirName(publishAt: string, cleanTitle: string): (r: string)
    ensures |r| == |DatePart(publishAt)| + |cleanTitle| + 3
    ensures r[0] == '[' && r[1..1 + |DatePart(publishAt)|] == DatePart(publishAt)
    ensures r[1 + |DatePart(publishAt)|..3 + |DatePart(publishAt)|] == "] "
    ensures r[3 + |DatePart(publishAt)|..] == cleanTitle
  {
    "[" + DatePart(publishAt) + "] " + cleanTitle
  }

  // ---------------------------------------------------------------------------
  // Paths
  // ---------------------------------------------------------------------------

  /** `filepath.Join(base, segments...)` for a base directory that is
      already clean and segments that `IsSegment`: the pieces with `/`
      between them. */
  function JoinPath(base: string, segments: seq<string>): (p: string)
    ensures |segments| > 0 && base != "" ==> |p| > |base| && p[..|base| + 1] == base + "/"
  {
    if base == "" then Join(segments, '/') else base + "/" + Join(segments, '/')
  }

  /** A path built from a base and segments starts with the base and a
      separator, and what follows splits back into exactly the segments. */
  lemma JoinPathSplits(base: string, segments: seq<string>)
    requires base != "" && |segments| > 0
    requires forall k :: 0 <= k < |segments| ==> IsSegment(segments[k])
    ensures var p := JoinPath(base, segments);
      |p| > |base| && p[..|base| + 1] == base + "/"
      && Split(p[|base| + 1..], '/') == segments
  {
    var p := JoinPath(base, segments);
    assert p[|base| + 1..] == Join(segments, '/');
    SplitJoin(segments, '/');
  }

  /** With a one-piece base, the joined path is the plain join of the base
      and the segments, so it splits back into exactly those pieces. */
  lemma JoinPathOfPlainBase(base: string, segments: seq<string>)
    requires IsSegment(base) && |segments| > 0
    requires forall k :: 0 <= k < |segments| ==> IsSegment(segments[k])
    ensures JoinPath(base, segments) == Join([base] + segments, '/')
    ensures Split(JoinPath(base, segments), '/') == [base] + segments
  {
    var parts := [base] + segments;
    JoinCons(base, segments, '/');
    forall k | 0 <= k < |parts| ensures IsSegment(parts[k]) {
      if k > 0 {
        assert parts[k] == segments[k - 1];
      }
    }
    SplitJoin(parts, '/');
  }

  /** `JoinPathSplits` for two segments. */
  lemma JoinPathSplitsPair(base: string, a: string, b: string)
    requires base != "" && IsSegment(a) && IsSegment(b)
    ensures var p := JoinPath(base, [a, b]);
      HasPrefix(p, base + "/") && Split(p[|base| + 1..], '/') == [a, b]
  {
    JoinPathSplits(base, [a, b]);
  }

  /** `JoinPathOfPlainBase` for two segments. */
  lemma JoinPathOfPlainPair(base: string, a: string, b: string)
    requires IsSegment(base) && IsSegment(a) && IsSegment(b)
    ensures Split(JoinPath(base, [a, b]), '/') == [base, a, b]
  {
    JoinPathOfPlainBase(base, [a, b]);
  }
}
