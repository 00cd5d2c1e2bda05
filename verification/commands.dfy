/** The pure helpers of the interactive downloader `cmd/ncpd/main.go`:
    the menu flags, the live-archive test, where a video is saved, the
    article directory name, the elapsed-time display and the filter that
    turns selected indices into videos. */
module NcpdMain {
  import opened Wrappers
  import opened Text
  import opened FileNames
  import Auth
  import opened Videos
  import News

  // ---------------------------------------------------------------------------
  // Menu flags
  // ---------------------------------------------------------------------------

  /** `DownloadOptions`: what the user chose to download. */
  datatype DownloadOptions = DownloadOptions(
    video: bool,
    videoDetails: bool,
    thumbnail: bool,
    danmaku: bool,
    news: bool)

  /** The five flags, in declaration order. */
  function Flags(o: DownloadOptions): seq<bool> {
    [o.video, o.videoDetails, o.thumbnail, o.danmaku, o.news]
  }

  /** `HasAnySelection`. */
  function HasAnySelection(o: DownloadOptions): (b: bool)
    ensures b <==> true in Flags(o)
    ensures !b <==> o == DownloadOptions(false, false, false, false, false)
  {
    o.video || o.videoDetails || o.thumbnail || o.danmaku || o.news
  }

  /** Turning on any one flag makes a selection. */
  lemma AnyFlagSelects(o: DownloadOptions, k: nat)
    requires k < 5 && Flags(o)[k]
    ensures HasAnySelection(o)
  {
  }

  // ---------------------------------------------------------------------------
  // Live archives and where videos go
  // ---------------------------------------------------------------------------

  /** The file type of a recorded live stream. */
  const ArchivedType: string := "archived"

  /** The active file is typed as a recorded live stream. */
  predicate HasArchivedFile(v: VideoDetails) {
    && v.activeVideoFilename.Some?
    && v.activeVideoFilename.value.filenameType.Some?
    && v.activeVideoFilename.value.filenameType.value.value == ArchivedType
  }

  /** `isLiveArchive`: the active file is an archive, or the video has a
      live start time. */
  function IsLiveArchive(v: VideoDetails): (b: bool)
    ensures b <==> HasArchivedFile(v) || v.liveStartedAt.Some?
  {
    if v.activeVideoFilename.Some?
       && v.activeVideoFilename.value.filenameType.Some?
       && v.activeVideoFilename.value.filenameType.value.value == ArchivedType then true
    else if v.liveStartedAt.Some? then true
    else false
  }

  /** A video with no active file type and no live start is an ordinary
      upload, whatever else it carries. */
  lemma UploadIsNotLiveArchive(v: VideoDetails)
    requires v.liveStartedAt.None?
    requires v.activeVideoFilename.None? || v.activeVideoFilename.value.filenameType.None?
    ensures !IsLiveArchive(v)
  {
  }

  /** The fallback prefix of this copy of the sanitiser. */
  const UntitledPrefix: string := "untitled_"

  /** `sanitizeFilename`: the sanitiser with the `untitled_` fallback;
      `stamp` is the Unix time of the call. */
  function SanitizeFilename(name: string, stamp: int): (r: string)
    ensures 0 < |r| <= MaxNameLength && IsSafeName(r) && IsSegment(r)
    ensures Cleaned(name) == "" ==> HasPrefix(r, UntitledPrefix)
    ensures Cleaned(name) != "" ==> exists i :: IsReplacedSliceAt(r, name, i)
  {
    var r := Sanitize(name, UntitledPrefix, stamp);
    SanitizedIsSegment(name, UntitledPrefix, stamp);
    assert Cleaned(name) == "" ==> r[..|UntitledPrefix|] == UntitledPrefix by {
      if Cleaned(name) == "" {
        assert r == Truncate(UntitledPrefix + FormatInt(stamp), MaxNameLength);
      }
    }
    r
  }

  /** The directory for live archives. */
  const LiveDir: string := "生放送"

  /** The directory for ordinary videos. */
  const VideoDir: string := "動画"

  /** The directory kind `getSavePathAndName` picks for a video. */
  function Kind(v: VideoDetails): (k: string)
    ensures IsSegment(k)
  {
    if IsLiveArchive(v) then LiveDir else VideoDir
  }

  /** `getSavePathAndName`: the directory a video is saved in and the name
      it is saved under. The directory is `base/<kind>/<name>`. */
  function GetSavePathAndName(v: VideoDetails, base: string, stamp: int): (r: (string, string))
    ensures r.1 == SanitizeFilename(v.title, stamp)
    ensures IsLiveArchive(v) ==> r.0 == JoinPath(base, [LiveDir, r.1])
    ensures !IsLiveArchive(v) ==> r.0 == JoinPath(base, [VideoDir, r.1])
  {
    var cleanTitle := SanitizeFilename(v.title, stamp);
    if IsLiveArchive(v) then (JoinPath(base, [LiveDir, cleanTitle]), cleanTitle)
    else (JoinPath(base, [VideoDir, cleanTitle]), cleanTitle)
  }

  /** Under a non-empty base, the save directory's last two pieces are the
      kind of video and the name: live archives and ordinary videos never
      share a directory, and two videos share one only if their names
      agree. */
  lemma SavePathPieces(v: VideoDetails, base: string, stamp: int)
    requires base != ""
    ensures var r := GetSavePathAndName(v, base, stamp);
      && HasPrefix(r.0, base + "/")
      && Split(r.0[|base| + 1..], '/') == [Kind(v), r.1]
  {
    var r := GetSavePathAndName(v, base, stamp);
    var kind, name := Kind(v), r.1;
    assert r.0 == JoinPath(base, [kind, name]);
    assert IsSegment(name);
    JoinPathSplitsPair(base, kind, name);
  }

  // ---------------------------------------------------------------------------
  // Article directories
  // ---------------------------------------------------------------------------

  /** The directory name `generateArticleHTML` gives an article:
      `[<date>] <sanitised title>`. */
  function ArticleDir(a: News.Article, stamp: int): (r: string)
    ensures HasPrefix(r, "[" + DatePart(a.publishAt) + "] ")
    ensures r[3 + |DatePart(a.publishAt)|..] == SanitizeFilename(a.title, stamp)
  {
    var r := ArticleDirName(a.publishAt, SanitizeFilename(a.title, stamp));
    assert r[..3 + |DatePart(a.publishAt)|] == "[" + DatePart(a.publishAt) + "] ";
    r
  }

  // ---------------------------------------------------------------------------
  // Elapsed time
  // ---------------------------------------------------------------------------

  /** `time.Minute` and `time.Hour`, in nanoseconds. */
  const Minute: int := 60 * Auth.Second
  const Hour: int := 60 * Minute

  /** What `formatDuration` prints: under a minute, the (rounded) seconds,
      which are not modelled; otherwise minutes and seconds, or hours,
      minutes and seconds. */
  datatype Elapsed =
    | UnderMinute(nanos: int)
    | MinutesSeconds(minutes: int, seconds: int)
    | HoursMinutesSeconds(hours: int, minutes: int, seconds: int)

  /** `formatDuration` for a duration `d` in nanoseconds. The float
      conversions `int(d.Minutes())` and so on are taken as integer
      division. */
  function FormatDuration(d: int): (e: Elapsed)
    ensures e.UnderMinute? <==> d < Minute
    ensures e.MinutesSeconds? <==> Minute <= d < Hour
    ensures e.MinutesSeconds? ==>
      && 1 <= e.minutes < 60 && 0 <= e.seconds < 60
      && e.minutes * 60 + e.seconds == d / Auth.Second
    ensures e.HoursMinutesSeconds? ==>
      && 1 <= e.hours && 0 <= e.minutes < 60 && 0 <= e.seconds < 60
      && e.hours * 3600 + e.minutes * 60 + e.seconds == d / Auth.Second
  {
    if d < Minute then UnderMinute(d)
    else
      WholeUnits(d);
      var s := d / Auth.Second;
      SplitSeconds(s);
      if d < Hour then MinutesSeconds(d / Minute, s % 60)
      else HoursMinutesSeconds(d / Hour, (d / Minute) % 60, s % 60)
  }

  /** Whole minutes and hours are whole seconds divided by 60 and 3600. */
  lemma WholeUnits(d: int)
    requires 0 <= d
    ensures d / Minute == (d / Auth.Second) / 60
    ensures d / Hour == (d / Auth.Second) / 3600
    ensures d < Hour ==> d / Minute < 60
    ensures Minute <= d ==> 1 <= d / Minute
    ensures Hour <= d ==> 1 <= d / Hour
  {
  }

  /** A count of seconds is its minutes and seconds, and its hours,
      minutes and seconds. */
  lemma SplitSeconds(s: int)
    requires 0 <= s
    ensures (s / 60) * 60 + s % 60 == s
    ensures (s / 3600) * 3600 + ((s / 60) % 60) * 60 + s % 60 == s
  {
  }

  /** The minutes-and-seconds display is the only split of the whole
      seconds into a minute count and fewer than 60 seconds. */
  lemma MinutesSecondsUnique(d: int, m: int, s: int)
    requires Minute <= d < Hour
    requires 0 <= s < 60 && m * 60 + s == d / Auth.Second
    ensures FormatDuration(d) == MinutesSeconds(m, s)
  {
    var e := FormatDuration(d);
  }

  // ---------------------------------------------------------------------------
  // Selected videos
  // ---------------------------------------------------------------------------

  /** The selected indices that fall inside a list of `n` videos, in the
      order selected: the reference meaning of the filter. */
  function InRange(n: nat, selected: seq<int>): (r: seq<nat>)
    ensures |r| <= |selected|
    ensures forall k :: 0 <= k < |r| ==> r[k] < n
  {
    if |selected| == 0 then []
    else
      var last := selected[|selected| - 1];
      InRange(n, selected[..|selected| - 1]) + (if 0 <= last < n then [last as nat] else [])
  }

  /** An index is kept exactly when it was selected and is in range. */
  lemma {:induction false} InRangeMembers(n: nat, selected: seq<int>, x: int)
    ensures x in InRange(n, selected) <==> x in selected && 0 <= x < n
  {
    if |selected| > 0 {
      var init := selected[..|selected| - 1];
      InRangeMembers(n, init, x);
      assert selected == init + [selected[|selected| - 1]];
    }
  }

  /** Filtering a selection made in two parts filters each part, in
      order: the filter keeps the order of the selection. */
  lemma {:induction false} InRangeAppend(n: nat, a: seq<int>, b: seq<int>)
    ensures InRange(n, a + b) == InRange(n, a) + InRange(n, b)
    decreases |b|
  {
    if |b| > 0 {
      var init := b[..|b| - 1];
      assert (a + b)[..|a + b| - 1] == a + init;
      InRangeAppend(n, a, init);
    } else {
      assert a + b == a;
    }
  }

  /** A selection made only of valid indices is kept whole. */
  lemma {:induction false} InRangeOfValid(n: nat, selected: seq<int>)
    requires forall k :: 0 <= k < |selected| ==> 0 <= selected[k] < n
    ensures InRange(n, selected) == selected
  {
    if |selected| > 0 {
      InRangeOfValid(n, selected[..|selected| - 1]);
    }
  }

  /** The loop of `selectVideos` after the form: each selected index that
      is in range, in the order selected, becomes the video at that
      index; the others are skipped. */
  method SelectVideos(videos: seq<VideoDetails>, selected: seq<int>) returns (r: seq<VideoDetails>)
    ensures |r| == |InRange(|videos|, selected)|
    ensures forall k :: 0 <= k < |r| ==> r[k] == videos[InRange(|videos|, selected)[k]]
  {
    r := [];
    var i := 0;
    while i < |selected|
      invariant 0 <= i <= |selected|
      invariant |r| == |InRange(|videos|, selected[..i])|
      invariant forall k :: 0 <= k < |r| ==> r[k] == videos[InRange(|videos|, selected[..i])[k]]
    {
      var index := selected[i];
      assert selected[..i + 1][..i] == selected[..i];
      if 0 <= index < |videos| {
        r := r + [videos[index]];
      }
      i := i + 1;
    }
    assert selected[..|selected|] == selected;
  }
}

/** The older single-file downloader `main.go`. Its `isLiveArchive`,
    `sanitizeFilename`, `formatDuration` and index filter are the same text
    as in `cmd/ncpd/main.go` and are modelled there; what differs is where
    videos are saved. */
module LegacyMain {
  import opened Text
  import opened FileNames
  import opened Videos
  import NcpdMain

  /** `filepath.Join("./out", ...)` cleans its result, so the leading `./`
      disappears: the base is `out`. */
  const OutDir: string := "out"

  /** The directories for live archives and for ordinary videos. */
  const LiveDir: string := "live"
  const VideoDir: string := "video"

  /** The directory kind `main.go` picks for a video. */
  function Kind(v: VideoDetails): string {
    if NcpdMain.IsLiveArchive(v) then LiveDir else VideoDir
  }

  /** `getSavePathAndName` of `main.go`: `out/live/<name>` for live
      archives, `out/video/<name>` otherwise. */
  function GetSavePathAndName(v: VideoDetails, stamp: int): (r: (string, string))
    ensures r.1 == NcpdMain.SanitizeFilename(v.title, stamp)
    ensures r.0 == JoinPath(OutDir, [Kind(v), r.1])
  {
    var cleanTitle := NcpdMain.SanitizeFilename(v.title, stamp);
    if NcpdMain.IsLiveArchive(v) then (JoinPath(OutDir, [LiveDir, cleanTitle]), cleanTitle)
    else (JoinPath(OutDir, [VideoDir, cleanTitle]), cleanTitle)
  }

  /** The save directory is three plain pieces: `out`, the kind, and the
      sanitised title. */
  lemma LegacySavePathPieces(v: VideoDetails, stamp: int)
    ensures var r := GetSavePathAndName(v, stamp);
      Split(r.0, '/') == [OutDir, Kind(v), r.1]
  {
    var r := GetSavePathAndName(v, stamp);
    var kind, name := Kind(v), r.1;
    assert IsSegment(name);
    PlainDirs();
    JoinPathOfPlainPair(OutDir, kind, name);
  }

  lemma PlainDirs()
    ensures IsSegment(OutDir) && IsSegment(LiveDir) && IsSegment(VideoDir)
  {
  }

  /** The older downloader saves under the same name as the interactive
      one; both put live archives and ordinary videos in different
      directories, chosen by the same test. */
  lemma SameNameAsNcpd(v: VideoDetails, base: string, stamp: int)
    requires base != ""
    ensures GetSavePathAndName(v, stamp).1 == NcpdMain.GetSavePathAndName(v, base, stamp).1
    ensures var pieces := Split(NcpdMain.GetSavePathAndName(v, base, stamp).0[|base| + 1..], '/');
      (pieces[0] == NcpdMain.LiveDir <==> Kind(v) == LiveDir)
  {
    NcpdMain.SavePathPieces(v, base, stamp);
  }
}

/** The news downloader `cmd/news/main.go`: its copy of the sanitiser and
    the article directory name. */
module NewsMain {
  import opened Text
  import opened FileNames
  import News
  import NcpdMain

  /** The fallback prefix of this copy of the sanitiser. */
  const ArticlePrefix: string := "article_"

  /** `sanitizeFilename` of the news downloader: the `article_` fallback. */
  function SanitizeFilename(name: string, stamp: int): (r: string)
    ensures 0 < |r| <= MaxNameLength && IsSafeName(r)
    ensures Cleaned(name) == "" ==> HasPrefix(r, ArticlePrefix)
    ensures Cleaned(name) != "" ==> exists i :: IsReplacedSliceAt(r, name, i)
  {
    var r := Sanitize(name, ArticlePrefix, stamp);
    assert Cleaned(name) == "" ==> r[..|ArticlePrefix|] == ArticlePrefix by {
      if Cleaned(name) == "" {
        assert r == Truncate(ArticlePrefix + FormatInt(stamp), MaxNameLength);
      }
    }
    r
  }

  /** The copies of the sanitiser differ only in the fallback: on a name
      that keeps something after cleaning they agree. */
  lemma SanitizeCopiesAgree(name: string, stamp: int, stamp2: int)
    requires Cleaned(name) != ""
    ensures SanitizeFilename(name, stamp) == NcpdMain.SanitizeFilename(name, stamp2)
  {
    var c := Cleaned(name);
    var r := SanitizeFilename(name, stamp);
    var r2 := NcpdMain.SanitizeFilename(name, stamp2);
    assert |r| == |r2|;
  }

  /** The directory name `generateArticleHTML` gives an article. */
  function ArticleDir(a: News.Article, stamp: int): (r: string)
    ensures HasPrefix(r, "[" + DatePart(a.publishAt) + "] ")
    ensures r[3 + |DatePart(a.publishAt)|..] == SanitizeFilename(a.title, stamp)
  {
    var r := ArticleDirName(a.publishAt, SanitizeFilename(a.title, stamp));
    assert r[..3 + |DatePart(a.publishAt)|] == "[" + DatePart(a.publishAt) + "] ";
    r
  }

  /** Both downloaders name an article's directory alike unless its title
      cleans down to nothing. */
  lemma ArticleDirsAgree(a: News.Article, stamp: int, stamp2: int)
    requires Cleaned(a.title) != ""
    ensures ArticleDir(a, stamp) == NcpdMain.ArticleDir(a, stamp2)
  {
    SanitizeCopiesAgree(a.title, stamp, stamp2);
  }
}
