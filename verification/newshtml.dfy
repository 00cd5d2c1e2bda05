/** The pure helpers of `internal/news/html.go`: which thumbnail an article
    page shows, and the local file name an image URL is saved under. */
module NewsHtml {
  import opened Wrappers
  import opened Text
  import opened FileNames

  /** The article-list layout; id 3 is the list layout. */
  datatype LayoutType = LayoutType(id: int)

  /** `ArticleTheme`, whose layout may be absent (a nil pointer). */
  datatype ArticleTheme = ArticleTheme(articleListLayoutType: Option<LayoutType>)

  /** The fields of an article the thumbnail choice reads. The `Article`
      record of `internal/news/news.go` has no theme; this one carries the
      theme the function reads, which may be absent. */
  datatype ThemedArticle = ThemedArticle(articleTheme: Option<ArticleTheme>, thumbnailUrl: string)

  /** The layout whose pages always show the channel's cover. */
  const ListLayoutId: int := 3

  /** The article has a layout, and it is not the list layout. */
  predicate HasCardLayout(a: ThemedArticle) {
    && a.articleTheme.Some?
    && a.articleTheme.value.articleListLayoutType.Some?
    && a.articleTheme.value.articleListLayoutType.value.id != ListLayoutId
  }

  /** `determineThumbnailURL`: the article's own thumbnail for a non-list
      layout when it has one, otherwise the channel's cover. */
  function DetermineThumbnailURL(a: ThemedArticle, channelThumbnailUrl: string): (r: string)
    ensures r == a.thumbnailUrl || r == channelThumbnailUrl
    ensures r != channelThumbnailUrl ==> HasCardLayout(a) && r == a.thumbnailUrl && r != ""
    ensures HasCardLayout(a) && a.thumbnailUrl != "" ==> r == a.thumbnailUrl
  {
    if a.articleTheme.None? || a.articleTheme.value.articleListLayoutType.None? then
      channelThumbnailUrl
    else if a.articleTheme.value.articleListLayoutType.value.id == ListLayoutId then
      channelThumbnailUrl
    else if a.thumbnailUrl != "" then
      a.thumbnailUrl
    else
      channelThumbnailUrl
  }

  /** Without a theme, without a layout, or with the list layout, the page
      shows the channel's cover whatever the article's own thumbnail. */
  lemma ChannelCoverUnlessCardLayout(a: ThemedArticle, channelThumbnailUrl: string)
    requires !HasCardLayout(a)
    ensures DetermineThumbnailURL(a, channelThumbnailUrl) == channelThumbnailUrl
  {
  }

  /** The thumbnail URL is empty only when the channel's cover is empty and
      the article's own thumbnail is not used. */
  lemma ThumbnailEmptyOnlyWithoutCover(a: ThemedArticle, channelThumbnailUrl: string)
    ensures DetermineThumbnailURL(a, channelThumbnailUrl) == "" ==> channelThumbnailUrl == ""
  {
  }

  /** The fallback prefix of `cleanFileName`. */
  const ImagePrefix: string := "image_"

  /** `cleanFileName`: the sanitiser with the `image_` fallback. */
  function CleanFileName(name: string, stamp: int): (r: string)
    ensures 0 < |r| <= MaxNameLength && IsSafeName(r)
    ensures Cleaned(name) == "" ==> HasPrefix(r, ImagePrefix)
    ensures Cleaned(name) != "" ==> exists i :: IsReplacedSliceAt(r, name, i)
  {
    var r := Sanitize(name, ImagePrefix, stamp);
    assert Cleaned(name) == "" ==> r[..|ImagePrefix|] == ImagePrefix by {
      if Cleaned(name) == "" {
        assert r == Truncate(ImagePrefix + FormatInt(stamp), MaxNameLength);
      }
    }
    r
  }

  /** The URL without its query: everything before the first `?`. */
  function StripQuery(url: string): (path: string)
    ensures '?' !in path && HasPrefix(url, path)
    ensures |path| < |url| ==> url[|path|] == '?'
  {
    match IndexOf(url, '?')
    case None => url
    case Some(i) => url[..i]
  }

  /** The piece URL-decoded when `unescape` (`url.QueryUnescape`) accepts
      it, and as it is otherwise. */
  function Decoded(segment: string, unescape: string -> Option<string>): string {
    match unescape(segment)
    case Some(d) => d
    case None => segment
  }

  /** `extractFileName`: the last path piece of the URL without its query,
      decoded and then cleaned; an empty last piece gives `""`. */
  function ExtractFileName(url: string, unescape: string -> Option<string>, stamp: int): (r: string)
    ensures r == "" <==> LastPiece(StripQuery(url), '/') == ""
    ensures r != "" ==> |r| <= MaxNameLength && IsSafeName(r)
    ensures r != "" ==> r == CleanFileName(Decoded(LastPiece(StripQuery(url), '/'), unescape), stamp)
  {
    var segment := LastPiece(StripQuery(url), '/');
    if segment == "" then "" else CleanFileName(Decoded(segment, unescape), stamp)
  }

  /** No file name comes out exactly when the URL's path, without its
      query, is empty or ends with `/`. */
  lemma ExtractFileNameEmpty(url: string, unescape: string -> Option<string>, stamp: int)
    ensures var path := StripQuery(url);
      ExtractFileName(url, unescape, stamp) == "" <==> path == "" || path[|path| - 1] == '/'
  {
    LastPieceEmpty(StripQuery(url), '/');
  }

  /** An image URL whose path ends in a plain, safe file name that the
      decoder leaves alone is saved under that very name, query or not. */
  lemma ExtractFileNameOfPlainName(dir: string, file: string, query: string,
                                   unescape: string -> Option<string>, stamp: int)
    requires '?' !in dir && '?' !in file
    requires 0 < |file| <= MaxNameLength && IsSafeName(file)
    requires !IsDotOrSpace(file[0]) && !IsDotOrSpace(file[|file| - 1])
    requires unescape(file) == Some(file) || unescape(file).None?
    requires query == "" || query[0] == '?'
    ensures ExtractFileName(dir + "/" + file + query, unescape, stamp) == file
  {
    var path := dir + "/" + file;
    StripQueryOf(path, query);
    LastPieceOfFree(dir, file, '/');
    assert Decoded(file, unescape) == file;
    SanitizeKeepsCleanName(file, ImagePrefix, stamp);
  }

  /** A query-free path followed by a query, or by nothing, loses exactly
      the query. */
  lemma StripQueryOf(path: string, query: string)
    requires '?' !in path
    requires query == "" || query[0] == '?'
    ensures StripQuery(path + query) == path
  {
    if query != "" {
      assert path + query == path + ['?'] + query[1..];
      IndexOfAfterFree(path, '?', query[1..]);
    } else {
      assert path + query == path;
    }
  }

  /** `extractThumbnailFileName`: every thumbnail is saved as
      `thumbnail.jpg`, whatever its URL. */
  function ExtractThumbnailFileName(thumbnailUrl: string): (r: string)
    ensures r == "thumbnail.jpg"
    ensures 0 < |r| <= MaxNameLength && IsSafeName(r)
    ensures !IsDotOrSpace(r[0]) && !IsDotOrSpace(r[|r| - 1])
  {
    "thumbnail.jpg"
  }

  /** The thumbnail's name is already clean: cleaning it changes nothing. */
  lemma ThumbnailNameIsClean(thumbnailUrl: string, stamp: int)
    ensures var r := ExtractThumbnailFileName(thumbnailUrl);
      CleanFileName(r, stamp) == r
  {
    var r := ExtractThumbnailFileName(thumbnailUrl);
    SanitizeKeepsCleanName(r, ImagePrefix, stamp);
  }
}
