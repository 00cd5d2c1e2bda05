/** The page walk shared by the video-list and article-list collectors:
    request page 1, 2, 3, ... of a listing; stop on an empty page or right
    after a page shorter than the page size; give up everything gathered on
    the first request error. The HTTP request is the `fetch` parameter. Its
    error covers a transport failure, a 4xx or 5xx reply (the shared client
    of `internal/client/resty.go` turns those into errors) and a body that
    does not decode. */
module Paging {
  import opened Wrappers

  /** A failed request: which page, and the request's error message. */
  datatype PageError = PageFailure(page: nat, cause: string)

  /** What a walk produced, and the pages it requested, in request order. */
  datatype Walk<T> = Walk(result: Result<seq<T>, PageError>, requested: seq<nat>)

  /** Page `p` ends the walk: its request failed, it was empty, or it was
      shorter than a full page. */
  predicate IsLastPage<T>(fetch: nat -> Result<seq<T>, string>, size: nat, p: nat) {
    fetch(p).Err? || |fetch(p).value| == 0 || |fetch(p).value| < size
  }

  /** Pages `from` up to but not including `to` all came back. */
  predicate AllFetched<T>(fetch: nat -> Result<seq<T>, string>, from: nat, to: nat) {
    forall p: nat :: from <= p < to ==> fetch(p).Ok?
  }

  /** The items of pages `from .. to - 1`, in page order: the reference
      meaning of "append each page to the total". */
  ghost function Gathered<T>(fetch: nat -> Result<seq<T>, string>, from: nat, to: nat): seq<T>
    requires AllFetched(fetch, from, to)
    decreases if to <= from then 0 else to - from
  {
    if to <= from then [] else fetch(from).value + Gathered(fetch, from + 1, to)
  }

  /** The walk from `page` on. The ghost `last` is some page at or after
      `page` that ends the walk: the code's loop stops exactly when such a
      page exists, so this admits every listing on which it terminates (and
      `CollectPagesAnyBound` shows the walk does not depend on which such
      page is named). */
  function WalkFrom<T>(fetch: nat -> Result<seq<T>, string>, size: nat, page: nat, ghost last: nat): (w: Walk<T>)
    requires page <= last && IsLastPage(fetch, size, last)
    ensures |w.requested| >= 1
    ensures forall i :: 0 <= i < |w.requested| ==> w.requested[i] == page + i
    ensures var stop := page + |w.requested| - 1;
      && (forall p: nat :: page <= p < stop ==> !IsLastPage(fetch, size, p))
      && IsLastPage(fetch, size, stop)
      && AllFetched(fetch, page, stop)
      && (fetch(stop).Err? ==> w.result == Err(PageFailure(stop, fetch(stop).error)))
      && (fetch(stop).Ok? ==> w.result == Ok(Gathered(fetch, page, stop) + fetch(stop).value))
    decreases last - page
  {
    match fetch(page)
    case Err(e) => Walk(Err(PageFailure(page, e)), [page])
    case Ok(items) =>
      if |items| == 0 then
        assert Gathered(fetch, page, page) + items == [];
        Walk(Ok([]), [page])
      else if |items| < size then
        assert Gathered(fetch, page, page) + items == items;
        Walk(Ok(items), [page])
      else
        assert !IsLastPage(fetch, size, page);
        var rest := WalkFrom(fetch, size, page + 1, last);
        var stop := page + 1 + |rest.requested| - 1;
        assert AllFetched(fetch, page, stop);
        GatheredStep(fetch, page, stop);
        if rest.result.Err? then Walk(rest.result, [page] + rest.requested)
        else
          var more := rest.result.value;
          assert items + more == Gathered(fetch, page, stop) + fetch(stop).value;
          Walk(Ok(items + more), [page] + rest.requested)
  }

  /** Gathering from `from` starts with page `from`'s items. */
  lemma GatheredStep<T>(fetch: nat -> Result<seq<T>, string>, from: nat, to: nat)
    requires from < to && AllFetched(fetch, from, to)
    ensures Gathered(fetch, from, to) == fetch(from).value + Gathered(fetch, from + 1, to)
  {
  }

  /** The whole walk, from page 1. */
  function CollectPages<T>(fetch: nat -> Result<seq<T>, string>, size: nat, ghost last: nat): (w: Walk<T>)
    requires 1 <= last && IsLastPage(fetch, size, last)
    ensures |w.requested| >= 1
    ensures forall i :: 0 <= i < |w.requested| ==> w.requested[i] == i + 1
  {
    WalkFrom(fetch, size, 1, last)
  }

  /** The walk's outcome is fixed by the first page that ends it, `k`:
      pages 1 .. k are requested, in order; a failure at page `k` returns
      only the error; otherwise the result is every page's items appended
      in page order. */
  lemma CollectPagesStopsAtFirstLastPage<T>(fetch: nat -> Result<seq<T>, string>, size: nat, k: nat)
    requires 1 <= k && IsLastPage(fetch, size, k)
    requires forall p: nat :: 1 <= p < k ==> !IsLastPage(fetch, size, p)
    ensures CollectPages(fetch, size, k).requested == SeqRange(1, k + 1)
    ensures AllFetched(fetch, 1, k)
    ensures fetch(k).Err? ==> CollectPages(fetch, size, k).result == Err(PageFailure(k, fetch(k).error))
    ensures fetch(k).Ok? ==> CollectPages(fetch, size, k).result == Ok(Gathered(fetch, 1, k) + fetch(k).value)
  {
    var w := CollectPages(fetch, size, k);
    assert |w.requested| == k;
  }

  /** Any page that ends the walk may serve as its bound: the walk is the
      same whichever one is named. */
  lemma CollectPagesAnyBound<T>(fetch: nat -> Result<seq<T>, string>, size: nat, last1: nat, last2: nat)
    requires 1 <= last1 && IsLastPage(fetch, size, last1)
    requires 1 <= last2 && IsLastPage(fetch, size, last2)
    ensures CollectPages(fetch, size, last1) == CollectPages(fetch, size, last2)
  {
  }

  /** `[from, from + 1, ..., to - 1]`. */
  function SeqRange(from: nat, to: nat): (r: seq<nat>)
    ensures |r| == (if to <= from then 0 else to - from)
    ensures forall i :: 0 <= i < |r| ==> (r[i] == from + i)
    decreases if to <= from then 0 else to - from
  {
    if to <= from then [] else [from] + SeqRange(from + 1, to)
  }
}

/** `internal/video`: the parts of a video's record the model reads, and the
    paged video listing. */
module Videos {
  import opened Wrappers
  import opened Paging

  /** `VideoFilenameType`: the kind of the active file (`"archived"` for a
      recorded live stream). */
  datatype VideoFilenameType = VideoFilenameType(id: int, value: string)

  /** `ActiveVideoFilename`, with its optional type. */
  datatype ActiveVideoFilename = ActiveVideoFilename(id: int, length: int, filenameType: Option<VideoFilenameType>)

  /** `VideoDetails`, cut down to the fields the modelled code reads; Go's
      nil pointers are `None`. */
  datatype VideoDetails = VideoDetails(
    activeVideoFilename: Option<ActiveVideoFilename>,
    contentCode: string,
    displayDate: string,
    liveStartedAt: Option<string>,
    releasedAt: string,
    thumbnailUrl: string,
    title: string)

  /** The page size the video listing asks for. */
  const VideoPageSize: nat := 10

  /** `GetVideoList`: every video of a channel, 10 per page. */
  function GetVideoList(fetch: nat -> Result<seq<VideoDetails>, string>, ghost last: nat): (w: Walk<VideoDetails>)
    requires 1 <= last && IsLastPage(fetch, VideoPageSize, last)
    ensures forall i :: 0 <= i < |w.requested| ==> w.requested[i] == i + 1
    ensures forall p: nat :: 1 <= p < |w.requested| ==> fetch(p).Ok? && |fetch(p).value| >= 10
    ensures var k := |w.requested|; k >= 1 && (fetch(k).Err? <==> w.result.Err?)
  {
    var w := WalkFrom(fetch, VideoPageSize, 1, last);
    assert forall p: nat :: 1 <= p < |w.requested| ==> fetch(p).Ok? && |fetch(p).value| >= 10 by {
      forall p: nat | 1 <= p < |w.requested| ensures fetch(p).Ok? && |fetch(p).value| >= 10 {
        assert !IsLastPage(fetch, VideoPageSize, p);
      }
    }
    w
  }

  /** A listing served as pages of the given lengths, the items of page `p`
      being `p` repeated (any items would do). */
  function PagesOfLengths(lengths: seq<nat>): nat -> Result<seq<nat>, string> {
    (p: nat) => Ok(if 1 <= p <= |lengths| then Repeat(p, lengths[p - 1]) else [])
  }

  function Repeat(x: nat, n: nat): (r: seq<nat>)
    ensures |r| == n
  {
    seq(n, _ => x)
  }

  /** The listing of the video-list test: pages of 10, 10, 10 and 4 items. */
  const FourPages := PagesOfLengths([10, 10, 10, 4])

  lemma FourPagesShape()
    ensures |FourPages(1).value| == 10 && |FourPages(2).value| == 10
    ensures |FourPages(3).value| == 10 && |FourPages(4).value| == 4
    ensures IsLastPage(FourPages, VideoPageSize, 4)
    ensures forall p: nat :: 1 <= p < 4 ==> !IsLastPage(FourPages, VideoPageSize, p)
  {
    var f := FourPages;
    assert |f(4).value| == 4;
    forall p: nat | 1 <= p < 4 ensures !IsLastPage(f, VideoPageSize, p) {
      assert |f(p).value| == 10;
    }
  }

  /** Pages of 10, 10, 10 and 4 items give all 34 items after exactly four
      requests. */
  lemma VideoWalkOfFourPages()
    ensures var w := CollectPages(FourPages, VideoPageSize, 4);
      w.requested == [1, 2, 3, 4] && w.result.Ok? && |w.result.value| == 34
  {
    var f := FourPages;
    FourPagesShape();
    CollectPagesStopsAtFirstLastPage(f, VideoPageSize, 4);
    var w := CollectPages(f, VideoPageSize, 4);
    FirstFourPages();
    assert w.requested == [1, 2, 3, 4];
    FourPagesGathered();
    assert w.result == Ok(Gathered(f, 1, 4) + f(4).value);
  }

  /** The three full pages hold 30 items. */
  lemma FourPagesGathered()
    ensures AllFetched(FourPages, 1, 4) && |Gathered(FourPages, 1, 4)| == 30
  {
    var f := FourPages;
    FourPagesShape();
    GatheredStep(f, 1, 4);
    GatheredStep(f, 2, 4);
    GatheredStep(f, 3, 4);
  }

  /** Pages 1 to 4, as `SeqRange` lists them. */
  lemma FirstFourPages()
    ensures SeqRange(1, 5) == [1, 2, 3, 4]
  {
    var r := SeqRange(1, 5);
    assert r[0] == 1 && r[1] == 2 && r[2] == 3 && r[3] == 4;
  }

  /** An empty first page gives nothing, after one request. */
  lemma VideoWalkOfNoPages()
    ensures var w := CollectPages(PagesOfLengths([]), VideoPageSize, 1);
      w.requested == [1] && w.result == Ok([])
  {
    var g := PagesOfLengths([]);
    assert g(1).value == [];
    assert IsLastPage(g, VideoPageSize, 1);
    assert SeqRange(1, 2) == [1];
    CollectPagesStopsAtFirstLastPage(g, VideoPageSize, 1);
  }
}

/** `internal/news`: the article record and the paged article listing. */
module News {
  import opened Wrappers
  import opened Paging

  /** `Article` as the listing returns it. */
  datatype Article = Article(
    id: int,
    articleCode: string,
    title: string,
    contents: string,
    publishAt: string,
    thumbnailUrl: string)

  /** The page size the article listing asks for. */
  const ArticlePageSize: nat := 24

  /** `GetArticleList`: every news article of a channel, 24 per page. */
  function GetArticleList(fetch: nat -> Result<seq<Article>, string>, ghost last: nat): (w: Walk<Article>)
    requires 1 <= last && IsLastPage(fetch, ArticlePageSize, last)
    ensures forall i :: 0 <= i < |w.requested| ==> w.requested[i] == i + 1
    ensures forall p: nat :: 1 <= p < |w.requested| ==> fetch(p).Ok? && |fetch(p).value| >= 24
    ensures var k := |w.requested|; k >= 1 && (fetch(k).Err? <==> w.result.Err?)
  {
    var w := WalkFrom(fetch, ArticlePageSize, 1, last);
    assert forall p: nat :: 1 <= p < |w.requested| ==> fetch(p).Ok? && |fetch(p).value| >= 24 by {
      forall p: nat | 1 <= p < |w.requested| ensures fetch(p).Ok? && |fetch(p).value| >= 24 {
        assert !IsLastPage(fetch, ArticlePageSize, p);
      }
    }
    w
  }
}
