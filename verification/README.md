# ncpd core, modelled in Dafny

ncpd is a downloader for a subscription video platform's channels. This
project models its pure core.

- **Token cache** (`internal/auth/auth.go`): the OAuth access token is served
  from a cache while it stays valid for more than 30 seconds. Otherwise it is
  refreshed with the stored refresh token, or the configured one.
- **Channel lookup** (`internal/channel/channels.go`): finding a channel by
  its fan-club site id or by its domain.
- **Paged listings**:
  - videos, 10 per page (`internal/video/video_pages.go`);
  - news articles, 24 per page (`internal/news/news.go`).

  Pages 1, 2, 3 … are requested. The walk stops on an empty page, or after
  a short one. The first request error discards everything gathered.
- **Comment history** (`GetAllComments` in `internal/video/comments.go`).
  The history is gathered through a window "at or after this playback time",
  which includes its boundary. Comments are deduplicated by id in a map, and
  the watermark moves to the last comment's time. The loop stops on an empty
  batch, or on a batch that neither moves the watermark nor brings a new id.
  The result is sorted by playback time.
- **Manifest parser** (`internal/m3u8/m3u8.go`):
  - the line state machine of `ParseIndexM3U8`;
  - its attribute regular expression, modelled as a deterministic matcher;
  - `GetBestQuality`, which picks the first variant with the largest
    bandwidth.
- **File-name and path helpers**:
  - the sanitiser, which exists in four copies differing only in the
    fallback prefix: `cleanFileName`, and `sanitizeFilename` in
    `cmd/ncpd/main.go`, `main.go` and `cmd/news/main.go`;
  - `extractFileName`, `extractThumbnailFileName`, `determineThumbnailURL`
    and `formatPublishDate`;
  - the article directory name;
  - `isLiveArchive` and `getSavePathAndName`, in both downloaders;
  - the integer branches of `formatDuration`;
  - the index filter of `selectVideos`;
  - `HasAnySelection`.

## How the model is set up

- A Go string is a Dafny `string` with one `char` per byte, so `|s|` is Go's
  `len(s)`.
  - The sanitiser's character class contains only ASCII bytes, so replacing
    byte by byte is what the rune-based regexp does.
  - Cutting at 200 bytes may split a multi-byte character, exactly as
    `cleanName[:200]` does.
- Every HTTP request is a function parameter: `fetch`, `post` or `reply`.
  Every clock reading is an integer parameter, in nanoseconds or Unix
  seconds.
- Two loops end only if the server cooperates. Each takes a ghost bound
  that holds exactly when the Go loop ends, so no server on which the code
  terminates is excluded:
  - `Paging.WalkFrom` takes a page `last` that ends the walk (it failed,
    was empty or was short). The walk does not depend on which such page
    is named (`Paging.CollectPagesAnyBound`).
  - `Comments.Gather` takes a number of rounds within which the loop stops
    (`Comments.StopsWithin`). The result does not depend on the number
    named (`Comments.GatherAnyRounds`). `Comments.Honest` is one
    sufficient condition: comments at or after the watermark, up to a
    bound, with ids from a finite set. `Comments.HonestRounds` derives a
    round bound from it.
- Go's nil pointers are `Option`. Errors are `Result`.
- Channels, the token cache and the paged walks model the error paths
  explicitly.
- Requests through the shared client of `internal/client/resty.go`
  (`resty.go:37-46`) turn a 4xx or 5xx reply into an error. These are the
  token post and the video and news listings. The error of `post` and
  `fetch` stands for that, for a transport failure and for a body that
  does not decode. Any of them leaves the token cache unchanged and ends a
  paged walk.
- The channel requests use a client of their own, without that hook, and
  compare the status with 200 themselves (`channels.go:47` and `:96`).
  `Channels.Reply` keeps the status for that reason.
- The comment-history request also compares the status with 200 itself
  (`comments.go:72-78`). The error of `Comments.Fetch` stands for that
  check, for a transport failure and for a body that does not decode.

## Model

| member | source | states |
|---|---|---|
| Auth.GetRefreshToken | internal/auth/auth.go:120-130 | The stored refresh token when it is non-empty, otherwise the configured one. |
| Auth.SecondsToDuration | internal/auth/auth.go:111 | `time.Duration(n) * time.Second` wraps around modulo 2^64 into the signed 64-bit range. |
| Auth.SecondsToDurationExact | internal/auth/auth.go:111 | Lifetimes below about 292 years convert without wrapping. |
| Auth.RefreshForm | internal/auth/auth.go:85-102 | The form carries the configured client id, grant type `refresh_token` and the refresh token `getRefreshToken` would return. |
| Auth.RefreshOAuthToken | internal/auth/auth.go:72-117 | The re-check under the lock returns a still-valid token untouched and posts nothing. Otherwise the form is posted. Any request error leaves the state unchanged and returns the error: a transport failure, a 4xx or 5xx reply, or a body that does not decode. A reply replaces the access token and the refresh token, and sets the expiry to the response time plus the lifetime. |
| Auth.GetToken | internal/auth/auth.go:51-63 | A token valid at the first check is returned with nothing posted. Otherwise the call is exactly the refresh. |
| Auth.ValidEarlier | internal/auth/auth.go:66-69 | A token valid at some time was valid at every earlier time, so validity is monotone in the clock. |
| Auth.SequentialRecheckPosts | internal/auth/auth.go:51-79 | With the clock running forward, a call that misses the cache always posts the refresh form; the double check never short-cuts it. |
| Auth.FailedRefreshKeepsState | internal/auth/auth.go:104-106 | A failed refresh leaves the state as it was, so the next call spends the same refresh token. |
| Auth.RefreshRotatesRefreshToken | internal/auth/auth.go:108-130 | After a successful refresh, the next refresh spends the refresh token the endpoint handed out when it is non-empty. The expiry is the response time plus the converted lifetime. |
| Auth.SameTokenWithinWindow | internal/auth/auth.go:51-58 | A second call made while the first call's token is still valid returns the same token, keeps the state and posts nothing. |
| Auth.FreshTokenIsCached | internal/auth/auth.go:66-111 | A refreshed non-empty token whose lifetime converts without wrapping is valid, and so is served from the cache, at any later time more than 30 seconds before its expiry. |
| Channels.GetChannels | internal/channel/channels.go:35-52 | The list comes back exactly on a status-200 reply. A transport error and a bad status each give their own error. |
| Channels.FindBySiteId | internal/channel/channels.go:71-75 | Returns the first index whose fan-club site id matches, and none exactly when no channel matches. |
| Channels.GetChannelByID | internal/channel/channels.go:65-78 | A failed list request is passed on. A found channel belongs to the list and has that site id. |
| Channels.GetChannelByIDFindsFirst | internal/channel/channels.go:65-78 | Found exactly when some listed channel has that fan-club site id, and then it is the first such channel. Otherwise the error is the not-found error. |
| Channels.GetChannelByIDIgnoresOwnId | internal/channel/channels.go:72 | The lookup compares the fan-club site id, not the channel's own id. |
| Channels.GetChannelByDomain | internal/channel/channels.go:81-105 | Succeeds exactly on status 200 with a provider present. Each of the transport, status and nil-provider failures gives its own error. |
| Paging.WalkFrom | internal/video/video_pages.go:29-66 | Requests consecutive pages and stops at the first page that fails, is empty or is short. A failure returns only that page's error. Otherwise the result is every page's items in page order. |
| Paging.GatheredStep | internal/video/video_pages.go:54 | Appending page by page: the gathered items start with the first page's items. |
| Paging.CollectPages | internal/video/video_pages.go:24-29 | The walk starts at page 1 and requests pages 1, 2, … in order. |
| Paging.CollectPagesStopsAtFirstLastPage | internal/news/news.go:49-83 | When page k is the first to fail, be empty or be short, pages 1..k are requested. A failure at k returns only the error; otherwise the result is pages 1..k appended in order. Only that k is assumed, so the lemma covers every listing on which the loop ends. |
| Paging.CollectPagesAnyBound | internal/video/video_pages.go:29-66 | The walk is the same whichever page that ends it is named as its bound. |
| Paging.SeqRange | internal/video/video_pages.go:65 | The page numbers from..to-1, one by one. |
| Videos.GetVideoList | internal/video/video_pages.go:19-69 | With page size 10: every page before the last was full, and the listing fails exactly when the last page requested failed. |
| Videos.FourPagesShape | internal/video/video_pages.go:48-63 | In a listing of 10, 10, 10 and 4 items, pages 1-3 do not end the walk and page 4 does. |
| Videos.VideoWalkOfFourPages | internal/video/video_pages.go:19-69 | Pages of 10, 10, 10 and 4 items give all 34 items after exactly four requests. |
| Videos.VideoWalkOfNoPages | internal/video/video_pages.go:48-51 | An empty first page gives an empty list after one request. |
| News.GetArticleList | internal/news/news.go:40-86 | With page size 24: every page before the last was full, and the listing fails exactly when the last page requested failed. |
| Comments.IdsAppend | internal/video/comments.go:101-108 | The ids of two batches together are the union of their ids. |
| Comments.LatestWith | internal/video/comments.go:107 | The copy a map keyed by id holds after storing a sequence: a message of the sequence with that id. |
| Comments.LatestWithAppend | internal/video/comments.go:103-108 | After storing `a` then `b`, an id present in `b` holds `b`'s latest copy; otherwise it holds `a`'s. |
| Comments.AbsorbStores | internal/video/comments.go:101-108 | Storing a batch: the map holds every id seen so far with its latest copy. A map keyed by id stays keyed by id. |
| Comments.AbsorbKeys | internal/video/comments.go:101-108 | The ids stored after a batch are those stored before and the batch's. |
| Comments.AbsorbCount | internal/video/comments.go:101-106 | The count is the number of batch ids the map did not have. |
| Comments.AbsorbSnoc | internal/video/comments.go:103-108 | One more comment becomes the stored copy of its id, and a map keyed by id stays so. |
| Comments.StoreSnoc | internal/video/comments.go:107 | Storing one more comment makes it the latest copy of its id; every other entry keeps its latest copy. |
| Comments.NewIdsStep | internal/video/comments.go:104-106 | An id seen before leaves the set of new ids unchanged; an unseen id grows it by one. |
| Comments.AbsorbNothingNew | internal/video/comments.go:101-119 | The new-id count is zero exactly when every id of the batch was already in the map. |
| Comments.WithinBounds | internal/video/comments.go:90 | The honest-server bound, unfolded: every returned comment lies in the window, and its id lies in the universe. |
| Comments.Gather | internal/video/comments.go:88-122 | The loop starts at the given watermark and requests at most as many watermarks as the round bound allows. The bound holds for some number exactly when the code's loop ends. |
| Comments.GatherAnyRounds | internal/video/comments.go:88-122 | The gathering is the same whichever round bound is named. |
| Comments.HonestRounds | internal/video/comments.go:88-122 | Against an honest server the loop ends within the returned number of rounds. |
| Comments.GatherProgress | internal/video/comments.go:112-121 | Against an honest server, a round that goes on moves the watermark forward within the bound, or stores a new id from the finite set. |
| Comments.GatherSpec | internal/video/comments.go:88-122 | Each watermark requested is the previous batch's last playback time. A request error returns only that error, prefixed `GetAllComments: `. Otherwise the map holds every comment received, each id with its latest copy. |
| Comments.GatherFinal | internal/video/comments.go:90-119 | The stopping rounds: an error, an empty batch, or a batch that neither moves the watermark nor brings a new id. |
| Comments.GatherUnfold | internal/video/comments.go:113-121 | A round that does not stop hands over to the loop at the next watermark with the updated map, one round fewer to go. |
| Comments.GatherStep | internal/video/comments.go:101-121 | Such a round in front of what the next loop amounts to is what the whole loop amounts to. |
| Comments.OutcomeCons | internal/video/comments.go:88-122 | One more round in front of a gathering keeps the chain of watermarks and the stored-copy property. |
| Comments.ProgressMeasure | internal/video/comments.go:101-108 | Storing a batch never grows the set of unseen ids, and shrinks it when a new id came in. |
| Comments.StoredAppend | internal/video/comments.go:103-108 | Storing `a` and then `b` leaves the map that storing `a + b` at once would leave. |
| Comments.GatherStopsWhenStuck | internal/video/comments.go:113-119 | After a non-empty batch the loop stops exactly when the last playback time equals the watermark and every id was already stored. |
| Comments.GatherStopsOnEmpty | internal/video/comments.go:96-99 | An empty batch ends the loop with the map as it was. |
| Comments.EchoStopsAfterTwoRounds | internal/video/comments.go:113-119 | A server that answers every request with one comment at time 5 is not honest. The loop still stops after requesting watermarks 0 and 5. |
| Comments.Insert | internal/video/comments.go:131-133 | Inserting into a list sorted by playback time keeps it sorted and adds exactly that message. |
| Comments.IdsOfPermutation | internal/video/comments.go:125-133 | Reordering messages keeps their ids. |
| Comments.InsertDistinct | internal/video/comments.go:131-133 | Inserting a message with a fresh id keeps ids distinct. |
| Comments.SortByTime | internal/video/comments.go:131-133 | The result is sorted by playback time and is a permutation of the input. |
| Comments.SortDistinct | internal/video/comments.go:131-133 | Sorting keeps ids distinct. |
| Comments.SortKeepsListing | internal/video/comments.go:125-133 | Sorting a listing of the map's values, each once, gives a listing of the same values. |
| Comments.ValuesOf | internal/video/comments.go:124-128 | Turning the map into a list yields each stored comment exactly once. |
| Comments.GetAllComments | internal/video/comments.go:83-139 | The result fails exactly when the gathering fails, with the same error. Otherwise it lists every stored comment once, sorted by playback time, and its ids are exactly the ids of every comment received. |
| M3u8.Lit | internal/m3u8/m3u8.go:30 | A literal part of the expression matches exactly when the text starts with it. |
| M3u8.Run | internal/m3u8/m3u8.go:30 | A `class+` part takes the longest non-empty run of the class; the next byte, if any, is outside it. |
| M3u8.MatchAt | internal/m3u8/m3u8.go:30-48 | A match yields a variant with a non-empty resolution and no URL. |
| M3u8.MatchStreamInf | internal/m3u8/m3u8.go:37-38 | The leftmost match in the line, with the same guarantees. |
| M3u8.FieldOf | internal/m3u8/m3u8.go:30 | A piece made of a literal and a maximal run captures exactly that run. |
| M3u8.NoMatchAt | internal/m3u8/m3u8.go:30 | No match starts at a byte other than `B`. |
| M3u8.MatchSkipsPrefix | internal/m3u8/m3u8.go:37 | The search moves past a prefix without `B`, such as the `#EXT-X-STREAM-INF:` tag. |
| M3u8.ParseIndexM3U8 | internal/m3u8/m3u8.go:24-59 | Every returned variant has a non-empty resolution and a URL that starts with `http`, lies on one line and does not end in white space. |
| M3u8.RunPreservesWellFormed | internal/m3u8/m3u8.go:32-56 | The loop keeps every stored variant well formed and the pending description without a URL. |
| M3u8.StepPreservesWellFormed | internal/m3u8/m3u8.go:33-55 | One line keeps that invariant. |
| M3u8.UrlLineIsWellFormed | internal/m3u8/m3u8.go:33-52 | A URL taken from a one-line string starts with `http`, lies on one line and does not end in white space. |
| M3u8.RunSnoc | internal/m3u8/m3u8.go:32 | The loop over one more line is one more step. |
| M3u8.RunAppend | internal/m3u8/m3u8.go:32 | The loop over `a + b` is the loop over `a` continued over `b`. |
| M3u8.UrlLineStep | internal/m3u8/m3u8.go:50-55 | A URL line completes the pending variant and clears the slot when a description is pending, and is ignored otherwise. |
| M3u8.MalformedDescriptionStep | internal/m3u8/m3u8.go:36-38 | A description line whose attributes do not match changes nothing, not even an earlier pending description. |
| M3u8.DescriptionStep | internal/m3u8/m3u8.go:37-48 | A well-formed description replaces whatever was pending and adds no variant. |
| M3u8.OtherLineStep | internal/m3u8/m3u8.go:32-56 | Any other line leaves the state unchanged. |
| M3u8.SecondDescriptionWins | internal/m3u8/m3u8.go:42-53 | With two descriptions before one URL, the variant carries the second description. |
| M3u8.RunOrderAndCount | internal/m3u8/m3u8.go:32-56 | The variants' URLs are the manifest's URL lines with some left out, in order. There are no more variants, plus any pending one, than well-formed descriptions. |
| M3u8.VariantCountBounds | internal/m3u8/m3u8.go:24-59 | A manifest yields at most as many variants as it has well-formed descriptions, and at most as many as it has URL lines. |
| M3u8.MatchAttributeText | internal/m3u8/m3u8.go:30-47 | Well-formed attribute text is matched with every capture recovered; the bandwidths go through `Atoi`. |
| M3u8.MatchDescriptionLine | internal/m3u8/m3u8.go:36-48 | The description line written for a renderable variant yields that variant, without its URL. |
| M3u8.DescriptionLineIsWellFormed | internal/m3u8/m3u8.go:33-48 | Such a line survives trimming and is recognised as a matching description. |
| M3u8.UrlLineIsUrl | internal/m3u8/m3u8.go:33-50 | A renderable variant's URL line survives trimming and is recognised as a URL line. |
| M3u8.RunVariantLines | internal/m3u8/m3u8.go:32-56 | Read with no description pending, the lines written for renderable variants append exactly those variants, in order, and leave nothing pending. |
| M3u8.ParseRoundTrip | internal/m3u8/m3u8.go:24-59 | Round trip: a header line followed by the two lines of each renderable variant parses back to exactly those variants. |
| M3u8.HeaderIsIgnored | internal/m3u8/m3u8_test.go:52 | The `#EXTM3U` header is neither a description nor a URL. |
| M3u8.ParseTestPlaylist | internal/m3u8/m3u8_test.go:50-62 | The test's manifest yields exactly its two variants, 720p then 1080p, so there are 2 of them. |
| M3u8.FirstMaxUnique | internal/m3u8/m3u8.go:62-74 | The first index of maximal bandwidth is unique. |
| M3u8.GetBestQuality | internal/m3u8/m3u8.go:62-74 | Returns nothing exactly for an empty list. Otherwise the result is the variant at the first index of maximal bandwidth: a later variant wins only with strictly greater bandwidth. |
| M3u8.BestPickOfTest | internal/m3u8/m3u8_test.go:70-80 | Among the test's three variants the pick is the 1920x1080 one. |
| Text.IndexOf | internal/news/html.go:177 | The first `?`: none exactly when absent; otherwise it is the byte and does not occur earlier. |
| Text.Split | internal/m3u8/m3u8.go:25 | `strings.Split` gives at least one piece, and no piece contains the separator. |
| Text.SplitJoin | internal/m3u8/m3u8.go:25 | Splitting separator-free lines joined by the separator gives those lines back. |
| Text.JoinSplit | internal/m3u8/m3u8.go:25 | Joining the pieces of a split restores the text. |
| Text.LastPiece | internal/news/html.go:182-184 | The last piece after splitting on `/` contains no `/`. |
| Text.SplitLast | internal/news/html.go:182-184 | The last piece is a suffix of the text, preceded by the separator when shorter. |
| Text.LastPieceEmpty | internal/news/html.go:182-185 | The last piece is empty exactly when the text is empty or ends with the separator. |
| Text.LastPieceOfFree | internal/news/html.go:182-184 | After the last separator, the last piece is whatever follows it. |
| Text.TrimBy | internal/m3u8/m3u8.go:33 | `strings.TrimSpace` returns a contiguous piece of the line with no white space at either end. |
| Text.TrimByContained | internal/m3u8/m3u8.go:33 | Trimming keeps only bytes that were in the line. |
| Text.TrimByUnchanged | internal/m3u8/m3u8.go:33 | A line without white space at its ends is unchanged by trimming. |
| Text.Trim | cmd/ncpd/main.go:635 | `strings.Trim(s, " .")` returns a contiguous piece with no cutset byte at either end. |
| Text.TrimUnchanged | cmd/ncpd/main.go:635 | A name without a cutset byte at its ends is unchanged by trimming. |
| Text.TrimKeepsAll | internal/m3u8/m3u8.go:33 | Trimming keeps a property that every byte had. |
| Text.Truncate | cmd/ncpd/main.go:643-645 | Keeps the first n bytes of a longer text, and a text of at most n bytes whole. |
| Text.Atoi | internal/m3u8/m3u8.go:39-40 | The value of a digit run, clamped to the largest 64-bit `int` on overflow, where Go reports a range error that the code ignores. |
| Text.NatDigits | internal/m3u8/m3u8.go:30 | A decimal rendering that the `\d+` capture accepts. |
| Text.FormatInt | cmd/ncpd/main.go:639 | The `%d` rendering of the Unix time is non-empty, made of digits and a minus sign. |
| Text.DigitsValueOfNatDigits | internal/m3u8/m3u8.go:39-40 | Reading back the decimal rendering gives the number. |
| Text.AtoiFormat | internal/m3u8/m3u8.go:39-40 | `Atoi` inverts the decimal rendering of any number in range. |
| FileNames.ReplaceForbidden | cmd/ncpd/main.go:629-632 | Each forbidden byte becomes `_` and every other byte stays: `< > : " \| ? * / \`, 0x00-0x1f and 0x7f are forbidden. |
| FileNames.ReplaceForbiddenOfSafe | cmd/ncpd/main.go:632 | A name without forbidden bytes is left as it is. |
| FileNames.Sanitize | cmd/ncpd/main.go:627-648 | The shared sanitiser. The result is 1-200 bytes, safe, and does not start with a dot or space. An empty cleaned name gives the prefix and time, cut to 200. Otherwise the result is a prefix of the cleaned name, cut to exactly 200 when longer, and a replaced piece of the input. |
| FileNames.CleanedSafe | cmd/ncpd/main.go:632-635 | After replacing and trimming, the name has no forbidden byte and no dot or space at either end. |
| FileNames.TruncatedClean | cmd/ncpd/main.go:643-645 | Cutting a clean name to 200 bytes keeps it non-empty and safe with its first byte unchanged, and changes nothing when it is short enough. |
| FileNames.FallbackSafe | cmd/ncpd/main.go:638-640 | The fallback name is safe and starts with its prefix. |
| FileNames.CleanedIsReplacedSlice | cmd/ncpd/main.go:632-645 | A cut cleaned name is a piece of the input with forbidden bytes replaced. |
| FileNames.SanitizeKeepsCleanName | cmd/ncpd/main.go:627-648 | A safe name of at most 200 bytes, without a dot or space at either end, comes back unchanged. |
| FileNames.SanitizeIdempotent | cmd/ncpd/main.go:627-648 | Sanitising a sanitised name again changes nothing, at any time, provided the name does not end in a dot or space. |
| FileNames.SanitizedIsSegment | cmd/ncpd/main.go:627-648 | A sanitised name is one path segment: non-empty, without `/`, and not starting with a dot. |
| FileNames.SanitizeCutsCleanName | cmd/ncpd/main.go:643-645 | A clean name longer than 200 bytes is cut to its first 200 bytes. |
| FileNames.SanitizeCanEndInSpace | cmd/ncpd/main.go:634-645 | The cut comes after the trim, so a long name can come out ending in a space. |
| FileNames.DatePart | cmd/ncpd/main.go:577-582 | The first 10 bytes of the publish time, or all of it when shorter. |
| FileNames.DatePartIsTruncate | cmd/ncpd/main.go:577-582 | The date part is the publish time cut to 10 bytes. |
| FileNames.FormatPublishDate | internal/news/html.go:226-234 | With at least 10 bytes: the first 10 bytes with every `-` turned into `/`, so no `-` is left. A shorter time is returned unchanged. |
| FileNames.FormatPublishDateOfDatePart | cmd/news/main.go:156-164 | The displayed date and the directory's date part differ only by `-` becoming `/`, and only for times of at least 10 bytes. |
| FileNames.FormatPublishDateExample | internal/news/html.go:225-231 | `2024-12-18T10:00:00` formats to `2024/12/18`. |
| FileNames.ArticleDirName | cmd/ncpd/main.go:584-585 | `[<date>] <title>`: the bracket, the date part, `] ` and the title, in that order. |
| FileNames.JoinPath | cmd/ncpd/main.go:656 | `filepath.Join` of a base and segments starts with the base and a separator. |
| FileNames.JoinPathSplits | cmd/ncpd/main.go:656-660 | What follows the base splits back into exactly the segments. |
| FileNames.JoinPathOfPlainBase | main.go:382-387 | With a one-piece base, the path is the plain join and splits into the base and the segments. |
| NewsHtml.DetermineThumbnailURL | internal/news/html.go:21-39 | The channel's cover is used without a theme, without a layout, for the list layout (id 3), or when the article has no thumbnail. Otherwise the article's own thumbnail is used. |
| NewsHtml.ChannelCoverUnlessCardLayout | internal/news/html.go:22-31 | Without a non-list layout the cover is used, whatever the article's thumbnail. |
| NewsHtml.ThumbnailEmptyOnlyWithoutCover | internal/news/html.go:21-39 | The chosen URL is empty only when the channel's cover is empty. |
| NewsHtml.CleanFileName | internal/news/html.go:202-223 | The sanitiser with the `image_` fallback: 1-200 safe bytes. It falls back exactly when nothing is left after cleaning; otherwise it is a replaced piece of the input. |
| NewsHtml.StripQuery | internal/news/html.go:177-179 | Everything before the first `?`. The path has no `?`, is a prefix of the URL, and is followed by `?` when shorter. |
| NewsHtml.ExtractFileName | internal/news/html.go:175-199 | Empty exactly when the last path piece is empty. Otherwise it is that piece, decoded if the decoder accepts it, then cleaned. |
| NewsHtml.ExtractFileNameEmpty | internal/news/html.go:182-198 | No file name comes out exactly when the query-free URL is empty or ends with `/`. |
| NewsHtml.ExtractFileNameOfPlainName | internal/news/html.go:175-199 | A URL ending in a clean file name, with or without a query, is saved under that very name. |
| NewsHtml.StripQueryOf | internal/news/html.go:177-179 | A query-free path followed by a query loses exactly the query. |
| NewsHtml.ExtractThumbnailFileName | internal/news/html.go:294-297 | Every thumbnail is saved as `thumbnail.jpg`, a safe name without a dot or space at either end. |
| NewsHtml.ThumbnailNameIsClean | internal/news/html.go:294-297 | Cleaning the thumbnail's name changes nothing. |
| NcpdMain.HasAnySelection | cmd/ncpd/main.go:33-35 | True exactly when some flag is on; false exactly for the all-off options. |
| NcpdMain.AnyFlagSelects | cmd/ncpd/main.go:24-35 | Turning on any one of the five flags makes a selection. |
| NcpdMain.IsLiveArchive | cmd/ncpd/main.go:610-624 | A live archive exactly when the active file's type is `archived` or a live start time is present. |
| NcpdMain.UploadIsNotLiveArchive | cmd/ncpd/main.go:610-624 | Without a file type and without a live start, a video is an ordinary upload. |
| NcpdMain.SanitizeFilename | cmd/ncpd/main.go:627-648 | The `untitled_` copy: a non-empty path segment of at most 200 safe bytes. It uses the fallback exactly when nothing is left after cleaning; otherwise it is a replaced piece of the title. |
| NcpdMain.Kind | cmd/ncpd/main.go:654-661 | The kind directory (`生放送` or `動画`) is one path segment. |
| NcpdMain.GetSavePathAndName | cmd/ncpd/main.go:651-663 | The name is the sanitised title. The directory is `base/生放送/<name>` for live archives and `base/動画/<name>` otherwise. |
| NcpdMain.SavePathPieces | cmd/ncpd/main.go:651-663 | Under a non-empty base the directory is the base, then exactly two pieces: the kind and the name. |
| NcpdMain.ArticleDir | cmd/ncpd/main.go:572-585 | The article directory is `[<date part>] ` followed by the sanitised title. |
| NcpdMain.FormatDuration | cmd/ncpd/main.go:666-679 | Under a minute, the seconds branch. Under an hour, minutes 1-59 and seconds 0-59 that make up the whole seconds. Otherwise hours of at least 1, minutes and seconds 0-59 that make up the whole seconds. |
| NcpdMain.WholeUnits | cmd/ncpd/main.go:670-676 | Whole minutes and hours are whole seconds divided by 60 and 3600. |
| NcpdMain.SplitSeconds | cmd/ncpd/main.go:670-676 | The displayed parts add back up to the whole seconds. |
| NcpdMain.MinutesSecondsUnique | cmd/ncpd/main.go:669-672 | The minutes-and-seconds display is the only such split of the whole seconds. |
| NcpdMain.InRange | cmd/ncpd/main.go:877-882 | Reference meaning of the filter: the selected indices inside the list, in selection order. |
| NcpdMain.InRangeMembers | cmd/ncpd/main.go:877-882 | An index is kept exactly when it was selected and lies in range. |
| NcpdMain.InRangeAppend | cmd/ncpd/main.go:877-882 | The filter keeps the selection's order: it distributes over concatenation. |
| NcpdMain.InRangeOfValid | cmd/ncpd/main.go:877-882 | A selection of valid indices is kept whole. |
| NcpdMain.SelectVideos | cmd/ncpd/main.go:877-882 | The k-th video returned is the video at the k-th in-range selected index. |
| LegacyMain.GetSavePathAndName | main.go:378-390 | The older downloader: the name is the sanitised title, and the directory is `out/<live or video>/<name>`. |
| LegacyMain.LegacySavePathPieces | main.go:378-390 | That directory is exactly three pieces: `out`, the kind and the name. |
| LegacyMain.SameNameAsNcpd | main.go:337-390 | Both downloaders save a video under the same name, and both separate live archives from uploads by the same test. |
| NewsMain.SanitizeFilename | cmd/news/main.go:132-153 | The `article_` copy: 1-200 safe bytes. It uses the fallback exactly when nothing is left after cleaning. |
| NewsMain.SanitizeCopiesAgree | cmd/news/main.go:132-153 | The copies differ only in the fallback: on a title that keeps something after cleaning, they agree at any time. |
| NewsMain.ArticleDir | cmd/news/main.go:94-107 | The news downloader's directory name is `[<date part>] ` followed by its sanitised title. |
| NewsMain.ArticleDirsAgree | cmd/news/main.go:94-107 | Both downloaders name an article's directory alike unless its title cleans down to nothing. |

## Left out

- Locks: the read and write locks of the token manager are not modelled.
  The model is the sequential state machine, with every clock reading as a
  parameter.
- The HTTP layer: request building, headers, JSON decoding, resty clients
  and platform selection. Each request is a parameter holding its reply.
  `GetComments`, `GetVideoDetails`, `GetArticle`, `GetIndex` and the
  session-id requests are not part of this model.
- Printing and logging, the interactive forms and prompts, file writing,
  `os.MkdirAll`, downloading of images and videos, and the HTML templating
  of articles.
- The sub-minute branch of `formatDuration`: it prints `d.Seconds()` as a
  rounded float.
- NcpdMain.FormatDuration: the other branches truncate float conversions
  to `int`. The model uses integer division, which agrees while the
  duration is below 4096 hours (about 170 days). Beyond that, float
  rounding can differ.
- The rendering of `formatDuration`'s text: the model returns the numbers
  that are printed.
- NewsHtml.ExtractFileName: `url.QueryUnescape` is a parameter. Its
  percent-decoding is not modelled.
- FileNames.JoinPath: the base directory is taken as already clean.
  `filepath.Join` would also clean a base holding `..`, `.` or doubled
  separators. In `main.go` the base `./out` is cleaned to `out`, and the
  model writes it that way.
- `strings.TrimSpace` trims only ASCII white space in the model. Go also
  trims multi-byte Unicode spaces.
- Comments.GetAllComments: among comments with equal playback times the
  order is unspecified in Go, because map iteration and `sort.Slice` are
  not stable. The model fixes one admissible order, and its contract claims
  only sortedness and the listing of every stored comment.
- The `Mentions` field of `Message` is not modelled; nothing reads it.
- Comments.Gather and Paging.WalkFrom say nothing about a server on which
  the Go loops run for ever, such as one that never sends a short page or
  keeps moving the watermark. Each takes a ghost bound that exists exactly
  when the loop ends.
- Error texts: only the `GetAllComments: ` prefix and the channel
  functions' error kinds are modelled. The paged walks return the failing
  page and the request's error message rather than the formatted text.
- NewsHtml.DetermineThumbnailURL: `html.go` reads `article.ArticleTheme`,
  but the `Article` record of `news.go` has no such field. The model
  declares the theme it reads in `ThemedArticle`.
- `cmd/news/main.go` calls `ProcessArticleWithOutputDir` with three
  arguments, while `html.go` declares four. `ProcessArticleWithOutputDir`
  is not part of this model.
- The output directory of article pages (`<base>/NEWS/<dir>`) is not
  modelled. Only the directory name is.
- FileNames.Sanitize: trimming happens before the 200-byte cut, so a long
  name can end in a space or a dot after cutting. The model keeps that
  behaviour, shown by `SanitizeCanEndInSpace`. It states only the first
  byte's property, and the last byte's only when nothing was cut.
