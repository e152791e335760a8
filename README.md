# get_pixiv: the download core, modelled in Dafny

get pixiv is a desktop tool that downloads every artwork of a pixiv account, one page of
its artwork listing, or a single artwork. Most of `get_pixiv.py` drives a Tk window and a
Selenium browser. This project models the deterministic core underneath, file
`get_pixiv.py`, and proves what that core promises:

- `Cookies`: the pasted session cookie (`save_cookie_string`). A browser's
  `name=value; name=value` string, or an exported JSON array, is parsed into a cookie
  list or rejected with the reason. An accepted list is rebuilt into the `Cookie`
  request header, and parsing the header of a list gives the list back. The stored
  list itself is not modelled (see "Left out").
- `ImageUrls`: how `get_image_urls` turns three strings read from an artwork page into the
  original-image URLs. The strings are the preview span text, the og:image content and the
  first original-image match. The steps are the page count, then the base URL and
  extension, then `base_p{i}.ext` for every page.
- `Listing`: which anchors of a listing page are artwork links, and how links already
  seen are dropped. Also the "next page" choice and the page count (`get_total_pages`).
- `Inputs`: the user-ID and artwork-URL checks made before a search or a download starts.
- `Downloader`: one download run (`download_all`, `download_page`, `download_url`) as a
  class `DownloadRun`.
  - Its fields are the counters `processed_count`, `downloaded_count` and
    `skipped_count`, plus the seen set, `failed_urls` and `failed_downloads`.
  - The image folder is a map from file name to size, and a fetch log records every HTTP
    fetch.
  - Each method is the loop it models. Each is proved equal to a specification function
    (`Retry`, `StepImage`, `ImagesLoop`, `Extract`, `NextSearch`, `ProcessSpec`,
    `TurnSpec`), and the lemmas beside those functions state what the source promises.
  - The main promises:
    - an image whose file is there and non-empty is skipped without a fetch;
    - there are at most five fetches per image, and one failure record only after the
      fifth failure;
    - every artwork counted as processed is counted exactly once, as skipped or as
      downloaded;
    - every artwork of a page ends completed, not extracted, or reported as interrupted;
    - no file name ever leaves the folder, and a file that is there (not empty) stays
      there with its size, whatever the fetches return.
- `Text`: the Python string operations these use: `split`, `join`, `strip`,
  `split(c, 1)`, `rsplit(sep, 1)`, `int()` and `str()`.

What the browser, the network, the clock and the stop button provide is an input:
- the stop flag raised by another thread is a sequence of numbered reads, raised from read
  `stopAt` on;
- attempt k of fetching an image URL has a given outcome;
- attempt k of loading an artwork page shows a given page;
- a listing page is given by its hrefs and by what each search for the next-page control
  finds.

Three behaviours of the code are proved as they are written:
- `?p=2` is searched as a substring, so a link to page 20 is taken as the link to page 2
  (`Listing.LongerPageNumberAccepted`).
- An artwork counts as downloaded as soon as one of its files was missing, even if every
  fetch then failed (`Downloader.MissingFileCountsAsDownload`).
- Without an original-image match, the og:image fallback yields one URL per page
  (`page_count` of them), all with extension `png`. It does not yield a single URL.

## Model

| member | source | states |
|---|---|---|
| Text.JoinSplit | get_pixiv.py:183 | joining the pieces of `s.split(sep)` with `sep` gives `s` back |
| Text.SplitJoin | get_pixiv.py:193 | for a separator that cannot overlap itself, splitting the join of parts free of it gives the parts back |
| Text.SplitAfterPart | get_pixiv.py:183 | splitting `x + sep + r` with `x` free of `sep` gives `x` followed by the pieces of `r` |
| Text.SplitWithoutSep | get_pixiv.py:183 | a string without the separator splits into itself alone |
| Text.SplitAround | get_pixiv.py:981 | splitting on a character cuts at every occurrence: `a + c + b` splits into the pieces of `a` then those of `b` |
| Text.SplitPiecesAvoid | get_pixiv.py:981 | no piece of a split on `c` contains `c` |
| Text.BeforeFirst | get_pixiv.py:187 | `s.split(c, 1)[0]`: a prefix of `s` free of `c`, ending where `c` first occurs or at the end |
| Text.AfterFirst | get_pixiv.py:187 | `s.split(c, 1)[1]`: `s` is the part before the first `c`, then `c`, then the result |
| Text.CutAtFirst | get_pixiv.py:187 | for `n` free of `c`, cutting `n + c + v` at the first `c` gives back `n` and `v` |
| Text.FirstPiece | get_pixiv.py:981 | the first piece of `split(c)` is the text before the first `c` |
| Text.SecondPiece | get_pixiv.py:981 | with `c` present there are at least two pieces, and the second is the text between the first and second `c` |
| Text.LastSegmentAvoids | get_pixiv.py:578 | `s.split(c)[-1]` holds no `c` |
| Text.LastSegmentWhole | get_pixiv.py:996 | a string without `c` is its own last segment |
| Text.LastSegmentAfter | get_pixiv.py:578 | the last segment of `a + c + b`, with `b` free of `c`, is `b` |
| Text.RFind | get_pixiv.py:993 | a found position holds an occurrence of the separator |
| Text.RFindLast | get_pixiv.py:993 | the position found holds the last occurrence of the separator, none occurring after it; nothing is found exactly when it occurs nowhere |
| Text.RFindAfter | get_pixiv.py:993 | `rsplit(sep, 1)` finds the occurrence right before a tail that cannot hold `sep` |
| Text.Strip | get_pixiv.py:172 | `strip()`: the result is one window of the input with only whitespace before and after it; it is empty exactly when every character is whitespace, and otherwise starts and ends with non-whitespace; text already trimmed is unchanged |
| Text.StripUnique | get_pixiv.py:172 | any window of the input with only whitespace around it and non-whitespace at both ends is the result of `strip()`, so the contract of `Strip` fixes its value |
| Text.LeadingDigits | get_pixiv.py:986 | the longest run of digits at the start of `s` |
| Text.LeadingDigitsOf | get_pixiv.py:986 | the leading digits of `d + rest` are `d` when `rest` does not start with a digit |
| Text.NatToString | get_pixiv.py:1009 | `str(n)` is a non-empty run of digits without a leading zero |
| Text.DigitsValueOfNatToString | get_pixiv.py:1009 | the digits of `str(n)` have value `n` |
| Text.NatToStringInjective | get_pixiv.py:1009 | different numbers print differently |
| Text.ParseIntOfNatToString | get_pixiv.py:981 | `int(str(n)) == n` |
| Text.ContainsChar | get_pixiv.py:980 | the substring test with a one-character string is the membership test |
| Text.ContainsInfix | get_pixiv.py:653 | `t in a + t + b` |
| Inputs.AcceptArtworkUrl | get_pixiv.py:461-464 | the stripped entry is accepted exactly when it starts with the artwork prefix followed by a digit, and it is then the URL used |
| Inputs.UserIdOfNumber | get_pixiv.py:273-276 | every decimal number is a valid user ID |
| Inputs.UserIdRejects | get_pixiv.py:273-276 | an empty ID, a signed ID and an ID with a leading blank are rejected |
| Inputs.CanonicalArtworkUrl | get_pixiv.py:461-464 | the canonical URL of artwork n is accepted unchanged, and its last segment is n |
| Inputs.PrefixMatchOnly | get_pixiv.py:461-464 | the match is anchored only at the start: extra segments after the number are accepted, and the last segment is then not the number |
| Cookies.PairsOnly | get_pixiv.py:183 | keeps exactly the parts holding `=`: a string is in the result exactly when it is a part holding `=`; empty exactly when no part holds `=`, all parts when all do |
| Cookies.PairsOnlySingle | get_pixiv.py:183 | a single part is kept exactly when it holds `=` |
| Cookies.PairsOnlyOrder | get_pixiv.py:183 | filtering a concatenation gives the filtered first half then the filtered second half: the kept parts stay in input order |
| Cookies.CookieOfPart | get_pixiv.py:187 | the cookie's name, `=` and value give the part back; the name holds no `=`; the domain is `.pixiv.net` |
| Cookies.ParseCookieString | get_pixiv.py:171-190 | rejected as no cookie string exactly when the stripped input is empty; an accepted list is never empty; the two forms are pinned down by `ParseJsonForm` and `ParseTextForm` |
| Cookies.ParseJsonForm | get_pixiv.py:178-181 | a stripped input starting with `[` is read as JSON only: accepted exactly when it decodes to a non-empty array of objects that all hold `name` and `value`, giving one cookie per object in order; rejected as invalid JSON exactly when decoding fails |
| Cookies.BlankInputRejected | get_pixiv.py:172-175 | the input is refused before parsing exactly when it is empty or all whitespace |
| Cookies.ParseJsonCookies | get_pixiv.py:178-181 | the JSON form is accepted exactly when it decodes to a non-empty array of objects with `name` and `value`, giving one cookie per element; otherwise it fails with one of the three JSON errors |
| Cookies.ParseTextCookies | get_pixiv.py:182-187 | the text form succeeds with a non-empty list or fails because no part holds `=` |
| Cookies.ParseTextForm | get_pixiv.py:182-187 | text form: rejected exactly when no `"; "`-part holds `=`; else one cookie per such part, in order, cut at its first `=` and with domain `.pixiv.net` |
| Cookies.EmptyListOnlyFromJson | get_pixiv.py:189-190 | the empty-list error arises only from a JSON array that decodes to `[]` |
| Cookies.HeaderOfParsedText | get_pixiv.py:183-193 | the rebuilt header of a text-form input is its `name=value` parts joined by `"; "`, and is the stripped input itself when every part holds `=` |
| Cookies.HeaderEnds | get_pixiv.py:193 | the header starts with the first cookie's first character and ends with the last cookie's last |
| Cookies.HeaderIsTextForm | get_pixiv.py:193 | the header of a header-safe list is left alone by `strip` and is not taken for JSON |
| Cookies.HeaderParts | get_pixiv.py:193 | the `"; "`-parts of the header of a header-safe list are its `name=value` pairs |
| Cookies.CookiesOfPairs | get_pixiv.py:187 | each `name=value` pair of a header-safe list reads back as its cookie |
| Cookies.ParseHeaderRoundTrip | get_pixiv.py:171-193 | parsing the header rebuilt from a header-safe cookie list gives the list back |
| ImageUrls.AdjustedByOgImage | get_pixiv.py:984-988 | only a count of 1 with an og:image holding `i.pximg.net` changes: it becomes k + 1 for the first `_p<k>.` in the og:image, and stays 1 when there is none; otherwise the count is left as it is |
| ImageUrls.PageCountFromOgImage | get_pixiv.py:977-988 | without a preview, an `i.pximg.net` og:image named `..._p<k>.` with no earlier `_` gives k + 1 pages |
| ImageUrls.PageCountDefault | get_pixiv.py:977-988 | an og:image without `i.pximg.net` leaves the preview's count; with neither a preview nor such an og:image the count is 1 |
| ImageUrls.SearchDatePath | get_pixiv.py:998-999 | a found date path has the shape `dddd/dd/dd/dd/dd/dd`; a string too short to hold `img/` and a date path has none |
| ImageUrls.SearchDatePathLeftmost | get_pixiv.py:998-999 | `re.search` semantics: a found date path is the one at the leftmost position where `img/` and a date path start; nothing is found exactly when no position has one |
| ImageUrls.SearchDatePathFinds | get_pixiv.py:998-999 | conversely, a date path at a position with none before it is what the search returns |
| ImageUrls.SearchDatePathAt | get_pixiv.py:998-999 | `img/` followed by a date path `d` at the start gives `d` |
| ImageUrls.NoDatePathFails | get_pixiv.py:995-1004 | without an original-image match, an `i.pximg.net` og:image holding no date path gives the no-date-path error and no URL |
| ImageUrls.ImageUrlList | get_pixiv.py:1009 | one URL per page, none for a count below 1 |
| ImageUrls.PageUrlsDistinct | get_pixiv.py:1009 | the URLs of two different pages differ |
| ImageUrls.ImageUrlListEntries | get_pixiv.py:1009 | entry i is `base_p{i}.ext` |
| ImageUrls.ImageUrlListShape | get_pixiv.py:1009 | `max(count, 0)` entries, entry i is `base_p{i}.ext`, and no two entries are equal |
| ImageUrls.MatchParts | get_pixiv.py:992 | the illust ID of a match holds no `/` or `_`, and its extension no `/`, `_` or `.` |
| ImageUrls.OriginalBase | get_pixiv.py:992-994 | `rsplit("_p", 1)[0]` of the match is the prefix, date path and illust ID; the extension is the captured one |
| ImageUrls.PreviewCountIsSecondField | get_pixiv.py:978-981 | with `/` in the preview text, the count is `int()` of the field after the first `/` |
| ImageUrls.PreviewCountWins | get_pixiv.py:977-988 | a preview `i/n` with `n != 1` fixes the count at n whatever the og:image says |
| ImageUrls.PageIndexAtNumber | get_pixiv.py:986-987 | `_p<k>.` at the start of a string captures k |
| ImageUrls.SearchPageIndexStep | get_pixiv.py:986 | a leftmost match cannot start at a character other than `_` |
| ImageUrls.SearchSkips | get_pixiv.py:986 | text without `_` before the match does not change what the search finds |
| ImageUrls.SearchPageIndexAfter | get_pixiv.py:986-987 | an og:image name `..._p<k>.` with no earlier `_` gives page index k |
| ImageUrls.PageFileName | get_pixiv.py:578 | the file name of page i's URL is `<id>_p<i>.<ext>` |
| ImageUrls.ListFileNames | get_pixiv.py:1009 | every listed URL is `<prefix>/<id>_p<i>.<ext>`, and its file name is `<id>_p<i>.<ext>` |
| ImageUrls.OriginalImageUrls | get_pixiv.py:992-1011 | with an original-image match: one URL per page from that match's base and extension, whose file name carries page index i |
| ImageUrls.FallbackImageUrls | get_pixiv.py:995-1011 | without a match but with an i.pximg.net og:image holding a date path: one URL per page, from that date path and the artwork URL's last segment, with extension png |
| ImageUrls.NoPatternNoUrls | get_pixiv.py:995-1007 | without a match or an i.pximg.net og:image, no URLs are produced |
| ImageUrls.MalformedCountFails | get_pixiv.py:981 | a preview field `int()` rejects gives the malformed-count error |
| Listing.TrailingDigits | get_pixiv.py:547 | the digits at the end are no longer than the string |
| Listing.TrailingDigitsShape | get_pixiv.py:547 | the trailing digits are a suffix of digits that cannot be extended to the left |
| Listing.ArtworkHrefAccepted | get_pixiv.py:547 | any href ending in `/en/artworks/<digits>` is an artwork link |
| Listing.ArtworkHrefRejected | get_pixiv.py:547 | an href ending in neither a digit nor a newline is not |
| Listing.TrailingDigitsOf | get_pixiv.py:547 | the trailing digits of `x + d`, for digits `d` after a non-digit, are `d` |
| Listing.LinkedArtworks | get_pixiv.py:546-548 | every collected URL is the site root plus an artwork href of the page |
| Listing.LinkedArtworksComplete | get_pixiv.py:546-548 | every artwork href of the page contributes its URL |
| Listing.SeenAfterGrows | get_pixiv.py:549-551 | the seen set only grows page after page |
| Listing.NewPagesDisjoint | get_pixiv.py:546-551 | two pages never queue the same artwork, and nothing seen before the walk is queued |
| Listing.SelectNext | get_pixiv.py:397-401 | the first candidate whose href holds `?p=<n+1>`; None exactly when no candidate does |
| Listing.TotalPages | get_pixiv.py:380-415 | at least 1; one more than the number of pages advanced from in a row; the walk stops at the first page it cannot advance from |
| Listing.LongerPageNumberAccepted | get_pixiv.py:397-401 | on page 1 a link holding `?p=20` is accepted as the link to page 2 |
| Downloader.FileName | get_pixiv.py:578 | the file name of an image is its URL's last segment and holds no `/` |
| Downloader.RetryFacts | get_pixiv.py:585-597 | at most five fetches, stopping at the first success; every fetch before the last failed; a failure is recorded only when all five failed and the stop flag stayed down, with the last error |
| Downloader.SkipWhenPresent | get_pixiv.py:578-582 | an image whose file is there and non-empty is skipped with no fetch and nothing written |
| Downloader.StepImageBounds | get_pixiv.py:575-597 | one image turn fetches only its image, at most five times, and records at most one failure for it |
| Downloader.ImagesLoopBounds | get_pixiv.py:574-597 | the image loop fetches only its own images, at most five times each, and appends at most one failure per image, for its artwork and page |
| Downloader.NotSkippedStays | get_pixiv.py:584 | once an image was fetched the artwork is no longer all skipped |
| Downloader.OtherFilesKept | get_pixiv.py:578-591 | the image loop touches only the files named by its images |
| Downloader.MissingFileCountsAsDownload | get_pixiv.py:580-584 | without a stop, one missing file makes the artwork count as downloaded, even when every fetch of it fails |
| Downloader.PresentStays | get_pixiv.py:580-591 | a file that is there stays there with its size, whatever the fetches return, because its image is skipped |
| Downloader.FirstTurnNoFailure | get_pixiv.py:595-596 | when the whole loop records no failure, neither does its first turn |
| Downloader.TurnLeavesFile | get_pixiv.py:585-596 | without a stop, an image turn that records no failure leaves its file there |
| Downloader.AllFilesPresent | get_pixiv.py:574-597 | without a stop and without failed downloads, every image file of the artwork is there afterwards |
| Downloader.AllPresentOnlyPolls | get_pixiv.py:575-582 | with every file there, the image loop fetches and writes nothing, and the artwork stays all skipped |
| Downloader.SecondRunSkipsAll | get_pixiv.py:574-609 | downloading an artwork again after a clean download skips every image |
| Downloader.LoadLoop | get_pixiv.py:965-1023 | a load loop that does not give up ends on one of its three attempts |
| Downloader.LoadLoopFacts | get_pixiv.py:965-1023 | the page loads at most three times; it ends on a stop, a closed window or a loaded page, each seen right then; it gives up exactly when all three loads failed with the flag down |
| Downloader.FromLoadedPage | get_pixiv.py:977-1011 | a loaded page gives its derived URLs, or none; only a malformed count drops the session |
| Downloader.Extract | get_pixiv.py:964-1027 | one to three stop-flag reads; a lost session yields no URLs |
| Downloader.NextSearchFacts | get_pixiv.py:637-677 | the walk moves on only if one of three searches found the control while the flag was down; with no stop, it moves on if any of them does |
| Downloader.EntriesUrls | get_pixiv.py:557-602 | the failed-artwork entries of a page name exactly its not-extracted and interrupted artworks |
| Downloader.PageAccount | get_pixiv.py:557-605 | every new artwork of a page is either processed or named by a failed-artwork entry, never both; there are as many processed artworks and entries together as new artworks; every entry is on the page and names one of them |
| Downloader.SeenAfterNext | get_pixiv.py:546-551 | the links seen after page k + 1 are those seen after page k and page k + 1's artwork links |
| Downloader.ImagesLoopKept | get_pixiv.py:574-597 | the image loop never removes a file name, only extends the fetch log, and keeps every non-empty file with its size, whatever the fetches return |
| Downloader.ProcessKept | get_pixiv.py:563-609 | processing an artwork keeps the folder and the fetch log in that sense |
| Downloader.TurnKept | get_pixiv.py:557-609 | an artwork turn keeps the folder and the fetch log in that sense, appends failed downloads only for this artwork and page, never brings a lost session back, and is interrupted whenever it loses the session |
| Downloader.TurnBounds | get_pixiv.py:557-597 | a turn fetches only the images extracted for its artwork, at most five times each, and appends at most one failed download per image |
| Downloader.TurnWhileStopping | get_pixiv.py:557-560 | with the session lost or the flag raised, the turn is interrupted and no file, fetch or failed download changes |
| Downloader.TurnOutcomes | get_pixiv.py:557-609 | a turn ends not extracted exactly when the flag was down, the session held and the extraction gave no URL without losing it; it ends done only with URLs, the session kept and the flag still down after the images |
| Downloader.TurnSkipsDownloaded | get_pixiv.py:574-609 | with no stop, an artwork whose image files are all there is counted as skipped, and nothing is fetched, written or recorded |
| Downloader.TurnKeepsOtherFiles | get_pixiv.py:574-591 | a turn touches no file other than those named by its own images |
| Downloader.EntriesCount | get_pixiv.py:557-602 | a page has as many failed-artwork entries as failed and interrupted artworks |
| Downloader.EntriesMembers | get_pixiv.py:557-602 | every entry is on the page and names an artwork reported under its reason |
| Downloader.EntriesComplete | get_pixiv.py:557-602 | every failed or interrupted artwork has an entry with its reason |
| Downloader.ReportedWithin | get_pixiv.py:557-602 | reporting on page `page` keeps every failed artwork on pages 1 to `page` |
| Downloader.AddedWithin | get_pixiv.py:596 | failed downloads of page `page` keep every failed download on pages 1 to `page` |
| Downloader.DownloadRun.constructor | get_pixiv.py:498-511 | a run starts with zero counters, empty lists and seen set, a valid session, and the given folder |
| Downloader.DownloadRun.Reset | get_pixiv.py:498-511 | the counters, lists, seen set and session flag are back to their start values |
| Downloader.DownloadRun.PollStop | get_pixiv.py:576 | reads the stop flag as the next numbered read |
| Downloader.DownloadRun.FetchWithRetry | get_pixiv.py:585-597 | the fetch loop ends as `Retry` says: the file written on success, one failure appended after five failures, one log entry per fetch |
| Downloader.DownloadRun.ProcessImage | get_pixiv.py:575-597 | one turn of the image loop, as `StepImage` |
| Downloader.DownloadRun.DownloadImages | get_pixiv.py:574-597 | the image loop of an artwork, as `ImagesLoop`; true when every image was skipped |
| Downloader.DownloadRun.ExtractImageUrls | get_pixiv.py:964-1027 | `get_image_urls`, as `Extract`: the URLs, the reads of the stop flag, and the session dropped when it was lost |
| Downloader.DownloadRun.ProcessArtwork | get_pixiv.py:563-609 | the artwork ends as `ProcessSpec` says from the state before it, with `Extract` giving the extraction: no URLs means failed, or interrupted when the session was lost, and nothing counted; else the images are downloaded and, unless the flag is then raised, the artwork is counted once, as skipped exactly when every image was skipped |
| Downloader.DownloadRun.ProcessExtracted | get_pixiv.py:565-609 | the same, once the extraction is known: the turn equals `ProcessSpec` of the state before the extraction, and the failed-artwork list and the counters change as the result says |
| Downloader.DownloadRun.FinishArtwork | get_pixiv.py:574-609 | after the image loop, the artwork is interrupted if the flag is raised, else counted once, as skipped exactly when every image was skipped |
| Downloader.DownloadRun.ReportInterrupted | get_pixiv.py:559-560 | every remaining artwork is appended once as interrupted on the page |
| Downloader.DownloadRun.CollectPageLinks | get_pixiv.py:546-551 | the page's new links are its artwork links not seen before; the seen set grows by all its artwork links |
| Downloader.DownloadRun.ArtworkTurn | get_pixiv.py:557-609 | the turn equals `TurnSpec`: a lost session or a raised flag interrupts the artwork without loading it and changes nothing but the poll count; otherwise it is processed as `ProcessSpec`; the failed-artwork list, the counters and the processed set change as the result says; folder and fetch log are kept |
| Downloader.DownloadRun.ArtworkStep | get_pixiv.py:557-605 | one turn, as `TurnSpec`, for an artwork taken from the rest of the page; it moves to completed or not extracted, keeping the page partitioned and the failed-artwork entries in step, or the loop stops; folder and fetch log are kept since the loop began |
| Downloader.DownloadRun.ArtworkLoop | get_pixiv.py:557-609 | each new artwork ends completed, not extracted, or left over because the run is stopping; processed grows by the completed ones; each failure entry is on the page; failed downloads only for the page; folder and fetch log are kept |
| Downloader.DownloadRun.DownloadPageLinks | get_pixiv.py:557-609 | each new artwork of a page is completed, not extracted or interrupted, exactly one of them; each failure reported once under its reason; processed grows by the completed ones; interruption only while stopping; folder and fetch log are kept |
| Downloader.DownloadRun.NextPageWithRetry | get_pixiv.py:637-677 | the next-page search, as `NextSearch`: at most three searches, each after reading the stop flag |
| Downloader.DownloadRun.WalkPage | get_pixiv.py:523-677 | the page's artwork links join the seen set exactly when it loaded, showed its bar and the flag was down; the walk moves on only from a page that loaded, showed its bar, was returned to and whose control was found, and, with no stop and the session kept, it does move on from such a page; failures stay on walked pages; folder and fetch log are kept |
| Downloader.DownloadRun.LeavePage | get_pixiv.py:621-677 | after the artworks, the walk moves on only if the page was returned to and a search found the control; with no stop it moves on whenever one does |
| Downloader.DownloadRun.WalkRound | get_pixiv.py:523-677 | one round of the page loop: it moves on only from a page of the listing that lets the walk move on, and then every page so far did; the seen set is the links of the pages before this one, plus this page's links exactly when the page is in the listing, loaded and showed its bar, and the flag was down at the round's first two reads; with no stop and the session kept it moves on from such a page |
| Downloader.DownloadRun.WalkListing | get_pixiv.py:523-677 | the page loop: every page before the last one reached lets the walk move on; with no stop and the session kept, the walk ends only past the listing or on a page that does not; the seen set is the links of the pages walked, possibly plus those of the last page, and with no stop and the session kept it holds the last page's links exactly when that page is in the listing, loaded and showed its bar; failures only on pages walked; folder and fetch log are kept |
| Downloader.DownloadRun.DownloadAll | get_pixiv.py:496-677 | processed is skipped plus downloaded, every processed artwork was seen; every page before the last one reached lets the walk move on, and when the first load succeeds with no stop and the session kept, the walk ends only past the listing or on a page that does not; the seen set is `SeenAfter` of the pages walked (possibly plus the last), and with the first load done, no stop and the session kept it holds the last page's links exactly when that page is in the listing, loaded and showed its bar; failures only on pages walked; folder and fetch log are kept |
| Downloader.DownloadRun.DownloadPage | get_pixiv.py:700-815 | the seen set is the page's artwork links when it loaded, showed its bar and the flag was down, else empty; it is split exactly into processed artworks and failed-artwork entries, disjoint, one entry each; every entry is on that page; folder and fetch log are kept |
| Downloader.DownloadRun.PageArtworks | get_pixiv.py:741-814 | from a reset run, the seen set becomes the page's artwork links and is split exactly into processed artworks and one failed-artwork entry for each other one, all on the page; folder and fetch log are kept |
| Downloader.DownloadRun.DownloadUrl | get_pixiv.py:837-898 | a stop before anything leaves the folder and the fetch log untouched, with no failure recorded and nothing processed; otherwise the run ends as `ProcessSpec` for the artwork on page 1: one `Failed to extract image URLs` or `Session interrupted` entry exactly when the artwork was not extracted or interrupted, processed and skipped or downloaded counted as its result says; at most the given artwork is processed; every failed download is on page 1 for it |

## Left out

- The Tk window, its buttons, the progress bar, the elapsed-time, percent and speed figures, `print_summary` and all logging. These are presentation only, with the one exception on the next line.
- Downloader.DownloadRun.DownloadAll: does not model the target count read from the user page (get_pixiv.py:339). When that count reads `0`, the progress-bar update at get_pixiv.py:618 divides by zero after the first processed artwork; the ZeroDivisionError reaches the catch-all handler at get_pixiv.py:679 and ends `download_all` there. The model carries on walking instead.
- Selenium: starting and restarting the driver, `is_session_valid`, waits, scrolling and clicks. What they report is an input: a listing page loaded or not, the pagination bar shown or not, whether going back to the page worked, what each search finds, and what each artwork-page load shows. A window closed at the start of `get_image_urls` is folded into the closed-window outcome of that load.
- HTML parsing with BeautifulSoup, and the original-image pattern run over the page source. The preview span text, the og:image content and the match (by its groups) are inputs. A meta tag without `content`, which raises a KeyError, is not modelled.
- `json.loads`, `json.dump` and the cookie file (`save_cookies`, `load_cookies` reading it). Decoding is an input function, and a decoded element is an object of string fields or anything else.
- Checking cookies against the site after they are saved.
- HTTP: each fetch has a given outcome, and the urllib3 retry policy inside the session is not modelled. Writing the file is one step: a partial write is not modelled.
- The stop flag is a sequence of reads by the download thread. Other threads, `time.sleep` and `random.uniform` are left out.
- `updater.py` and the `target_count` progress figure are not part of this model.
- Text.IsSpace and Text.IsDecimal: cover ASCII only. Python's `isspace`, `isdigit` and `int()` also accept other Unicode digits and spaces, and `int()` accepts `_` between digits.
- Text.IsAsciiDigit: the regular expressions use it for `\d` (`Inputs.MatchesArtworkUrl`, `Listing.TrailingDigits`, `Text.LeadingDigits`, `ImageUrls.IsDatePath`; get_pixiv.py:462, 547, 986, 992, 998). In Python 3 a `str` pattern's `\d` also matches non-ASCII decimal digits; the model accepts ASCII digits only.
- Python's iteration order over `page_linked` is not modelled. The artwork loop takes any remaining artwork, so every proved property holds for every order.
- Downloader.DownloadRun.ReportInterrupted: records the interrupted artworks in some order of the set. When extraction loses the session, the source appends the current artwork first, so this is weaker.
- Downloader.DownloadRun.ArtworkTurn: folds a stop seen before an artwork, a session lost while loading it, and a stop seen after its images into one `Interrupted` result. The failure lists and counters are the same for all three.
- Downloader.DownloadRun.DownloadAll: takes the listing as a finite list of pages, and a page past its end does not load. An endless listing is not modelled.
- Downloader.DownloadRun.DownloadAll: takes one input for whether the first listing load succeeds. Any exception there ends the run, as the catch-all handler does.
- Cookies.ParseCookieString: returns the parsed list or the error; the stored list is not modelled. The source assigns the decoded JSON array to `self.cookies` (get_pixiv.py:179) before checking its elements, so a rejected array still replaces the stored cookies, and only the file save and the header are skipped.
- Cookies.ParseJsonCookies: a decoded JSON object has string field values only. The source also accepts numbers, booleans or nested values for `name` and `value`, and formats them with `str()` in the header.
- Downloader.DownloadRun.ArtworkLoop: states the effect on the folder and the fetch log as `Kept` only (no file name removed, the log only extended, non-empty files stay). Which files each artwork writes, and so whether it counts as skipped or downloaded, depends on the iteration order of the set; it is stated per turn by `TurnSpec` and its lemmas (`TurnBounds`, `TurnKeepsOtherFiles`, `TurnSkipsDownloaded`). At loop level the model states only that processed is skipped plus downloaded.
- Downloader.DownloadRun.DownloadPageLinks: states the folder and the fetch log as `Kept` only, for the same reason as the artwork loop.
- Downloader.DownloadRun.WalkPage: states the folder and the fetch log as `Kept` only, for the same reason as the artwork loop. How each artwork of the page ends is stated by `DownloadPageLinks`, which it calls, and is not repeated in its contract.
- Downloader.DownloadRun.DownloadPage: states the folder and the fetch log as `Kept` only, for the same reason as the artwork loop.
- Downloader.DownloadRun.DownloadAll: states the folder and the fetch log as `Kept` only, for the same reason as the artwork loop. When a stop is requested, the model says the seen set holds the last page's links or not, without saying which: that depends on the flag read at which the stop came. With no stop and the session kept it says which.
- Downloader.DownloadRun.WalkListing: states the folder and the fetch log as `Kept` only, for the same reason as the artwork loop. With a stop requested it leaves open whether the last page's links are in the seen set, as `DownloadAll` does.
- Downloader.DownloadRun.WalkRound: states the folder and the fetch log as `Kept` only, for the same reason as the artwork loop. How each artwork of the page ends is stated by `DownloadPageLinks`.
- Downloader.DownloadRun.PageArtworks: states the folder and the fetch log as `Kept` only, for the same reason as the artwork loop.
- Listing.TotalPages: takes the listing as a finite list of page views and stops at its end; `get_total_pages` keeps clicking for as long as a next-page link is found. An endless listing is not modelled.
- Listing.TotalPages: covers the page-count walk of `get_total_pages` only. The scrolling, waits and the XPath search that produce the candidates are inputs.
